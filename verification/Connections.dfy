/**
 * The client connection table and the operations that drive it: Request, Close and Heal.
 *
 * Everything outside the manager (validity, dataplane, endpoints) is an outcome passed in, so each
 * statement holds for every way the outside can answer.
 */
module Connections {
  import opened Powers

  datatype ConnState = Ready | Requesting | Healing | Closing | Closed

  datatype HealState = DstDown | SrcDown | DataplaneDown | DstUpdate

  /** What the outside answers during one `request`, in the order it is asked. */
  datatype Outcome = Outcome(
    valid: bool,            // the request is valid
    dataplane: bool,        // a dataplane is registered
    serviceChanged: bool,   // the request names another network service than the connection has
    needNse: bool,          // the context or remote mechanism changed
    mechanism: bool,        // a mechanism was found
    dataplaneConn: bool,    // the dataplane can be dialled
    nse: bool,              // an endpoint accepted
    localRequests: nat,     // connection ids spent on requests to local endpoints
    programmed: bool,       // the dataplane took the cross connect
    programmedOnRetry: bool // it took it at the second attempt
  )

  // ---- connection ids ----

  const DIGITS: string := "0123456789abcdef"

  /** `strconv.FormatUint(n, 16)`. */
  function Hex(n: nat): string {
    if n < 16 then [DIGITS[n]] else Hex(n / 16) + [DIGITS[n % 16]]
  }

  function DigitValue(c: char): nat {
    if '0' <= c <= '9' then (c - '0') as int
    else if 'a' <= c <= 'f' then (c - 'a') as int + 10
    else 0
  }

  function HexValue(s: string): nat {
    if s == [] then 0 else 16 * HexValue(s[..|s| - 1]) + DigitValue(s[|s| - 1])
  }

  /** Digits as in the source: lower case, most significant first. */
  lemma HexExample()
    ensures Hex(0x2af) == "2af"
  {
    assert Hex(0x2a) == Hex(2) + [DIGITS[10]] && Hex(0x2af) == Hex(0x2a) + [DIGITS[15]];
  }

  /** Reading an id back gives its number, so different numbers give different ids. */
  lemma {:induction false} HexRoundTrip(n: nat)
    ensures HexValue(Hex(n)) == n
  {
    DigitRoundTrip(n % 16);
    if n >= 16 {
      HexRoundTrip(n / 16);
      assert Hex(n)[..|Hex(n)| - 1] == Hex(n / 16);
    } else {
      assert HexValue([]) == 0;
    }
  }

  lemma DigitRoundTrip(d: nat)
    requires d < 16
    ensures DigitValue(DIGITS[d]) == d
  {
  }

  // ---- what the operations do to the table, seen as states by id ----

  type View = map<string, ConnState>

  /** An endpoint is asked when the connection is new or the request changed what it needs. */
  predicate AsksNse(o: Outcome) {
    o.serviceChanged || o.needNse
  }

  /** `request` for a known connection gets as far as programming the dataplane. */
  predicate Reaches(o: Outcome) {
    o.valid && o.dataplane && o.mechanism && o.dataplaneConn && (AsksNse(o) ==> o.nse)
  }

  predicate Programs(o: Outcome) {
    o.programmed || o.programmedOnRetry
  }

  function CloseState(s: ConnState): ConnState {
    if s == Closing then Closing else Closed
  }

  /** A changed network service closes the old connection before anything else is known to work. */
  predicate ClosesFirst(o: Outcome) {
    o.valid && o.dataplane && o.serviceChanged
  }

  function AfterUpdate(v: View, id: string, o: Outcome): View
    requires id in v
  {
    if Reaches(o) then (if Programs(o) then v[id := Ready] else v - {id})
    else if ClosesFirst(o) then v[id := CloseState(v[id])]
    else v
  }

  predicate ReachesNew(o: Outcome) {
    o.valid && o.dataplane && o.mechanism && o.dataplaneConn && o.nse
  }

  /** A new connection; if its id were taken, that entry would go. */
  function AfterNew(v: View, id: string, o: Outcome): View {
    if !ReachesNew(o) then v else if Programs(o) then v[id := Ready] else v - {id}
  }

  /** Closing a connection object in state `s`, in the table or not. */
  function AfterClose(v: View, id: string, s: ConnState): View {
    if s == Closing then v else v - {id}
  }

  /** Healing succeeds: nothing was to be done here, or the new request went through. */
  predicate Recovers(h: HealState, remoteSource: bool, hasRequest: bool, waited: bool, o: Outcome) {
    match h
    case DstDown => !remoteSource && Reaches(o) && Programs(o)
    case DataplaneDown => waited && (remoteSource || (Reaches(o) && Programs(o)))
    case DstUpdate => hasRequest && Reaches(o) && Programs(o)
    case SrcDown => false
  }

  /** Healing a connection object in state `s`, in the table or not. */
  function AfterHeal(v: View, id: string, s: ConnState, h: HealState, remoteSource: bool, hasRequest: bool,
                     waited: bool, o: Outcome): View {
    if s != Ready then v
    else if Recovers(h, remoteSource, hasRequest, waited, o) then v[id := Ready]
    else v - {id}
  }

  /** Healing sends the original request again. */
  predicate Resends(h: HealState, remoteSource: bool, waited: bool) {
    !remoteSource && (h == DstDown || (h == DataplaneDown && waited))
  }

  // ---- the same, told from the answers ----

  /**
   * What an update makes of a Ready entry: gone if only the programming failed, twice; Closed if the
   * service was changed and something before that failed; Ready otherwise.
   */
  lemma UpdateFates(v: View, id: string, o: Outcome)
    requires id in v && v[id] == Ready
    ensures var v' := AfterUpdate(v, id, o);
            && v' - {id} == v - {id}
            && (id !in v' <==>
                  && o.valid && o.dataplane && o.mechanism && o.dataplaneConn
                  && (o.serviceChanged || o.needNse ==> o.nse)
                  && !o.programmed && !o.programmedOnRetry)
            && (id in v' ==> v'[id] == Ready || v'[id] == Closed)
            && (id in v' && v'[id] == Closed <==>
                  o.valid && o.dataplane && o.serviceChanged && !(o.mechanism && o.dataplaneConn && o.nse))
  {
  }

  /**
   * When healing keeps a connection: where it sends the request again, exactly when everything that
   * asks for is granted; on the remote side never for a lost destination, and for a lost dataplane as
   * soon as there is one again; never for a lost source.
   */
  lemma RecoversIff(h: HealState, remoteSource: bool, hasRequest: bool, waited: bool, o: Outcome)
    ensures var granted :=
              && o.valid && o.dataplane && o.mechanism && o.dataplaneConn && (o.serviceChanged || o.needNse ==> o.nse)
              && (o.programmed || o.programmedOnRetry);
            && (h == SrcDown || (h == DstDown && remoteSource) ==> !Recovers(h, remoteSource, hasRequest, waited, o))
            && (h == DstDown && !remoteSource ==> (Recovers(h, remoteSource, hasRequest, waited, o) <==> granted))
            && (h == DataplaneDown ==>
                  (Recovers(h, remoteSource, hasRequest, waited, o) <==> waited && (remoteSource || granted)))
            && (h == DstUpdate ==> (Recovers(h, remoteSource, hasRequest, waited, o) <==> hasRequest && granted))
  {
  }

  function NextId(last: nat): string {
    Hex((last + 1) % WORD)
  }

  // ---- the objects ----

  class ClientConnection {
    const id: string
    const remoteSource: bool
    var state: ConnState
    var hasRequest: bool

    constructor (id: string, remoteSource: bool)
      ensures this.id == id && this.remoteSource == remoteSource && state == Requesting && !hasRequest
    {
      this.id := id;
      this.remoteSource := remoteSource;
      this.state := Requesting;
      this.hasRequest := false;
    }
  }

  type Table = map<string, ClientConnection>

  /** Two tables agree outside one id. */
  ghost predicate OthersSame(a: Table, b: Table, id: string) {
    forall k :: k != id ==> (k in a <==> k in b) && (k in a ==> a[k] == b[k])
  }

  predicate Under(ids: set<string>, last: nat) {
    forall id :: id in ids ==> HexValue(id) <= last
  }

  class Manager {
    var clientConnections: Table
    var lastConnectionId: nat

    /** The table seen as states by id. */
    ghost predicate Shows(v: View)
      reads this, clientConnections.Values
    {
      && (forall id :: id in v <==> id in clientConnections)
      && (forall id :: id in clientConnections ==> clientConnections[id].state == v[id])
    }

    /** Every connection is stored under its own id. */
    ghost predicate Valid()
      reads this, clientConnections.Values
    {
      forall id :: id in clientConnections ==> clientConnections[id].id == id
    }

    /** Every id in the table is one that the counter has passed. */
    ghost predicate Issued()
      reads this
    {
      Under(clientConnections.Keys, lastConnectionId)
    }

    constructor ()
      ensures Valid() && Issued() && clientConnections == map[] && lastConnectionId == 0
    {
      clientConnections := map[];
      lastConnectionId := 0;
    }

    /** `ConnectionId`: a 64-bit counter in hexadecimal. */
    method ConnectionId() returns (id: string)
      modifies this`lastConnectionId
      ensures lastConnectionId == (old(lastConnectionId) + 1) % WORD
      ensures id == Hex(lastConnectionId) && HexValue(id) == lastConnectionId
    {
      lastConnectionId := (lastConnectionId + 1) % WORD;
      HexRoundTrip(lastConnectionId);
      id := Hex(lastConnectionId);
    }

    /** `DeleteClientConnection`. */
    method DeleteClientConnection(id: string)
      modifies this`clientConnections
      ensures clientConnections == old(clientConnections) - {id}
    {
      if id in clientConnections {
        clientConnections := clientConnections - {id};
      }
    }

    /** `close`. */
    method CloseConnection(cc: ClientConnection, closeDataplane: bool)
      modifies this`clientConnections, cc`state
      ensures cc.state == CloseState(old(cc.state))
      ensures cc.state == if old(cc.state) == Closing then Closing else Closed
      ensures clientConnections ==
              if old(cc.state) != Closing && closeDataplane then old(clientConnections) - {cc.id}
              else old(clientConnections)
    {
      if cc.state == Closing {
        return;
      }
      cc.state := Closing;
      if closeDataplane {
        DeleteClientConnection(cc.id);
      }
      cc.state := Closed;
    }

    /** `request` with an existing connection, in the table or detached from it. */
    method UpdateRequest(existing: ClientConnection, o: Outcome) returns (ok: bool)
      modifies this, existing
      ensures ok <==> Reaches(o) && Programs(o)
      ensures ok <==>
              && o.valid && o.dataplane && o.mechanism && o.dataplaneConn && (o.serviceChanged || o.needNse ==> o.nse)
              && (o.programmed || o.programmedOnRetry)
      ensures lastConnectionId ==
              if o.valid && o.dataplane && o.mechanism && o.dataplaneConn && (o.serviceChanged || o.needNse) then
                (old(lastConnectionId) + o.localRequests) % WORD
              else old(lastConnectionId)
      ensures ok ==>
                && existing.id in clientConnections
                && OthersSame(clientConnections, old(clientConnections), existing.id)
                && var cc := clientConnections[existing.id];
                   (cc == existing || fresh(cc)) && cc.id == existing.id && cc.state == Ready && cc.hasRequest
      ensures !ok && Reaches(o) ==> clientConnections == old(clientConnections) - {existing.id}
      ensures !Reaches(o) ==> clientConnections == old(clientConnections)
      ensures old(existing.state) != Closing ==> existing.state != Closing
      ensures !Reaches(o) ==> existing.hasRequest == old(existing.hasRequest)
      ensures !Reaches(o) ==>
                existing.state == if ClosesFirst(o) then CloseState(old(existing.state)) else old(existing.state)
    {
      if !o.valid || !o.dataplane {
        return false;
      }
      var requestNse := o.needNse;
      if o.serviceChanged {
        requestNse := true;
        CloseConnection(existing, false);
      }
      if !o.mechanism || !o.dataplaneConn {
        return false;
      }
      var clientConnection := existing;
      if requestNse {
        lastConnectionId := (lastConnectionId + o.localRequests) % WORD;
        if !o.nse {
          return false;
        }
        clientConnection := new ClientConnection(existing.id, existing.remoteSource);
      }
      clientConnection.hasRequest := true;
      if !o.programmed && !o.programmedOnRetry {
        CloseConnection(clientConnection, true);
        DeleteClientConnection(clientConnection.id);
        return false;
      }
      clientConnection.state := Ready;
      clientConnections := clientConnections[clientConnection.id := clientConnection];
      return true;
    }

    /** `request` for a connection the manager does not know. */
    method NewRequest(remoteSource: bool, o: Outcome, ghost v: View) returns (ok: bool)
      requires Valid() && Shows(v)
      modifies this
      ensures Valid() && ok == (ReachesNew(o) && Programs(o))
      ensures ok <==>
              && o.valid && o.dataplane && o.mechanism && o.dataplaneConn && o.nse
              && (o.programmed || o.programmedOnRetry)
      ensures Shows(AfterNew(v, NextId(old(lastConnectionId)), o))
      ensures OthersSame(clientConnections, old(clientConnections), NextId(old(lastConnectionId)))
      ensures old(Issued()) && old(lastConnectionId) + 1 + o.localRequests < WORD ==>
                Issued() && NextId(old(lastConnectionId)) !in old(clientConnections)
    {
      hide Hex, HexValue;
      ghost var id, before, last := NextId(lastConnectionId), clientConnections, lastConnectionId;
      assert Kept(before, id, v);
      FreshId(before.Keys, last);
      ok := NewRequestBody(remoteSource, o);
      Settled(this, before, id, v);
      NoWrap(last, o.localRequests);
      assert clientConnections.Keys <= before.Keys + {id};
    }

    method NewRequestBody(remoteSource: bool, o: Outcome) returns (ok: bool)
      modifies this
      ensures ok == (ReachesNew(o) && Programs(o))
      ensures lastConnectionId ==
              if !o.valid then old(lastConnectionId)
              else if !o.dataplane || !o.mechanism || !o.dataplaneConn then (old(lastConnectionId) + 1) % WORD
              else ((old(lastConnectionId) + 1) % WORD + o.localRequests) % WORD
      ensures var id := NextId(old(lastConnectionId));
              && OthersSame(clientConnections, old(clientConnections), id)
              && (!ReachesNew(o) ==> clientConnections == old(clientConnections))
              && (ReachesNew(o) ==> (id in clientConnections <==> ok))
              && (ok ==> var c := clientConnections[id]; fresh(c) && c.id == id && c.state == Ready && c.hasRequest)
    {
      hide Hex, HexValue;
      if !o.valid {
        return false;
      }
      var id := ConnectionId();
      if !o.dataplane || !o.mechanism || !o.dataplaneConn {
        return false;
      }
      lastConnectionId := (lastConnectionId + o.localRequests) % WORD;
      if !o.nse {
        return false;
      }
      var clientConnection := new ClientConnection(id, remoteSource);
      clientConnection.hasRequest := true;
      clientConnections := clientConnections[id := clientConnection];
      if !o.programmed && !o.programmedOnRetry {
        CloseConnection(clientConnection, true);
        DeleteClientConnection(id);
        return false;
      }
      clientConnection.state := Ready;
      return true;
    }

    /** `Request`: an update if the table knows the id, else a new connection. */
    method Request(id: string, remoteSource: bool, o: Outcome, ghost v: View) returns (ok: bool)
      requires Valid() && Shows(v)
      modifies this, if id in clientConnections then {clientConnections[id]} else {}
      ensures Valid()
      ensures ok == (Programs(o) && if id in v then Reaches(o) else ReachesNew(o))
      ensures Shows(if id in v then AfterUpdate(v, id, o) else AfterNew(v, NextId(old(lastConnectionId)), o))
      ensures old(Issued()) && old(lastConnectionId) + 1 + o.localRequests < WORD ==> Issued()
    {
      hide Hex, HexValue;
      if id in clientConnections {
        ok := UpdateRequest(clientConnections[id], o);
        assert clientConnections.Keys <= old(clientConnections).Keys;
      } else {
        ok := NewRequest(remoteSource, o, v);
      }
    }

    /** `Close`, for any connection object, in the table or not. */
    method Close(cc: ClientConnection, ghost v: View)
      requires Valid() && Shows(v)
      modifies this`clientConnections, cc`state
      ensures Valid() && Shows(AfterClose(v, cc.id, old(cc.state)))
      ensures cc.state == CloseState(old(cc.state))
      ensures OthersSame(clientConnections, old(clientConnections), cc.id)
    {
      CloseConnection(cc, true);
    }

    /**
     * `Heal`, for any connection object, in the table or not; one that has no request cannot be sent
     * again. Whatever the outside answers, the id of a Ready connection ends up absent or Ready, and
     * no other entry is touched.
     */
    method Heal(cc: ClientConnection, h: HealState, waited: bool, o: Outcome, ghost v: View)
      requires Valid() && Shows(v)
      requires Resends(h, cc.remoteSource, waited) ==> cc.hasRequest
      modifies this, cc
      ensures Valid()
      ensures Shows(AfterHeal(v, cc.id, old(cc.state), h, cc.remoteSource, old(cc.hasRequest), waited, o))
      ensures old(cc.state) != Ready ==> clientConnections == old(clientConnections)
      ensures old(cc.state) == Ready ==>
                var granted :=
                  && o.valid && o.dataplane && o.mechanism && o.dataplaneConn
                  && (o.serviceChanged || o.needNse ==> o.nse)
                  && (o.programmed || o.programmedOnRetry);
                && (h == SrcDown || (h == DstDown && cc.remoteSource) ==> cc.id !in clientConnections)
                && (h == DstDown && !cc.remoteSource ==> (cc.id in clientConnections <==> granted))
                && (h == DataplaneDown ==> (cc.id in clientConnections <==> waited && (cc.remoteSource || granted)))
                && (h == DstUpdate ==> (cc.id in clientConnections <==> old(cc.hasRequest) && granted))
      ensures OthersSame(clientConnections, old(clientConnections), cc.id)
      ensures old(Issued()) && HexValue(cc.id) <= old(lastConnectionId) ==>
                old(lastConnectionId) + o.localRequests < WORD ==> Issued()
    {
      hide Recovers, Resends, HexValue;
      if cc.state != Ready {
        return;
      }
      ghost var before := clientConnections;
      assert Kept(before, cc.id, v);
      cc.state := Healing;
      HealBody(cc, h, waited, o);
      cc.state := Ready;  // the deferred function
      Settled(this, before, cc.id, v);
      RecoversIff(h, cc.remoteSource, old(cc.hasRequest), waited, o);
      assert clientConnections.Keys <= before.Keys + {cc.id};
    }

    /** The switch of `Heal`, between the first state change and the deferred last one. */
    method HealBody(cc: ClientConnection, h: HealState, waited: bool, o: Outcome)
      requires cc.state == Healing && (Resends(h, cc.remoteSource, waited) ==> cc.hasRequest)
      modifies this, cc
      ensures old(lastConnectionId) + o.localRequests < WORD ==> lastConnectionId >= old(lastConnectionId)
      ensures cc.id in clientConnections <==> Recovers(h, cc.remoteSource, old(cc.hasRequest), waited, o)
      ensures cc.id in clientConnections ==>
                var now := clientConnections[cc.id];
                (now == cc || (fresh(now) && now.state == Ready)) && now.id == cc.id
      ensures OthersSame(clientConnections, old(clientConnections), cc.id)
    {
      if h == DstDown && !cc.remoteSource {
        CloseConnection(cc, true);
        var ok := UpdateRequest(cc, o);
        if !ok {
          DeleteClientConnection(cc.id);
          cc.state := Closed;
        }
        return;
      }
      if h == DataplaneDown && waited {
        clientConnections := clientConnections[cc.id := cc];
        if cc.remoteSource {
          return;
        }
        RequestOrClose(cc, o);
        return;
      }
      if h == DstUpdate && cc.hasRequest {
        RequestOrClose(cc, o);
        return;
      }
      CloseConnection(cc, true);
    }

    /** `requestOrClose`. */
    method RequestOrClose(cc: ClientConnection, o: Outcome)
      requires cc.state == Healing && cc.hasRequest
      modifies this, cc
      ensures old(lastConnectionId) + o.localRequests < WORD ==> lastConnectionId >= old(lastConnectionId)
      ensures cc.id in clientConnections <==> Reaches(o) && Programs(o)
      ensures cc.id in clientConnections ==>
                var now := clientConnections[cc.id];
                (now == cc || fresh(now)) && now.state == Ready && now.id == cc.id
      ensures OthersSame(clientConnections, old(clientConnections), cc.id)
    {
      var ok := UpdateRequest(cc, o);
      if !ok {
        CloseConnection(cc, true);
      }
    }
  }

  lemma NoWrap(last: nat, spent: nat)
    ensures last + 1 + spent < WORD ==>
              (last + 1) % WORD == last + 1 && ((last + 1) % WORD + spent) % WORD == last + 1 + spent
  {
  }

  /** Until the counter wraps, the next id has not been handed out and is not in the table. */
  lemma FreshId(ids: set<string>, last: nat)
    ensures Under(ids, last) && last + 1 < WORD ==> NextId(last) !in ids
    ensures HexValue(NextId(last)) == (last + 1) % WORD
  {
    HexRoundTrip((last + 1) % WORD);
  }

  /** The entries of `t` other than `id` are as `v` has them. */
  ghost predicate Kept(t: Table, id: string, v: View)
    reads t.Values
  {
    && (forall k :: k in v <==> k in t)
    && forall k :: k in t && k != id ==> t[k].id == k && t[k].state == v[k]
  }

  /** Only the entry `id` changed: the table still is valid, and shows `v` with that entry changed. */
  lemma Settled(m: Manager, before: Table, id: string, v: View)
    requires OthersSame(m.clientConnections, before, id) && Kept(before, id, v)
    requires id in m.clientConnections ==> m.clientConnections[id].id == id
    ensures m.Valid()
    ensures id in m.clientConnections ==> m.Shows(v[id := m.clientConnections[id].state])
    ensures id !in m.clientConnections ==> m.Shows(v - {id})
  {
  }

  // ---- runs ----

  datatype Op =
    | New(id: string, o: Outcome)
    | Update(id: string, o: Outcome)
    | Close(id: string)
    | CloseDetached(id: string, s: ConnState)
    | Heal(id: string, h: HealState, remoteSource: bool, hasRequest: bool, waited: bool, o: Outcome)
    | HealDetached(id: string, h: HealState, remoteSource: bool, hasRequest: bool, waited: bool, o: Outcome)

  /** One operation: on a connection that the table knows, a new one, or one out of the table. */
  function Apply(v: View, op: Op): View {
    match op
    case New(id, o) => AfterNew(v, id, o)
    case Update(id, o) => if id in v then AfterUpdate(v, id, o) else v
    case Close(id) => if id in v then AfterClose(v, id, v[id]) else v
    case CloseDetached(id, s) => AfterClose(v, id, s)
    case Heal(id, h, r, q, w, o) => if id in v then AfterHeal(v, id, v[id], h, r, q, w, o) else v
    case HealDetached(id, h, r, q, w, o) => AfterHeal(v, id, Ready, h, r, q, w, o)
  }

  function Run(v: View, ops: seq<Op>): View
    decreases |ops|
  {
    if ops == [] then v else Apply(Run(v, ops[..|ops| - 1]), ops[|ops| - 1])
  }

  predicate AllReady(v: View) {
    forall id :: id in v ==> v[id] == Ready
  }

  /** The service was changed, the old connection closed for it, and the new one not reached. */
  predicate FailedUpgrade(v: View, op: Op) {
    op.Update? && op.id in v && ClosesFirst(op.o) && !Reaches(op.o)
  }

  /** No operation leaves anything but Ready connections behind, except a failed upgrade. */
  lemma ReadyUnlessUpgradeFails(v: View, op: Op)
    requires AllReady(v)
    ensures AllReady(Apply(v, op)) <==> !FailedUpgrade(v, op)
  {
    if FailedUpgrade(v, op) {
      assert Apply(v, op)[op.id] == Closed;
    }
  }

  /** Every entry is Ready before, between and after the operations. */
  ghost predicate StaysReady(v: View, ops: seq<Op>) {
    forall i :: 0 <= i <= |ops| ==> AllReady(Run(v, ops[..i]))
  }

  predicate NoFailedUpgrade(v: View, ops: seq<Op>) {
    forall i :: 0 <= i < |ops| ==> !FailedUpgrade(Run(v, ops[..i]), ops[i])
  }

  /** All entries are Ready between the operations of a run if and only if no upgrade fails in it. */
  lemma RunReadyIff(v: View, ops: seq<Op>)
    requires AllReady(v)
    ensures StaysReady(v, ops) <==> NoFailedUpgrade(v, ops)
  {
    hide AllReady, FailedUpgrade, Run;
    if NoFailedUpgrade(v, ops) {
      forall i | 0 <= i <= |ops| ensures AllReady(Run(v, ops[..i])) {
        PrefixStaysReady(v, ops, i);
      }
    }
    if StaysReady(v, ops) {
      forall i | 0 <= i < |ops| ensures !FailedUpgrade(Run(v, ops[..i]), ops[i]) {
        assert AllReady(Run(v, ops[..i])) && AllReady(Run(v, ops[..i + 1]));
        RunOneMore(v, ops, i);
        ReadyUnlessUpgradeFails(Run(v, ops[..i]), ops[i]);
      }
    }
  }

  lemma RunOneMore(v: View, ops: seq<Op>, i: nat)
    requires i < |ops|
    ensures Run(v, ops[..i + 1]) == Apply(Run(v, ops[..i]), ops[i])
  {
    assert ops[..i + 1][..i] == ops[..i];
  }

  lemma PrefixStaysReady(v: View, ops: seq<Op>, n: nat)
    requires AllReady(v) && NoFailedUpgrade(v, ops) && n <= |ops|
    ensures AllReady(Run(v, ops[..n]))
  {
    hide AllReady, FailedUpgrade, Run;
    assert forall i :: 0 <= i < n ==> ops[..n][..i] == ops[..i];
    RunStaysReady(v, ops[..n]);
  }

  lemma {:induction false} RunStaysReady(v: View, ops: seq<Op>)
    requires AllReady(v) && NoFailedUpgrade(v, ops)
    ensures AllReady(Run(v, ops))
    decreases |ops|
  {
    if ops != [] {
      var n := |ops| - 1;
      var init := ops[..n];
      forall i | 0 <= i < n ensures !FailedUpgrade(Run(v, init[..i]), init[i]) {
        assert init[..i] == ops[..i];
      }
      RunStaysReady(v, init);
      ReadyUnlessUpgradeFails(Run(v, init), ops[n]);
    }
  }

  /** If all goes well, healing keeps a connection unless its source is down, or its destination on the remote side. */
  lemma HealKeepsIff(v: View, id: string, h: HealState, remoteSource: bool)
    requires id in v && v[id] == Ready
    ensures id in Apply(v, Heal(id, h, remoteSource, true, true, AllWell(false))) <==>
            h != SrcDown && !(h == DstDown && remoteSource)
    ensures Apply(v, HealDetached(id, h, remoteSource, true, true, AllWell(false))) ==
            if h != SrcDown && !(h == DstDown && remoteSource) then v else v - {id}
  {
    assert v[id := Ready] == v;
  }

  // ---- what a caller can tell beforehand ----

  /** Whatever the outside answers, an update leaves Ready entries if and only if it keeps the service. */
  lemma UpdateSafeIff(v: View, id: string, changed: bool)
    requires AllReady(v) && id in v
    ensures (forall o: Outcome :: o.serviceChanged == changed ==> AllReady(Apply(v, Update(id, o)))) <==> !changed
  {
    if changed {
      var o := NoEndpoint(true);
      assert o.serviceChanged == changed && Apply(v, Update(id, o))[id] == Closed;
    }
  }

  /** An operation without the answers of the outside. */
  datatype Ask =
    | AskNew(id: string)
    | AskUpdate(id: string, changed: bool)
    | AskClose(id: string)
    | AskCloseDetached(id: string, s: ConnState)
    | AskHeal(id: string, h: HealState, remoteSource: bool, hasRequest: bool)
    | AskHealDetached(id: string, h: HealState, remoteSource: bool, hasRequest: bool)

  function AskOf(op: Op): Ask {
    match op
    case New(id, _) => AskNew(id)
    case Update(id, o) => AskUpdate(id, o.serviceChanged)
    case Close(id) => AskClose(id)
    case CloseDetached(id, s) => AskCloseDetached(id, s)
    case Heal(id, h, r, q, _, _) => AskHeal(id, h, r, q)
    case HealDetached(id, h, r, q, _, _) => AskHealDetached(id, h, r, q)
  }

  /** `ops` is the plan with some answers of the outside. */
  ghost predicate Answers(ops: seq<Op>, plan: seq<Ask>) {
    |ops| == |plan| && forall i :: 0 <= i < |plan| ==> AskOf(ops[i]) == plan[i]
  }

  /** Everything works. */
  function AllWell(changed: bool): Outcome {
    Outcome(true, true, changed, false, true, true, true, 0, true, true)
  }

  /** No endpoint accepts. */
  function NoEndpoint(changed: bool): Outcome {
    Outcome(true, true, changed, true, true, true, false, 0, true, true)
  }

  /** Some answers let the healing succeed. */
  predicate CanRecover(h: HealState, remoteSource: bool, hasRequest: bool) {
    Recovers(h, remoteSource, hasRequest, true, AllWell(false))
  }

  /** The ids that the table may hold after one more operation. */
  function MayHold(ids: set<string>, ask: Ask): set<string> {
    match ask
    case AskNew(id) => ids + {id}
    case AskUpdate(_, _) => ids
    case AskClose(id) => ids - {id}
    case AskCloseDetached(id, s) => if s == Closing then ids else ids - {id}
    case AskHeal(id, h, r, q) => if CanRecover(h, r, q) then ids else ids - {id}
    case AskHealDetached(id, h, r, q) => if CanRecover(h, r, q) then ids + {id} else ids - {id}
  }

  function MayHoldAfter(ids: set<string>, plan: seq<Ask>): set<string> {
    if plan == [] then ids else MayHold(MayHoldAfter(ids, plan[..|plan| - 1]), plan[|plan| - 1])
  }

  /** An update in the plan names another service for a connection that the table may then hold. */
  predicate ChangesService(ids: set<string>, plan: seq<Ask>) {
    exists i :: 0 <= i < |plan| && plan[i].AskUpdate? && plan[i].changed && plan[i].id in MayHoldAfter(ids, plan[..i])
  }

  /**
   * A plan of operations leaves every entry Ready all along, whatever the outside answers, if and
   * only if no update in it names another service for a connection that the table may then hold.
   */
  lemma PlanSafeIff(v: View, plan: seq<Ask>)
    requires AllReady(v)
    ensures (forall ops :: Answers(ops, plan) ==> StaysReady(v, ops)) <==> !ChangesService(v.Keys, plan)
  {
    hide AllReady, StaysReady;
    if ChangesService(v.Keys, plan) {
      var ops := UnluckyRun(v, plan);
      assert Answers(ops, plan) && !StaysReady(v, ops);
    } else {
      forall ops | Answers(ops, plan) ensures StaysReady(v, ops) {
        KeptServiceStaysReady(v, ops, plan);
      }
    }
  }

  lemma MayHoldStep(v: View, ids: set<string>, op: Op)
    requires AllReady(v) && v.Keys <= ids
    ensures Apply(v, op).Keys <= MayHold(ids, AskOf(op))
  {
  }

  /** The table holds no other ids than the plan allows, as long as all entries are Ready. */
  lemma {:induction false} HoldsNoMore(v: View, ops: seq<Op>, plan: seq<Ask>, n: nat)
    requires AllReady(v) && Answers(ops, plan) && n <= |ops| && !ChangesService(v.Keys, plan)
    ensures AllReady(Run(v, ops[..n])) && Run(v, ops[..n]).Keys <= MayHoldAfter(v.Keys, plan[..n])
  {
    hide AllReady, MayHold, Apply;
    if n == 0 {
      assert ops[..0] == [] && plan[..0] == [];
    } else {
      var k := n - 1;
      HoldsNoMore(v, ops, plan, k);
      RunOneMore(v, ops, k);
      assert plan[..n][..k] == plan[..k];
      var before := Run(v, ops[..k]);
      MayHoldStep(before, MayHoldAfter(v.Keys, plan[..k]), ops[k]);
      assert AskOf(ops[k]) == plan[k];
      ReadyUnlessUpgradeFails(before, ops[k]);
    }
  }

  lemma KeptServiceStaysReady(v: View, ops: seq<Op>, plan: seq<Ask>)
    requires AllReady(v) && Answers(ops, plan) && !ChangesService(v.Keys, plan)
    ensures StaysReady(v, ops)
  {
    hide AllReady, Answers, ChangesService, Run;
    forall i | 0 <= i <= |ops| ensures AllReady(Run(v, ops[..i])) {
      HoldsNoMore(v, ops, plan, i);
    }
  }

  /** The answers that leave the most in the table. */
  function Lucky(ask: Ask): Op {
    match ask
    case AskNew(id) => New(id, AllWell(false))
    case AskUpdate(id, changed) => Update(id, AllWell(changed))
    case AskClose(id) => Close(id)
    case AskCloseDetached(id, s) => CloseDetached(id, s)
    case AskHeal(id, h, r, q) => Heal(id, h, r, q, true, AllWell(false))
    case AskHealDetached(id, h, r, q) => HealDetached(id, h, r, q, true, AllWell(false))
  }

  function LuckyRun(plan: seq<Ask>): (ops: seq<Op>)
    ensures |ops| == |plan| && forall i :: 0 <= i < |plan| ==> ops[i] == Lucky(plan[i])
  {
    seq(|plan|, i requires 0 <= i < |plan| => Lucky(plan[i]))
  }

  lemma LuckyStep(v: View, ask: Ask)
    requires AllReady(v)
    ensures AskOf(Lucky(ask)) == ask
    ensures AllReady(Apply(v, Lucky(ask))) && Apply(v, Lucky(ask)).Keys == MayHold(v.Keys, ask)
  {
  }

  lemma {:induction false} LuckyHoldsAll(v: View, plan: seq<Ask>)
    requires AllReady(v)
    ensures Answers(LuckyRun(plan), plan)
    ensures AllReady(Run(v, LuckyRun(plan))) && Run(v, LuckyRun(plan)).Keys == MayHoldAfter(v.Keys, plan)
    decreases |plan|
  {
    hide AllReady, MayHold, Apply, Lucky, AskOf;
    forall i | 0 <= i < |plan| ensures AskOf(LuckyRun(plan)[i]) == plan[i] {
      LuckyStep(v, plan[i]);
    }
    if plan != [] {
      var n := |plan| - 1;
      LuckyHoldsAll(v, plan[..n]);
      assert LuckyRun(plan)[..n] == LuckyRun(plan[..n]);
      LuckyStep(Run(v, LuckyRun(plan[..n])), plan[n]);
    }
  }

  /** Lucky answers up to a change of service, for which then no endpoint accepts. */
  lemma UnluckyRun(v: View, plan: seq<Ask>) returns (ops: seq<Op>)
    requires AllReady(v) && ChangesService(v.Keys, plan)
    ensures Answers(ops, plan) && !StaysReady(v, ops)
  {
    var i :| 0 <= i < |plan| && plan[i].AskUpdate? && plan[i].changed && plan[i].id in MayHoldAfter(v.Keys, plan[..i]);
    hide AllReady, MayHold, Apply, Lucky, AskOf, Run, MayHoldAfter;
    LuckyHoldsAll(v, plan);
    LuckyHoldsAll(v, plan[..i]);
    ops := LuckyRun(plan)[i := Update(plan[i].id, NoEndpoint(true))];
    AskOfUnlucky(plan[i].id);
    assert ops[..i] == LuckyRun(plan[..i]);
    var before := Run(v, ops[..i]);
    RunOneMore(v, ops, i);
    assert FailedUpgrade(before, ops[i]);
    ReadyUnlessUpgradeFails(before, ops[i]);
    assert !AllReady(Run(v, ops[..i + 1]));
  }

  lemma AskOfUnlucky(id: string)
    ensures AskOf(Update(id, NoEndpoint(true))) == AskUpdate(id, true)
  {
  }

  /** Every run leaves entries Ready or Closed, never half way. */
  lemma {:induction false} NeverHalfWay(v: View, ops: seq<Op>, id: string)
    requires AllReady(v) && id in Run(v, ops)
    ensures Run(v, ops)[id] == Ready || Run(v, ops)[id] == Closed
    decreases |ops|
  {
    if ops != [] {
      var n := |ops| - 1;
      forall k | k in Run(v, ops[..n])
        ensures Run(v, ops[..n])[k] == Ready || Run(v, ops[..n])[k] == Closed
      {
        NeverHalfWay(v, ops[..n], k);
      }
    }
  }

  /** The operation is for another connection, or heals the one in the table. */
  predicate Spares(op: Op, id: string) {
    op.id != id || op.Heal?
  }

  /**
   * What a failed upgrade leaves stays: no run of healings, and of anything for other connections,
   * brings the entry back or removes it. Closing it then does remove it.
   */
  lemma {:induction false} ClosedStays(v: View, ops: seq<Op>, id: string)
    requires id in v && v[id] == Closed && forall i :: 0 <= i < |ops| ==> Spares(ops[i], id)
    ensures id in Run(v, ops) && Run(v, ops)[id] == Closed
    ensures id !in Apply(Run(v, ops), Op.Close(id))
    decreases |ops|
  {
    if ops != [] {
      ClosedStays(v, ops[..|ops| - 1], id);
    }
  }

  /** A failed upgrade exists: a changed service and no endpoint that accepts. */
  lemma UpgradeCanFail()
    ensures var o := Outcome(true, true, true, false, true, true, false, 0, true, true);
            Apply(map["1" := Ready], Update("1", o)) == map["1" := Closed]
  {
  }
}
