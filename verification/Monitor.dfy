/**
 * The monitor server and the copies its recipients keep.
 *
 * A recipient gets the whole state when it joins and every change after that. Each iteration of the
 * server's loop is one method.
 */
module Monitor {
  import opened Options

  datatype Entity = Entity(id: string, value: string)

  type Entities = map<string, Entity>

  datatype Event = InitialStateTransfer(entities: Entities) | Update(entities: Entities) | Delete(entities: Entities)

  type Recipient = nat

  /** Entities are stored under their own ids. */
  predicate Keyed(es: Entities) {
    forall id :: id in es ==> es[id].id == id
  }

  /** What an event makes of a copy of the entities. */
  function Applied(view: Entities, e: Event): Entities {
    match e
    case InitialStateTransfer(es) => es
    case Update(es) => view + es
    case Delete(es) => view - es.Keys
  }

  function Replayed(view: Entities, events: seq<Event>): Entities {
    if events == [] then view
    else Applied(Replayed(view, events[..|events| - 1]), events[|events| - 1])
  }

  // ---- the recipient's side ----

  /** `MonitorNetNsInodeServer`: a recipient that keeps a copy of the cross connects. */
  class Replica {
    var crossConnects: Entities

    /** `handleEvent`: the map is walked in any order. */
    method HandleEvent(event: Event)
      requires Keyed(event.entities)
      modifies this
      ensures crossConnects == Applied(old(crossConnects), event)
      ensures event.Delete? ==>
                forall k :: k in crossConnects <==> k in old(crossConnects) && k !in event.entities
      ensures event.Update? ==>
                forall k :: k in crossConnects <==> k in old(crossConnects) || k in event.entities
      ensures !event.Delete? ==>
                forall k :: k in event.entities ==> k in crossConnects && crossConnects[k] == event.entities[k]
      ensures event.InitialStateTransfer? ==> crossConnects.Keys == event.entities.Keys
    {
      if event.InitialStateTransfer? {
        crossConnects := map[];
      }
      ghost var start := crossConnects;
      var pending := event.entities.Keys;
      while pending != {}
        invariant pending <= event.entities.Keys
        invariant !event.Delete? ==>
                    forall k :: k in crossConnects <==> k in start || (k in event.entities && k !in pending)
        invariant !event.Delete? ==> forall k :: k in crossConnects ==>
                    crossConnects[k] == if k in event.entities && k !in pending then event.entities[k] else start[k]
        invariant event.Delete? ==> crossConnects == start - (event.entities.Keys - pending)
        decreases pending
      {
        var k :| k in pending;
        var xcon := event.entities[k];
        if event.Delete? {
          crossConnects := crossConnects - {xcon.id};
        } else {
          crossConnects := crossConnects[xcon.id := xcon];
        }
        pending := pending - {k};
      }
    }
  }

  datatype Kind = Initial | Updated | Deleted

  /** An event as it comes in, with cross connects that may be nil. */
  datatype Wire = Wire(kind: Kind, crossConnects: map<string, Option<Entity>>)

  function EventOf(kind: Kind, es: Entities): Event {
    match kind
    case Initial => InitialStateTransfer(es)
    case Updated => Update(es)
    case Deleted => Delete(es)
  }

  function OnWire(e: Event): Wire {
    var kind := match e case InitialStateTransfer(_) => Initial case Update(_) => Updated case Delete(_) => Deleted;
    Wire(kind, map k | k in e.entities :: Some(e.entities[k]))
  }

  /** `copyEvent`: the copy holds the cross connects that are not nil. */
  method CopyEvent(event: Wire) returns (r: Event)
    ensures r == EventOf(event.kind, r.entities)
    ensures forall k :: k in r.entities <==> k in event.crossConnects && event.crossConnects[k].Some?
    ensures forall k :: k in r.entities ==> event.crossConnects[k] == Some(r.entities[k])
    ensures forall e :: event == OnWire(e) ==> r == e
  {
    var copy: Entities := map[];
    var pending := event.crossConnects.Keys;
    while pending != {}
      invariant pending <= event.crossConnects.Keys
      invariant forall k :: k in copy <==> k in event.crossConnects && k !in pending && event.crossConnects[k].Some?
      invariant forall k :: k in copy ==> event.crossConnects[k] == Some(copy[k])
      decreases pending
    {
      var k :| k in pending;
      var v := event.crossConnects[k];
      if v.Some? {
        copy := copy[k := v.value];
      }
      pending := pending - {k};
    }
    r := EventOf(event.kind, copy);
    forall e | event == OnWire(e) ensures r == e {
      assert copy == e.entities;
    }
  }

  // ---- the server's side ----

  type Sent = map<Recipient, seq<Event>>

  function SentTo(sent: Sent, r: Recipient): seq<Event> {
    if r in sent then sent[r] else []
  }

  /** `send`: one event to each recipient of the list in turn. */
  function SendAll(sent: Sent, e: Event, to: seq<Recipient>): Sent {
    if to == [] then sent
    else
      var r, m := to[|to| - 1], SendAll(sent, e, to[..|to| - 1]);
      m[r := SentTo(m, r) + [e]]
  }

  function Copies(e: Event, n: nat): seq<Event> {
    if n == 0 then [] else Copies(e, n - 1) + [e]
  }

  /** Each recipient gets the event as often as it is on the list, after what it was sent before. */
  lemma {:induction false} SentOnceEach(sent: Sent, e: Event, to: seq<Recipient>, r: Recipient)
    ensures SentTo(SendAll(sent, e, to), r) == SentTo(sent, r) + Copies(e, multiset(to)[r])
    decreases |to|
  {
    if to == [] {
      assert SentTo(sent, r) + [] == SentTo(sent, r);
    } else {
      hide SendAll, SentTo;
      var n := |to| - 1;
      SentOnceEach(sent, e, to[..n], r);
      SendStep(sent, e, to, r);
      CountStep(to, r);
      var k := multiset(to[..n])[r];
      if to[n] == r {
        assert SentTo(sent, r) + Copies(e, k) + [e] == SentTo(sent, r) + (Copies(e, k) + [e]);
        assert Copies(e, k + 1) == Copies(e, k) + [e];
      }
    }
  }

  lemma SendStep(sent: Sent, e: Event, to: seq<Recipient>, r: Recipient)
    requires to != []
    ensures var n := |to| - 1;
            SentTo(SendAll(sent, e, to), r) == SentTo(SendAll(sent, e, to[..n]), r) + if to[n] == r then [e] else []
  {
  }

  lemma CountStep(to: seq<Recipient>, r: Recipient)
    requires to != []
    ensures var n := |to| - 1;
            multiset(to)[r] == multiset(to[..n])[r] + if to[n] == r then 1 else 0
  {
    assert to == to[..|to| - 1] + [to[|to| - 1]];
  }

  /** `sent` is what each recipient has been sent so far, oldest first. */
  datatype Server = Server(entities: Entities, recipients: seq<Recipient>, sent: Sent)

  /** Every current recipient that has worked through its events has exactly the server's map. */
  ghost predicate Agrees(s: Server) {
    && Keyed(s.entities)
    && forall r, view: Entities :: r in s.recipients ==> Replayed(view, SentTo(s.sent, r)) == s.entities
  }

  function RemoveFirst(rs: seq<Recipient>, r: Recipient): (out: seq<Recipient>)
    ensures forall x :: x in out ==> x in rs
  {
    if rs == [] then [] else if rs[0] == r then rs[1..] else [rs[0]] + RemoveFirst(rs[1..], r)
  }

  lemma {:induction false} FirstRemoved(rs: seq<Recipient>, j: nat)
    requires j < |rs| && rs[j] !in rs[..j]
    ensures RemoveFirst(rs, rs[j]) == rs[..j] + rs[j + 1..]
    decreases j
  {
    if j > 0 {
      FirstRemoved(rs[1..], j - 1);
      assert rs[..j] == [rs[0]] + rs[1..][..j - 1];
      assert rs[1..][j..] == rs[j + 1..];
    }
  }

  lemma {:induction false} NoneRemoved(rs: seq<Recipient>, r: Recipient)
    requires r !in rs
    ensures RemoveFirst(rs, r) == rs
  {
    if rs != [] {
      NoneRemoved(rs[1..], r);
    }
  }

  datatype Action = Join(r: Recipient) | Leave(r: Recipient) | Change(e: Event)

  /** Events reach the server through `Update` and `Delete` only. */
  predicate Allowed(a: Action) {
    a.Change? ==> !a.e.InitialStateTransfer? && Keyed(a.e.entities)
  }

  /** One iteration of the loop of `Serve`. */
  function Serve(s: Server, a: Action): Server {
    match a
    case Join(r) => Server(s.entities, s.recipients + [r], SendAll(s.sent, InitialStateTransfer(s.entities), [r]))
    case Leave(r) => s.(recipients := RemoveFirst(s.recipients, r))
    case Change(e) => Server(Applied(s.entities, e), s.recipients, SendAll(s.sent, e, s.recipients))
  }

  /** A recipient on the list gets the event, once or more often; applying it again changes nothing. */
  lemma {:induction false} SendReaches(sent: Sent, e: Event, to: seq<Recipient>, r: Recipient, view: Entities)
    ensures Replayed(view, SentTo(SendAll(sent, e, to), r)) ==
            if r in to then Applied(Replayed(view, SentTo(sent, r)), e) else Replayed(view, SentTo(sent, r))
    decreases |to|
  {
    if to != [] {
      var n := |to| - 1;
      SendReaches(sent, e, to[..n], r, view);
      assert to == to[..n] + [to[n]];
      if r == to[n] {
        ReplayedSnoc(view, SentTo(SendAll(sent, e, to[..n]), r), e);
        AppliedTwice(Replayed(view, SentTo(sent, r)), e);
      }
    }
  }

  lemma ReplayedSnoc(view: Entities, events: seq<Event>, e: Event)
    ensures Replayed(view, events + [e]) == Applied(Replayed(view, events), e)
  {
    assert (events + [e])[..|events|] == events;
  }

  lemma AppliedTwice(view: Entities, e: Event)
    ensures Applied(Applied(view, e), e) == Applied(view, e)
  {
  }

  /** Each iteration keeps the agreement, whenever and however often recipients join and leave. */
  lemma ServeKeepsAgreement(s: Server, a: Action)
    requires Agrees(s) && Allowed(a)
    ensures Agrees(Serve(s, a))
  {
    var s' := Serve(s, a);
    forall r, view: Entities | r in s'.recipients ensures Replayed(view, SentTo(s'.sent, r)) == s'.entities {
      match a
      case Join(x) => SendReaches(s.sent, InitialStateTransfer(s.entities), [x], r, view);
      case Leave(x) =>
      case Change(e) => SendReaches(s.sent, e, s.recipients, r, view);
    }
  }

  function Run(actions: seq<Action>): Server {
    if actions == [] then Server(map[], [], map[])
    else Serve(Run(actions[..|actions| - 1]), actions[|actions| - 1])
  }

  /** Replica agreement in every run of the server's loop. */
  lemma {:induction false} ReplicasAgree(actions: seq<Action>)
    requires forall i :: 0 <= i < |actions| ==> Allowed(actions[i])
    ensures Agrees(Run(actions))
    decreases |actions|
  {
    if actions != [] {
      ReplicasAgree(actions[..|actions| - 1]);
      ServeKeepsAgreement(Run(actions[..|actions| - 1]), actions[|actions| - 1]);
    }
  }

  /** Who is on the list: one more after joining, one less after leaving, the same after a change. */
  lemma ListChanges(s: Server, a: Action)
    ensures multiset(Serve(s, a).recipients) ==
            match a
            case Join(r) => multiset(s.recipients) + multiset{r}
            case Leave(r) => multiset(s.recipients) - multiset{r}
            case Change(_) => multiset(s.recipients)
  {
    if a.Leave? {
      RemovedOne(s.recipients, a.r);
    }
  }

  lemma {:induction false} RemovedOne(rs: seq<Recipient>, r: Recipient)
    ensures multiset(RemoveFirst(rs, r)) == multiset(rs) - multiset{r}
  {
    if rs != [] {
      assert rs == [rs[0]] + rs[1..];
      if rs[0] != r {
        RemovedOne(rs[1..], r);
        HeadStays(multiset(rs[1..]), rs[0], r);
      }
    }
  }

  lemma HeadStays(m: multiset<Recipient>, head: Recipient, r: Recipient)
    requires head != r
    ensures multiset{head} + (m - multiset{r}) == multiset{head} + m - multiset{r}
  {
  }

  /** The last change whose event mentions the entity, before position `n`. */
  function LastChange(actions: seq<Action>, k: string, n: nat): (last: Option<Event>)
    requires n <= |actions|
    ensures last.Some? ==> k in last.value.entities
  {
    if n == 0 then None
    else if actions[n - 1].Change? && k in actions[n - 1].e.entities then Some(actions[n - 1].e)
    else LastChange(actions, k, n - 1)
  }

  /** The server's map, told from the history: an entity is there if the last change to it was an update. */
  lemma {:induction false} MapFromHistory(actions: seq<Action>, k: string, n: nat)
    requires n <= |actions| && forall i :: 0 <= i < |actions| ==> Allowed(actions[i])
    ensures var last, es := LastChange(actions, k, n), Run(actions[..n]).entities;
            && (k in es <==> last.Some? && last.value.Update?)
            && (k in es ==> es[k] == last.value.entities[k])
  {
    if n == 0 {
      assert actions[..0] == [];
    } else {
      MapFromHistory(actions, k, n - 1);
      assert actions[..n][..n - 1] == actions[..n - 1];
      assert Allowed(actions[n - 1]);
    }
  }

  /** And so is every copy: a current recipient holds exactly the entities last updated, with those values. */
  lemma ReplicaFromHistory(actions: seq<Action>, r: Recipient, view: Entities, k: string)
    requires forall i :: 0 <= i < |actions| ==> Allowed(actions[i])
    requires r in Run(actions).recipients
    ensures var last, copy := LastChange(actions, k, |actions|), Replayed(view, SentTo(Run(actions).sent, r));
            && (k in copy <==> last.Some? && last.value.Update?)
            && (k in copy ==> copy[k] == last.value.entities[k])
  {
    hide Run, Replayed, LastChange;
    ReplicasAgree(actions);
    MapFromHistory(actions, k, |actions|);
    assert actions[..|actions|] == actions;
  }

  /** `monitorServerImpl`; each method is one case of the loop's select statement. */
  class MonitorServer {
    var entities: Entities
    var recipients: seq<Recipient>
    var sent: Sent

    ghost function View(): Server
      reads this
    {
      Server(entities, recipients, sent)
    }

    constructor ()
      ensures View() == Run([])
    {
      entities, recipients, sent := map[], [], map[];
    }

    method Send(e: Event, to: seq<Recipient>)
      modifies this`sent
      ensures sent == SendAll(old(sent), e, to)
    {
      for i := 0 to |to|
        invariant sent == SendAll(old(sent), e, to[..i])
      {
        assert to[..i + 1][..i] == to[..i];
        var queue := if to[i] in sent then sent[to[i]] else [];
        sent := sent[to[i] := queue + [e]];
      }
      assert to[..|to|] == to;
    }

    method NewRecipient(r: Recipient)
      modifies this
      ensures View() == Serve(old(View()), Join(r))
    {
      Send(InitialStateTransfer(entities), [r]);
      recipients := recipients + [r];
    }

    method ClosedRecipient(r: Recipient)
      modifies this
      ensures View() == Serve(old(View()), Leave(r))
    {
      hide RemoveFirst;
      for j := 0 to |recipients|
        invariant View() == old(View())
        invariant r !in recipients[..j]
      {
        if recipients[j] == r {
          FirstRemoved(recipients, j);
          recipients := recipients[..j] + recipients[j + 1..];
          return;
        }
      }
      NoneRemoved(recipients, r);
    }

    method NewEvent(e: Event)
      requires Keyed(entities) && Allowed(Change(e))
      modifies this
      ensures View() == Serve(old(View()), Change(e))
      ensures e.Update? ==> entities == old(entities) + e.entities
      ensures e.Delete? ==> entities == old(entities) - e.entities.Keys
    {
      ChangeEntities(e);
      Send(e, recipients);
    }

    /** The map part of `NewEvent`; the event's entities come in any order. */
    method ChangeEntities(e: Event)
      requires Keyed(entities) && Allowed(Change(e))
      modifies this`entities
      ensures entities == Applied(old(entities), e)
    {
      ghost var start := entities;
      var pending := e.entities.Keys;
      while pending != {}
        invariant pending <= e.entities.Keys
        invariant e.Update? ==> forall k :: k in entities <==> k in start || (k in e.entities && k !in pending)
        invariant e.Update? ==> forall k :: k in entities ==>
                    entities[k] == if k in e.entities && k !in pending then e.entities[k] else start[k]
        invariant e.Delete? ==> entities == start - (e.entities.Keys - pending)
        decreases pending
      {
        var k :| k in pending;
        var entity := e.entities[k];
        if e.Update? {
          entities := entities[entity.id := entity];
        }
        if e.Delete? {
          entities := entities - {entity.id};
        }
        pending := pending - {k};
      }
    }
  }
}
