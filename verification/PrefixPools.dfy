/**
 * The prefix pool: free prefixes, and a record of what each connection holds.
 *
 * `lost` is the one thing the pool does not know: the addresses of records that were overwritten
 * because a connection id was used again while it was live.
 */
module PrefixPools {
  import opened Options
  import opened Powers
  import opened IPNets
  import opened Spaces
  import opened Extraction
  import opened BestFit
  import opened Coalescing
  import opened IPBytes

  datatype Record = Record(ipNet: IPNet, prefixes: seq<IPNet>)

  datatype State = State(base: seq<IPNet>, free: seq<IPNet>, conns: map<string, Record>)

  /** Everything a connection holds. */
  function Blocks(r: Record): seq<IPNet> {
    [r.ipNet] + r.prefixes
  }

  function Held(r: Record): set<int> {
    AddrsOf(Blocks(r))
  }

  function LiveAddrs(conns: map<string, Record>): set<int> {
    set id, a | id in conns && a in Held(conns[id]) :: a
  }

  /** No two connections share an address. */
  ghost predicate Separate(conns: map<string, Record>) {
    forall a, b :: a in conns && b in conns && a != b ==> Held(conns[a]) !! Held(conns[b])
  }

  ghost predicate GoodRecord(r: Record, w: nat) {
    ListPool(Blocks(r), w) && r.ipNet.host >= 2
  }

  /**
   * Conservation: the free prefixes and the blocks of every live connection are pairwise disjoint,
   * and with the lost addresses they make up exactly the base address space.
   */
  ghost predicate Conserved(s: State, lost: set<int>, w: nat) {
    && ListPool(s.base, w)
    && ListPool(s.free, w)
    && (forall id :: id in s.conns ==> GoodRecord(s.conns[id], w))
    && Separate(s.conns)
    && AddrsOf(s.free) !! LiveAddrs(s.conns)
    && lost !! AddrsOf(s.free) && lost !! LiveAddrs(s.conns)
    && AddrsOf(s.base) == AddrsOf(s.free) + LiveAddrs(s.conns) + lost
  }

  // ---- what Extract hands out ----

  datatype Grant = Granted(free: seq<IPNet>, record: Record) | Refused

  function ConnectionLen(family: Family): nat {
    if family == IPv6 then 126 else 30
  }

  function ConnectionRequest(family: Family): Request {
    Request(AddrFamily(family), ConnectionLen(family), 1, 1)
  }

  function GrantFor(free: seq<IPNet>, family: Family, requests: seq<Request>): Grant {
    match ExtractMany(free, [ConnectionRequest(family)])
    case Short => Refused
    case Taken(nets, rem) =>
      if nets == [] then Refused
      else if requests == [] then Granted(rem, Record(nets[0], []))
      else
        match ExtractMany(rem, requests)
        case Short => Refused
        case Taken(extra, rem') => Granted(rem', Record(nets[0], extra))
  }

  /** The first extraction of `Extract` is a plain `ExtractPrefix`. */
  lemma FirstExtraction(free: seq<IPNet>, family: Family)
    ensures ExtractMany(free, [ConnectionRequest(family)]) ==
            match ExtractOne(free, ConnectionLen(family))
            case NoRoom => Short
            case Extracted(net, rem) => Taken([net], rem)
  {
    hide ExtractOne;
    var r, len := ConnectionRequest(family), ConnectionLen(family);
    assert Repeat(len, 1) == [len] && [r][1..] == [];
    assert RequiredLens([r]) == [len];
    UnfoldRepeat(free, len, 1, []);
    assert Repeat(len, 1) + [] == [len];
    var e := ExtractOne(free, len);
    if e.Extracted? {
      assert ExtractAll(e.remaining, []) == Taken([], e.remaining);
      assert UpTo(e.remaining, len, 0) == Taken([], e.remaining);
      assert TopUp(e.remaining, [r]) == Taken([], e.remaining);
      assert [e.net] + [] == [e.net];
    }
  }

  lemma FirstNet(free: seq<IPNet>, family: Family, w: nat)
    requires ListPool(free, w) && IPWidth(w)
    ensures var t := ExtractMany(free, [ConnectionRequest(family)]);
            t.Taken? ==>
              && |t.nets| == 1 && t.nets == [t.nets[0]] && t.nets[0].len == ConnectionLen(family)
              && OfWidth(t.nets[0], w) && t.nets[0].host >= 2
              && Carved(free, [t.nets[0]], t.remaining, w)
  {
    hide ExtractMany, ExtractOne, Carved, Canonical, ListPool, AddrsOf;
    FirstExtraction(free, family);
    ExtractOneCarves(free, ConnectionLen(family), w);
    var e := ExtractOne(free, ConnectionLen(family));
    if e.Extracted? {
      CarvedRest(free, [e.net], e.remaining, w);
      SinglePool(e.net, w);
    }
  }

  /** A grant is cut exactly from the free prefixes. */
  lemma GrantCarves(free: seq<IPNet>, family: Family, requests: seq<Request>, w: nat)
    requires ListPool(free, w) && IPWidth(w)
    ensures var g := GrantFor(free, family, requests);
            g.Granted? ==>
              && Carved(free, Blocks(g.record), g.free, w)
              && GoodRecord(g.record, w)
              && g.record.ipNet.len == ConnectionLen(family)
  {
    hide ExtractMany, Carved, Canonical, ListPool, FairExtra, RequiredLens, ExtraLens, AddrsOf;
    var t := ExtractMany(free, [ConnectionRequest(family)]);
    FirstNet(free, family, w);
    if t.Taken? {
      var net := t.nets[0];
      CarvedRest(free, [net], t.remaining, w);
      SinglePool(net, w);
      assert [net] + [] == [net];
      if requests != [] {
        var u := ExtractMany(t.remaining, requests);
        var extra := ExtractManyGrants(t.remaining, requests, w);
        if u.Taken? {
          CarvedThen(free, [net], t.remaining, u.nets, u.remaining, w);
          CarvedRest(free, [net] + u.nets, u.remaining, w);
        }
      }
    }
  }

  /**
   * The block of a connection has four addresses, where the family asked for is that of the pool; an
   * IPv4 pool has no block for an IPv6 connection.
   */
  lemma BlockOfFour(free: seq<IPNet>, family: Family, requests: seq<Request>, w: nat)
    requires ListPool(free, w) && IPWidth(w)
    ensures var g := GrantFor(free, family, requests);
            g.Granted? ==>
              && (w == 32 ==> family != IPv6)
              && (family == IPv6 || w == 32 ==> |Block(g.record.ipNet)| == 4)
              && (family != IPv6 && w == 128 ==> |Block(g.record.ipNet)| == Pow2(98))
  {
    hide GrantFor, ListPool, Carved, AddrsOf;
    var g := GrantFor(free, family, requests);
    GrantCarves(free, family, requests, w);
    if g.Granted? {
      var net := g.record.ipNet;
      ListPoolConcat([net], g.record.prefixes, w);
      SinglePool(net, w);
      BlockSize(net);
      assert Pow2(2) == 4;
    }
  }

  /** On a reduced pool a connection without extra prefixes is refused only if no four addresses in a block are free. */
  lemma FourFreeSuffice(free: seq<IPNet>, family: Family, w: nat)
    requires ListPool(free, w) && Reduced(Elems(free))
    requires (family == IPv6 && w == 128) || (family != IPv6 && w == 32)
    ensures GrantFor(free, family, []).Granted? <==>
            exists q :: OfWidth(q, w) && |Block(q)| == 4 && Block(q) <= AddrsOf(free)
  {
    hide ListPool, Reduced, AddrsOf, ExtractOne, ExtractMany, Canonical, Block;
    FirstExtraction(free, family);
    NoFalseRefusal(free, ConnectionLen(family), w);
    forall q | OfWidth(q, w) ensures |Block(q)| == 4 <==> q.len == ConnectionLen(family) {
      FourIsTwoBits(q);
    }
  }

  lemma FourIsTwoBits(q: IPNet)
    ensures |Block(q)| == 4 <==> q.host == 2
  {
    BlockSize(q);
    assert Pow2(2) == 4 && Pow2(1) == 2 && Pow2(3) == 8;
    if q.host < 2 {
      Pow2Monotone(q.host, 1);
    } else if q.host > 2 {
      Pow2Monotone(3, q.host);
    }
  }

  /**
   * The extra prefixes of a connection: of every length as many as its requests require and at most as
   * many as they ask for, fewer only if no room is left; none without requests.
   */
  lemma ExtrasGranted(free: seq<IPNet>, family: Family, requests: seq<Request>, len: nat, w: nat)
    requires ListPool(free, w) && IPWidth(w) && GrantFor(free, family, requests).Granted?
    ensures var g := GrantFor(free, family, requests);
            && AllValid(requests)
            && var n := multiset(Lens(g.record.prefixes))[len];
               && RequiredOf(requests, len) <= n <= RequestedOf(requests, len)
               && (n < RequestedOf(requests, len) ==> NoRoomFor(g.free, len, w))
    ensures requests == [] ==> GrantFor(free, family, requests).record.prefixes == []
  {
    hide ExtractMany, Carved, ListPool, AddrsOf, NoRoomFor;
    FirstNet(free, family, w);
    var t := ExtractMany(free, [ConnectionRequest(family)]);
    CarvedRest(free, [t.nets[0]], t.remaining, w);
    if requests != [] {
      GrantedCounts(t.remaining, requests, len, w);
    }
  }

  /** `Extract` succeeds exactly when its block and then all the required prefixes can be taken. */
  lemma GrantIsGreedy(free: seq<IPNet>, family: Family, requests: seq<Request>, w: nat)
    requires ListPool(free, w) && IPWidth(w)
    ensures GrantFor(free, family, requests).Granted? <==>
            AllValid(requests) && ExtractAll(free, [ConnectionLen(family)] + RequiredLens(requests)).Taken?
  {
    hide ExtractMany, ExtractOne, Carved, ListPool, AddrsOf, RequiredLens, FairExtra;
    var len := ConnectionLen(family);
    var e := ExtractOne(free, len);
    FirstExtraction(free, family);
    if AllValid(requests) {
      var lens := [len] + RequiredLens(requests);
      assert lens[0] == len && lens[1..] == RequiredLens(requests);
      RequiredLensNonempty(requests);
    }
    if e.Extracted? {
      ExtractOneCarves(free, len, w);
      CarvedRest(free, [e.net], e.remaining, w);
      var extra := ExtractManyGrants(e.remaining, requests, w);
    }
  }

  /**
   * `Extract` refuses a reduced pool exactly when a request is invalid or when its block and all the
   * required extra prefixes have no placement in the free addresses, in any arrangement.
   */
  lemma RefusedOnlyIfImpossible(free: seq<IPNet>, family: Family, requests: seq<Request>, w: nat)
    requires ListPool(free, w) && IPWidth(w) && Reduced(Elems(free))
    ensures GrantFor(free, family, requests).Granted? <==>
            && AllValid(requests)
            && exists qs :: Placement(qs, [ConnectionLen(family)] + RequiredLens(requests), free, w)
  {
    hide GrantFor, ExtractAll, Placement, ListPool, Reduced, RequiredLens;
    GrantIsGreedy(free, family, requests, w);
    if AllValid(requests) {
      BestFitIsOptimal(free, [ConnectionLen(family)] + RequiredLens(requests), w);
    }
  }

  // ---- runs ----

  datatype Op = Extract(id: string, family: Family, requests: seq<Request>) | Release(id: string)

  function AfterExtract(s: State, id: string, family: Family, requests: seq<Request>): State {
    match GrantFor(s.free, family, requests)
    case Refused => s
    case Granted(free, record) => s.(free := free, conns := s.conns[id := record])
  }

  /** The free prefixes after `blocks` came back: the reduced form of both address spaces together. */
  ghost predicate Returned(free: seq<IPNet>, blocks: seq<IPNet>, free': seq<IPNet>, w: nat) {
    ListPool(free', w) && Reduced(Elems(free')) && AddrsOf(free') == AddrsOf(free) + AddrsOf(blocks)
  }

  ghost predicate Step(s: State, op: Op, s': State, w: nat) {
    match op
    case Extract(id, family, requests) => s' == AfterExtract(s, id, family, requests)
    case Release(id) =>
      if id !in s.conns then s' == s
      else
        && s'.base == s.base
        && s'.conns == s.conns - {id}
        && Returned(s.free, Blocks(s.conns[id]), s'.free, w)
  }

  /** A successful `Extract` for a connection that is still live. */
  predicate Reuses(s: State, op: Op) {
    op.Extract? && op.id in s.conns && GrantFor(s.free, op.family, op.requests).Granted?
  }

  /** Said of what goes in: the requests are valid and the counting condition holds. */
  lemma ReusesIff(s: State, op: Op, w: nat)
    requires ListPool(s.free, w) && IPWidth(w)
    ensures Reuses(s, op) <==>
            && op.Extract? && op.id in s.conns && AllValid(op.requests)
            && Fits([ConnectionLen(op.family)] + RequiredLens(op.requests), s.free, w)
  {
    hide GrantFor, ExtractAll, Fits, ListPool, RequiredLens;
    if op.Extract? {
      GrantIsGreedy(s.free, op.family, op.requests, w);
      if AllValid(op.requests) {
        GreedyIffFits(s.free, [ConnectionLen(op.family)] + RequiredLens(op.requests), w);
      }
    }
  }

  function LostBy(s: State, op: Op): set<int> {
    if Reuses(s, op) then Held(s.conns[op.id]) else {}
  }

  lemma LiveHolds(conns: map<string, Record>, id: string)
    requires id in conns
    ensures Held(conns[id]) <= LiveAddrs(conns)
  {
    hide Held;
    forall a | a in Held(conns[id]) ensures a in LiveAddrs(conns) {
    }
  }

  lemma LiveSplit(conns: map<string, Record>, id: string)
    requires Separate(conns)
    ensures Separate(conns - {id})
    ensures id in conns ==> LiveAddrs(conns) == LiveAddrs(conns - {id}) + Held(conns[id])
    ensures id in conns ==> LiveAddrs(conns - {id}) !! Held(conns[id])
    ensures id !in conns ==> conns - {id} == conns
  {
    hide Held;
    var rest := conns - {id};
    if id in conns {
      forall a | a in LiveAddrs(conns) ensures a in LiveAddrs(rest) + Held(conns[id]) {
        var k :| k in conns && a in Held(conns[k]);
        if k != id {
          LiveHolds(rest, k);
        }
      }
      forall a | a in LiveAddrs(rest) ensures a in LiveAddrs(conns) && a !in Held(conns[id]) {
        var k :| k in rest && a in Held(rest[k]);
        LiveHolds(conns, k);
      }
      LiveHolds(conns, id);
      UnionFromParts(LiveAddrs(rest), Held(conns[id]), LiveAddrs(conns));
    }
  }

  lemma LiveUpdate(conns: map<string, Record>, id: string, r: Record)
    requires Separate(conns - {id}) && LiveAddrs(conns - {id}) !! Held(r)
    ensures Separate(conns[id := r])
    ensures LiveAddrs(conns[id := r]) == LiveAddrs(conns - {id}) + Held(r)
  {
    hide Held;
    var rest, new' := conns - {id}, conns[id := r];
    assert forall k :: k in rest ==> k in new' && new'[k] == rest[k];
    assert forall k :: k in new' ==> k == id || (k in rest && new'[k] == rest[k]);
    forall a, b | a in new' && b in new' && a != b ensures Held(new'[a]) !! Held(new'[b]) {
      if a == id {
        LiveHolds(rest, b);
      } else if b == id {
        LiveHolds(rest, a);
      }
    }
    forall a | a in LiveAddrs(new') ensures a in LiveAddrs(rest) + Held(r) {
      var k :| k in new' && a in Held(new'[k]);
      if k != id {
        LiveHolds(rest, k);
      }
    }
    forall a | a in LiveAddrs(rest) ensures a in LiveAddrs(new') {
      var k :| k in rest && a in Held(rest[k]);
      LiveHolds(new', k);
    }
    LiveHolds(new', id);
    UnionFromParts(LiveAddrs(rest), Held(r), LiveAddrs(new'));
  }

  /** Each operation conserves the address space; only the reuse of a live id loses addresses. */
  lemma StepConserves(s: State, op: Op, s': State, lost: set<int>, w: nat)
    requires Conserved(s, lost, w) && Step(s, op, s', w) && IPWidth(w)
    ensures Conserved(s', lost + LostBy(s, op), w)
    ensures s'.base == s.base
  {
    match op
    case Extract(id, family, requests) =>
      ExtractConserves(s, op, lost, w);
    case Release(id) =>
      if id in s.conns {
        ReleaseConserves(s, id, s', lost, w);
      }
      assert lost + {} == lost;
  }

  lemma ExtractConserves(s: State, op: Op, lost: set<int>, w: nat)
    requires op.Extract? && Conserved(s, lost, w) && IPWidth(w)
    ensures Conserved(AfterExtract(s, op.id, op.family, op.requests), lost + LostBy(s, op), w)
  {
    hide ListPool, AddrsOf, LiveAddrs, Held, Separate, Carved, GrantFor;
    var g := GrantFor(s.free, op.family, op.requests);
    LiveSplit(s.conns, op.id);
    if g.Granted? {
      GrantCarves(s.free, op.family, op.requests, w);
      CarvedRest(s.free, Blocks(g.record), g.free, w);
      HeldIsBlocks(g.record);
      LiveUpdate(s.conns, op.id, g.record);
    } else {
      assert lost + {} == lost;
    }
  }

  lemma HeldIsBlocks(r: Record)
    ensures Held(r) == AddrsOf(Blocks(r))
  {
  }

  lemma ReleaseConserves(s: State, id: string, s': State, lost: set<int>, w: nat)
    requires Conserved(s, lost, w) && id in s.conns && Step(s, Release(id), s', w)
    ensures Conserved(s', lost, w)
  {
    hide ListPool, AddrsOf, LiveAddrs, Held, Separate, Reduced;
    LiveSplit(s.conns, id);
    HeldIsBlocks(s.conns[id]);
  }

  ghost predicate Initial(s: State, w: nat) {
    ListPool(s.base, w) && s.free == s.base && s.conns == map[] && IPWidth(w)
  }

  ghost predicate IsRun(states: seq<State>, ops: seq<Op>, w: nat) {
    && |states| == |ops| + 1
    && Initial(states[0], w)
    && forall i :: 0 <= i < |ops| ==> Step(states[i], ops[i], states[i + 1], w)
  }

  predicate NoReuse(states: seq<State>, ops: seq<Op>)
    requires |states| == |ops| + 1
  {
    forall i :: 0 <= i < |ops| ==> !Reuses(states[i], ops[i])
  }

  function LostIn(states: seq<State>, ops: seq<Op>): set<int>
    requires |states| == |ops| + 1
  {
    if ops == [] then {}
    else var n := |ops| - 1; LostIn(states[..n + 1], ops[..n]) + LostBy(states[n], ops[n])
  }

  lemma {:induction false} LostIffReuse(states: seq<State>, ops: seq<Op>)
    requires |states| == |ops| + 1
    ensures LostIn(states, ops) == {} <==> NoReuse(states, ops)
    decreases |ops|
  {
    hide Reuses, Held;
    if ops != [] {
      var n := |ops| - 1;
      LostIffReuse(states[..n + 1], ops[..n]);
      assert NoReuse(states, ops) <==> NoReuse(states[..n + 1], ops[..n]) && !Reuses(states[n], ops[n]);
      LosesIffReuses(states[n], ops[n]);
    }
  }

  lemma LosesIffReuses(s: State, op: Op)
    ensures LostBy(s, op) == {} <==> !Reuses(s, op)
  {
    hide Held;
    if Reuses(s, op) {
      HeldNonempty(s.conns[op.id]);
    }
  }

  lemma HeldNonempty(r: Record)
    ensures r.ipNet.base in Held(r)
  {
    AddrsOfConcat([r.ipNet], r.prefixes);
    SinglePool(r.ipNet, 0);
  }

  /** Conservation in every reachable state. */
  lemma {:induction false} RunConserves(states: seq<State>, ops: seq<Op>, w: nat)
    requires IsRun(states, ops, w)
    ensures Conserved(states[|ops|], LostIn(states, ops), w)
    ensures states[|ops|].base == states[0].base
    decreases |ops|
  {
    if ops == [] {
      assert LiveAddrs(map[]) == {};
    } else {
      hide Step, Conserved, LostBy, ListPool;
      var n := |ops| - 1;
      RunConserves(states[..n + 1], ops[..n], w);
      StepConserves(states[n], ops[n], states[n + 1], LostIn(states[..n + 1], ops[..n]), w);
    }
  }

  /** Free and live addresses make up the base space exactly when no live id was used again. */
  lemma ConservedIffNoReuse(states: seq<State>, ops: seq<Op>, w: nat)
    requires IsRun(states, ops, w)
    ensures var s := states[|ops|];
            AddrsOf(s.base) == AddrsOf(s.free) + LiveAddrs(s.conns) <==> NoReuse(states, ops)
  {
    hide AddrsOf, LiveAddrs, ListPool, Separate;
    RunConserves(states, ops, w);
    LostIffReuse(states, ops);
  }

  const SMALL := IPNet(0, 29, 3)

  /** Eight free addresses, and `Extract` twice for one connection: the first four are lost. */
  lemma ReuseLosesAddresses()
    ensures var ops := [Extract("a", IPv4, []), Extract("a", IPv4, [])];
            var s0 := State([SMALL], [SMALL], map[]);
            var s1 := State([SMALL], [IPNet(4, 30, 2)], map["a" := Record(IPNet(0, 30, 2), [])]);
            var s2 := State([SMALL], [], map["a" := Record(IPNet(4, 30, 2), [])]);
            && IsRun([s0, s1, s2], ops, 32)
            && AddrsOf(s2.base) != AddrsOf(s2.free) + LiveAddrs(s2.conns)
            && LostIn([s0, s1, s2], ops) == Block(IPNet(0, 30, 2))
  {
    hide LiveAddrs, AddrsOf, ListPool, ExtractMany;
    var op := Extract("a", IPv4, []);
    var s0 := State([SMALL], [SMALL], map[]);
    var s1 := State([SMALL], [IPNet(4, 30, 2)], map["a" := Record(IPNet(0, 30, 2), [])]);
    var s2 := State([SMALL], [], map["a" := Record(IPNet(4, 30, 2), [])]);
    var states, ops := [s0, s1, s2], [op, op];
    SmallCuts();
    FirstExtraction([SMALL], IPv4);
    FirstExtraction([IPNet(4, 30, 2)], IPv4);
    assert s1 == AfterExtract(s0, "a", IPv4, []);
    assert map["a" := Record(IPNet(0, 30, 2), [])]["a" := Record(IPNet(4, 30, 2), [])] == s2.conns;
    assert s2 == AfterExtract(s1, "a", IPv4, []);
    assert IsRun(states, ops, 32);
    assert Reuses(states[1], ops[1]);
    ConservedIffNoReuse(states, ops, 32);
    assert states[..2] == [s0, s1] && ops[..1] == [op] && [s0, s1][..1] == [s0] && [op][..0] == [];
    assert LostIn([s0, s1], [op]) == LostIn([s0], []) + LostBy(s0, op) == {};
    SinglePool(IPNet(0, 30, 2), 32);
    assert [IPNet(0, 30, 2)] + [] == [IPNet(0, 30, 2)];
    assert LostBy(s1, op) == Block(IPNet(0, 30, 2));
  }

  lemma SmallCuts()
    ensures ListPool([SMALL], 32)
    ensures ExtractOne([SMALL], 30) == Extracted(IPNet(0, 30, 2), [IPNet(4, 30, 2)])
    ensures ExtractOne([IPNet(4, 30, 2)], 30) == Extracted(IPNet(4, 30, 2), [])
  {
    Pow2Monotone(3, 32);
    assert Pow2(3) == 8 && Pow2(2) == 4;
    SinglePool(SMALL, 32);
    SubnetIsHalf(SMALL);
    assert Scan([SMALL], 30, 1, 0) == 0 && Scan([SMALL], 30, 0, -1) == 0;
    assert CutAt([SMALL], 0, 30) == Extracted(IPNet(0, 30, 2), [IPNet(4, 30, 2)]);
    ExactCut([IPNet(4, 30, 2)], 0);
  }

  lemma StepReduces(s: State, op: Op, s': State, w: nat)
    requires ListPool(s.free, w) && IPWidth(w) && Step(s, op, s', w)
    requires Reduced(Elems(s.free)) || (op.Release? && op.id in s.conns)
    ensures Reduced(Elems(s'.free))
  {
    hide Reduced, ListPool, GrantFor;
    if op.Extract? {
      GrantCarves(s.free, op.family, op.requests, w);
    }
  }

  /** The free prefixes stay reduced if the base was, and become so with the first release. */
  lemma {:induction false} RunReduced(states: seq<State>, ops: seq<Op>, w: nat)
    requires IsRun(states, ops, w)
    ensures Reduced(Elems(states[0].base)) || Releases(states, ops) ==> Reduced(Elems(states[|ops|].free))
    decreases |ops|
  {
    hide Reduced, ListPool, Step, Conserved;
    if ops != [] {
      var n := |ops| - 1;
      var before := states[..n + 1];
      RunReduced(before, ops[..n], w);
      RunConserves(before, ops[..n], w);
      ConservedPool(states[n], LostIn(before, ops[..n]), w);
      assert Step(states[n], ops[n], states[n + 1], w);
      assert Releases(states, ops) ==>
          Releases(before, ops[..n]) || (ops[n].Release? && ops[n].id in states[n].conns);
      if Reduced(Elems(states[0].base)) || Releases(states, ops) {
        StepReduces(states[n], ops[n], states[n + 1], w);
      }
    }
  }

  predicate Releases(states: seq<State>, ops: seq<Op>)
    requires |states| == |ops| + 1
  {
    exists i :: 0 <= i < |ops| && ops[i].Release? && ops[i].id in states[i].conns
  }

  /** With no live connection, the reduced free prefixes are the base exactly if nothing was lost. */
  lemma FreeIsBaseIff(s: State, lost: set<int>, w: nat)
    requires Conserved(s, lost, w) && s.conns == map[] && Reduced(Elems(s.free))
    ensures Elems(s.free) == Elems(s.base) <==> Reduced(Elems(s.base)) && lost == {}
  {
    hide Separate, Reduced, Pool, Addrs, ListPool;
    assert LiveAddrs(map[]) == {};
    AddrsOfIsAddrs(s.free);
    AddrsOfIsAddrs(s.base);
    ListPoolIsPool(s.free, w);
    ListPoolIsPool(s.base, w);
    assert AddrsOf(s.base) == AddrsOf(s.free) + lost;
    if Reduced(Elems(s.base)) && lost == {} {
      ReducedIsUnique(Elems(s.free), Elems(s.base), w);
    }
  }

  /**
   * No lasting fragmentation: a run that ends with no live connection gives back exactly the base
   * prefixes if and only if it never released anything, or those were reduced and no live id was
   * used again. A run that never released anything gives them back as they were listed.
   */
  lemma NoLastingFragmentation(states: seq<State>, ops: seq<Op>, w: nat)
    requires IsRun(states, ops, w) && states[|ops|].conns == map[]
    ensures Elems(states[|ops|].free) == Elems(states[0].base) <==>
            !Releases(states, ops) || (Reduced(Elems(states[0].base)) && NoReuse(states, ops))
    ensures !Releases(states, ops) ==> states[|ops|].free == states[0].base
  {
    hide LostIn, Conserved, Reduced, NoReuse, Releases, ListPool, Step;
    if !Releases(states, ops) {
      NothingHappened(states, ops, w);
    } else {
      RunConserves(states, ops, w);
      RunReduced(states, ops, w);
      LostIffReuse(states, ops);
      FreeIsBaseIff(states[|ops|], LostIn(states, ops), w);
    }
  }

  /** Without a release connections only come, so with none at the end there never was one. */
  lemma {:induction false} NothingHappened(states: seq<State>, ops: seq<Op>, w: nat)
    requires IsRun(states, ops, w) && states[|ops|].conns == map[] && !Releases(states, ops)
    ensures states[|ops|].free == states[0].base
    decreases |ops|
  {
    if ops != [] {
      hide ListPool, GrantFor;
      var n := |ops| - 1;
      assert Step(states[n], ops[n], states[n + 1], w);
      assert ops[n].Release? ==> ops[n].id !in states[n].conns;
      StepLeavesConn(states[n], ops[n], states[n + 1], w);
      NothingHappened(states[..n + 1], ops[..n], w);
    }
  }

  lemma StepLeavesConn(s: State, op: Op, s': State, w: nat)
    requires Step(s, op, s', w) && (op.Release? ==> op.id !in s.conns)
    ensures s' == s || op.id in s'.conns
  {
    hide GrantFor;
  }

  /**
   * In a run with a reduced base, or after a release, `Extract` refuses exactly when a request is
   * invalid or the block and all the required prefixes have no placement in the free addresses.
   */
  lemma RunRefusesOnlyIfImpossible(states: seq<State>, ops: seq<Op>, family: Family, requests: seq<Request>, w: nat)
    requires IsRun(states, ops, w) && (Reduced(Elems(states[0].base)) || Releases(states, ops))
    ensures GrantFor(states[|ops|].free, family, requests).Granted? <==>
            && AllValid(requests)
            && exists qs :: Placement(qs, [ConnectionLen(family)] + RequiredLens(requests), states[|ops|].free, w)
  {
    hide LostIn, Conserved, Reduced, Releases, ListPool, Step, GrantFor, Placement;
    RunConserves(states, ops, w);
    RunReduced(states, ops, w);
    ConservedPool(states[|ops|], LostIn(states, ops), w);
    RefusedOnlyIfImpossible(states[|ops|].free, family, requests, w);
  }

  /** The two addresses of a connection are its network plus one and plus two, its own alone. */
  lemma EndpointsAreDistinct(s: State, lost: set<int>, a: string, b: string, w: nat)
    requires Conserved(s, lost, w) && a in s.conns && b in s.conns && a != b
    ensures var x, y := s.conns[a].ipNet, s.conns[b].ipNet;
            {x.base + 1, x.base + 2} <= Block(x) && {x.base + 1, x.base + 2} !! {y.base + 1, y.base + 2}
  {
    InBlock(s.conns[a], w);
    InBlock(s.conns[b], w);
  }

  /** So the byte addresses that `Extract` hands out are all different. */
  lemma AddressesAreDistinct(s: State, lost: set<int>, a: string, b: string, w: nat)
    requires Conserved(s, lost, w) && IPWidth(w) && a in s.conns && b in s.conns
    ensures var x, y := s.conns[a].ipNet, s.conns[b].ipNet;
            && Parsed(x.base + 1, w) != Parsed(x.base + 2, w)
            && (a != b ==>
                  {Parsed(x.base + 1, w), Parsed(x.base + 2, w)} !! {Parsed(y.base + 1, w), Parsed(y.base + 2, w)})
  {
    hide Parsed, Conserved, Pow2;
    var x, y := s.conns[a].ipNet, s.conns[b].ipNet;
    AddressesFit(s, lost, a, w);
    AddressesFit(s, lost, b, w);
    if a != b {
      EndpointsAreDistinct(s, lost, a, b, w);
    }
    forall m: nat, n: nat | m < Pow2(w) && n < Pow2(w) && m != n ensures Parsed(m, w) != Parsed(n, w) {
      if Parsed(m, w) == Parsed(n, w) {
        ParsedInjective(m, n, w);
      }
    }
    assert x.base + 1 != x.base + 2;
  }

  lemma AddressesFit(s: State, lost: set<int>, id: string, w: nat)
    requires Conserved(s, lost, w) && id in s.conns
    ensures s.conns[id].ipNet.base + 2 < Pow2(w)
  {
    hide Canonical, Pow2, Block, Separate, ListPool, AddrsOf, LiveAddrs;
    var r := s.conns[id];
    assert GoodRecord(r, w);
    ListPoolConcat([r.ipNet], r.prefixes, w);
    SinglePool(r.ipNet, w);
    NearInBlock(r.ipNet, 2);
  }

  lemma InBlock(r: Record, w: nat)
    requires GoodRecord(r, w)
    ensures {r.ipNet.base + 1, r.ipNet.base + 2} <= Block(r.ipNet) && Block(r.ipNet) <= Held(r)
  {
    Pow2Monotone(2, r.ipNet.host);
    assert Pow2(2) == 4;
    AddrsOfConcat([r.ipNet], r.prefixes);
    SinglePool(r.ipNet, w);
  }

  // ---- the pool object ----

  lemma ConservedPool(s: State, lost: set<int>, w: nat)
    requires Conserved(s, lost, w)
    ensures ListPool(s.free, w)
  {
  }

  /** The block of a record and its extra prefixes, as two stages of giving back. */
  lemma HeldApart(s: State, id: string, lost: set<int>, w: nat)
    requires Conserved(s, lost, w) && id in s.conns
    ensures var r := s.conns[id];
            && ListPool(s.free, w) && ListPool(s.free + r.prefixes, w) && ListPool([r.ipNet], w)
            && AddrsOf([r.ipNet]) !! AddrsOf(s.free) + AddrsOf(r.prefixes)
            && Held(r) == AddrsOf([r.ipNet]) + AddrsOf(r.prefixes)
  {
    hide Separate, ListPool, AddrsOf;
    var r := s.conns[id];
    assert GoodRecord(r, w);
    ListPoolConcat([r.ipNet], r.prefixes, w);
    AddrsOfConcat([r.ipNet], r.prefixes);
    ListPoolConcat(s.free, r.prefixes, w);
    LiveHolds(s.conns, id);
  }

  /** What `ReleasePrefixes` promises, said of lists. */
  lemma Coalesced(prefixes: seq<IPNet>, released: seq<IPNet>, remaining: seq<IPNet>, w: nat)
    requires ListPool(prefixes, w)
    requires released == [] ==> remaining == prefixes
    requires released != [] ==>
               && Distinct(remaining) && Pool(Elems(remaining), w)
               && Addrs(Elems(remaining)) == Addrs(Elems(prefixes + released))
    ensures ListPool(remaining, w)
    ensures AddrsOf(remaining) == AddrsOf(prefixes) + AddrsOf(released)
  {
    hide Pool, Addrs, Distinct, ListPool;
    AddrsOfConcat(prefixes, released);
    if released == [] {
      assert prefixes + released == prefixes;
    } else {
      ListPoolIsPool(remaining, w);
      AddrsOfIsAddrs(remaining);
      AddrsOfIsAddrs(prefixes + released);
    }
  }

  lemma LastByte(b: nat)
    requires b % 4 == 0
    ensures b % 256 != 255 && (b + 1) % 256 != 255
  {
  }

  /** An address with the mask of its network. */
  datatype HostNet = HostNet(ip: seq<byte>, ones: nat, zeros: nat)

  /** The two `IncrementIP` calls of `Extract`, which never leave a block of four addresses. */
  method FirstAddresses(ipNet: IPNet, ghost w: nat) returns (src: seq<byte>, dst: seq<byte>)
    requires OfWidth(ipNet, w) && ipNet.host >= 2 && IPWidth(w)
    ensures src == Parsed(ipNet.base + 1, w) && dst == Parsed(ipNet.base + 2, w)
  {
    hide Canonical, Contains, Inc, Parsed, Pow2, FromIP, Encode, Block, Mapped;
    var ip := Parsed(ipNet.base, ipNet.len + ipNet.host);
    NearInBlock(ipNet, 2);
    LastByte(ipNet.base);
    ParsedNext(ipNet.base, w);
    ParsedNext(ipNet.base + 1, w);
    ContainsNear(ipNet, 1, w);
    ContainsNear(ipNet, 2, w);
    var ok;
    ok, src := IncrementIP(ip, ipNet);
    ok, dst := IncrementIP(src, ipNet);
  }

  /** `prefixPool`; every method is one step of a run. */
  class PrefixPool {
    ghost const w: nat
    var basePrefixes: seq<IPNet>
    var prefixes: seq<IPNet>
    var connections: map<string, Record>
    ghost var lost: set<int>

    ghost function View(): State
      reads this
    {
      State(basePrefixes, prefixes, connections)
    }

    ghost predicate Valid()
      reads this
    {
      IPWidth(w) && Conserved(View(), lost, w)
    }

    constructor (prefixes: seq<IPNet>, ghost w: nat)
      requires ListPool(prefixes, w) && IPWidth(w)
      ensures this.w == w && this.prefixes == prefixes && Initial(View(), w)
      ensures Valid() && lost == {}
    {
      this.w := w;
      this.basePrefixes := prefixes;
      this.prefixes := prefixes;
      this.connections := map[];
      this.lost := {};
      new;
      assert LiveAddrs(map[]) == {};
    }

    method Extract(connectionId: string, family: Family, requests: seq<Request>)
      returns (ok: bool, srcIP: Option<HostNet>, dstIP: Option<HostNet>, requested: seq<IPNet>)
      requires Valid()
      modifies this
      ensures Valid() && lost == old(lost + LostBy(View(), Op.Extract(connectionId, family, requests)))
      ensures Step(old(View()), Op.Extract(connectionId, family, requests), View(), w)
      ensures ok <==> GrantFor(old(prefixes), family, requests).Granted?
      ensures !ok ==> View() == old(View()) && srcIP.None? && dstIP.None? && requested == []
      ensures ok ==>
                && connectionId in connections
                && requested == connections[connectionId].prefixes
                && var net := connections[connectionId].ipNet;
                && net.len == ConnectionLen(family)
                && (family == IPv6 || w == 32 ==> |Block(net)| == 4)
                && srcIP == Some(HostNet(Parsed(net.base + 1, w), net.len, net.host))
                && dstIP == Some(HostNet(Parsed(net.base + 2, w), net.len, net.host))
    {
      hide Conserved, ListPool, Carved, ExtractMany, LostBy, Parsed, Canonical, GoodRecord;
      ghost var op := Op.Extract(connectionId, family, requests);
      ghost var grant := GrantFor(prefixes, family, requests);
      assert ListPool(prefixes, w) by { ConservedPool(View(), lost, w); }
      GrantCarves(prefixes, family, requests, w);
      BlockOfFour(prefixes, family, requests, w);
      ExtractConserves(View(), op, lost, w);
      FirstNet(prefixes, family, w);
      ok, srcIP, dstIP, requested := false, None, None, [];

      var found, result, remaining := ExtractPrefixes(prefixes, [ConnectionRequest(family)]);
      if !found {
        lost := lost + LostBy(View(), op);
        return;
      }
      var ipNet := result[0];
      var src, dst := FirstAddresses(ipNet, w);
      if |requests| > 0 {
        found, requested, remaining := ExtractPrefixes(remaining, requests);
        if !found {
          lost := lost + LostBy(View(), op);
          requested := [];
          return;
        }
      }
      lost := lost + LostBy(View(), op);
      prefixes := remaining;
      connections := connections[connectionId := Record(ipNet, requested)];
      ok := true;
      srcIP, dstIP := Some(HostNet(src, ipNet.len, ipNet.host)), Some(HostNet(dst, ipNet.len, ipNet.host));
    }

    method Release(connectionId: string) returns (ok: bool)
      requires Valid()
      modifies this
      ensures Valid() && lost == old(lost)
      ensures Step(old(View()), Op.Release(connectionId), View(), w)
      ensures ok <==> connectionId in old(connections)
      ensures connections == old(connections) - {connectionId}
      ensures ok ==> forall p :: p in prefixes <==>
                       Maximal(p, old(AddrsOf(prefixes) + Held(connections[connectionId])), w)
    {
      hide Conserved, ListPool, Pool, Addrs, Separate, Maximal, Reduced, AddrsOf, Held;
      if connectionId !in connections {
        return false;
      }
      ghost var before := View();
      var conn := connections[connectionId];
      connections := connections - {connectionId};
      HeldApart(before, connectionId, lost, w);
      ListPoolIsPool(prefixes + conn.prefixes, w);
      var remaining := ReleasePrefixes(prefixes, conn.prefixes, w);
      Coalesced(prefixes, conn.prefixes, remaining, w);
      ListPoolConcat(remaining, [conn.ipNet], w);
      ListPoolIsPool(remaining + [conn.ipNet], w);
      ghost var middle := remaining;
      remaining := ReleasePrefixes(remaining, [conn.ipNet], w);
      Coalesced(middle, [conn.ipNet], remaining, w);
      prefixes := remaining;
      ok := true;
      HeldIsBlocks(conn);
      AddrsOfIsAddrs(middle + [conn.ipNet]);
      AddrsOfConcat(middle, [conn.ipNet]);
      assert AddrsOf(middle + [conn.ipNet]) == AddrsOf(before.free) + Held(conn);
      assert Returned(before.free, Blocks(conn), prefixes, w);
      ReleaseConserves(before, connectionId, View(), lost, w);
    }

    method GetConnectionInformation(connectionId: string) returns (ok: bool, net: IPNet, extra: seq<IPNet>)
      requires Valid()
      ensures ok <==> connectionId in connections
      ensures ok ==> Record(net, extra) == connections[connectionId]
    {
      if connectionId !in connections {
        return false, IPNet(0, 0, 0), [];
      }
      return true, connections[connectionId].ipNet, connections[connectionId].prefixes;
    }
  }
}
