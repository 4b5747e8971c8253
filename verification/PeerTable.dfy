/** The bounded peer table and what feeds it (`PeerDiscovery` in `p2p/src/peer_discovery.cpp`). */
module PeerTable {
  import opened Bytes
  import opened PeerExchange
  import opened Sorting

  /** Peers are compared by ip and port alone. Times are clock ticks. */
  datatype Endpoint = Endpoint(ip: ByteString, port: U16)
  datatype Info = Info(lastSeen: int, services: U32)
  datatype Peer = Peer(endpoint: Endpoint, info: Info)

  type Table = map<Endpoint, Info>

  /** Whether an ip is well-formed and routable, decided by the address library. */
  type IpCheck = ByteString -> bool

  predicate Acceptable(e: Endpoint, ipOk: IpCheck) {
    e.port > 0 && ipOk(e.ip)
  }

  // ----- Adding -----

  predicate Admits(t: Table, max: nat, ipOk: IpCheck, p: Peer) {
    Acceptable(p.endpoint, ipOk) && |t| < max && p.endpoint !in t
  }

  /** `add_peer`: a known endpoint keeps its old entry. */
  function AddPeer(t: Table, max: nat, ipOk: IpCheck, p: Peer): Table {
    if Admits(t, max, ipOk, p) then t[p.endpoint := p.info] else t
  }

  /** A peer with a nonzero port, a good ip and an endpoint not yet known enters while there is room; nothing else changes. */
  lemma AddOutcome(t: Table, max: nat, ipOk: IpCheck, p: Peer)
    ensures var enters := p.endpoint.port != 0 && ipOk(p.endpoint.ip) && |t| < max && p.endpoint !in t;
            && (forall e :: e in AddPeer(t, max, ipOk, p) <==> e in t || (enters && e == p.endpoint))
            && (forall e :: e in t ==> AddPeer(t, max, ipOk, p)[e] == t[e])
            && (enters ==> AddPeer(t, max, ipOk, p)[p.endpoint] == p.info)
  {
  }

  function AddAll(t: Table, max: nat, ipOk: IpCheck, ps: seq<Peer>): Table {
    if ps == [] then t else AddPeer(AddAll(t, max, ipOk, ps[..|ps| - 1]), max, ipOk, ps[|ps| - 1])
  }

  function Endpoints(ps: seq<Peer>): set<Endpoint> {
    if ps == [] then {} else Endpoints(ps[..|ps| - 1]) + {ps[|ps| - 1].endpoint}
  }

  /** The acceptable peers with an endpoint new to the table, each at its first mention. */
  function Newcomers(t: Table, ipOk: IpCheck, ps: seq<Peer>): (r: seq<Peer>)
    ensures forall i :: 0 <= i < |r| ==> r[i] in ps && Acceptable(r[i].endpoint, ipOk) && r[i].endpoint !in t
  {
    if ps == [] then []
    else
      var before, p := Newcomers(t, ipOk, ps[..|ps| - 1]), ps[|ps| - 1];
      if Acceptable(p.endpoint, ipOk) && p.endpoint !in t && p.endpoint !in Endpoints(before) then before + [p] else before
  }

  function Enter(t: Table, ps: seq<Peer>): Table {
    if ps == [] then t else Enter(t, ps[..|ps| - 1])[ps[|ps| - 1].endpoint := ps[|ps| - 1].info]
  }

  function FirstFew(ps: seq<Peer>, n: int): (r: seq<Peer>)
    ensures r <= ps
  {
    if n <= 0 then [] else if n < |ps| then ps[..n] else ps
  }

  predicate FreshDistinct(t: Table, ps: seq<Peer>) {
    && (forall i :: 0 <= i < |ps| ==> ps[i].endpoint !in t)
    && (forall i, j :: 0 <= i < j < |ps| ==> ps[i].endpoint != ps[j].endpoint)
  }

  lemma {:induction false} NewcomersDistinct(t: Table, ipOk: IpCheck, ps: seq<Peer>)
    ensures FreshDistinct(t, Newcomers(t, ipOk, ps))
  {
    if ps != [] {
      var before := Newcomers(t, ipOk, ps[..|ps| - 1]);
      NewcomersDistinct(t, ipOk, ps[..|ps| - 1]);
      forall i | 0 <= i < |before|
        ensures before[i].endpoint in Endpoints(before)
      {
        EndpointsMembers(before, before[i].endpoint);
      }
    }
  }

  lemma {:induction false} EndpointsMembers(ps: seq<Peer>, e: Endpoint)
    ensures e in Endpoints(ps) <==> exists i :: 0 <= i < |ps| && ps[i].endpoint == e
  {
    if ps != [] {
      var init := ps[..|ps| - 1];
      EndpointsMembers(init, e);
      if e in Endpoints(init) {
        var i :| 0 <= i < |init| && init[i].endpoint == e;
        assert ps[i].endpoint == e;
      }
      if i :| 0 <= i < |ps| && ps[i].endpoint == e && i < |init| {
        assert init[i].endpoint == e;
      }
    }
  }

  lemma LastIsNew(t: Table, ps: seq<Peer>)
    requires ps != [] && FreshDistinct(t, ps)
    ensures FreshDistinct(t, ps[..|ps| - 1])
    ensures ps[|ps| - 1].endpoint !in t.Keys + Endpoints(ps[..|ps| - 1])
  {
    EndpointsMembers(ps[..|ps| - 1], ps[|ps| - 1].endpoint);
  }

  lemma OneMoreKey(t: Table, u: Table, added: set<Endpoint>, e: Endpoint, i: Info)
    requires u.Keys == t.Keys + added && e !in t.Keys + added
    ensures u[e := i].Keys == t.Keys + (added + {e}) && |u[e := i]| == |u| + 1
  {
    assert u[e := i].Keys == u.Keys + {e};
  }

  lemma {:induction false} EnterKeys(t: Table, ps: seq<Peer>)
    requires FreshDistinct(t, ps)
    ensures Enter(t, ps).Keys == t.Keys + Endpoints(ps)
    ensures |Enter(t, ps)| == |t| + |ps|
  {
    if ps == [] {
      assert Enter(t, ps) == t && Endpoints(ps) == {};
    } else {
      var init, last := ps[..|ps| - 1], ps[|ps| - 1];
      assert Enter(t, ps) == Enter(t, init)[last.endpoint := last.info];
      assert Endpoints(ps) == Endpoints(init) + {last.endpoint};
      hide Enter, Endpoints, FreshDistinct;
      LastIsNew(t, ps);
      EnterKeys(t, init);
      OneMoreKey(t, Enter(t, init), Endpoints(init), last.endpoint, last.info);
    }
  }

  lemma EnterAppend(t: Table, ps: seq<Peer>, p: Peer)
    ensures Enter(t, ps + [p]) == Enter(t, ps)[p.endpoint := p.info]
  {
    assert (ps + [p])[..|ps|] == ps;
  }

  lemma FirstFewDistinct(t: Table, ps: seq<Peer>, n: int)
    requires FreshDistinct(t, ps)
    ensures FreshDistinct(t, FirstFew(ps, n))
  {
  }

  /**
   Offering a list of peers enters exactly the first newcomers the table has room for, and changes
   no entry that was there: duplicates, unacceptable and known endpoints take up no room.
   */
  lemma {:induction false} AddAllEntersFirstNewcomers(t: Table, max: nat, ipOk: IpCheck, ps: seq<Peer>)
    ensures AddAll(t, max, ipOk, ps) == Enter(t, FirstFew(Newcomers(t, ipOk, ps), max - |t|))
  {
    if ps != [] {
      var init, p := ps[..|ps| - 1], ps[|ps| - 1];
      var before := Newcomers(t, ipOk, init);
      AddAllEntersFirstNewcomers(t, max, ipOk, init);
      NewcomersDistinct(t, ipOk, init);
      var entered := FirstFew(before, max - |t|);
      FirstFewDistinct(t, before, max - |t|);
      EnterKeys(t, entered);
      AddStep(t, max, ipOk, before, p);
    }
  }

  lemma AddStep(t: Table, max: nat, ipOk: IpCheck, before: seq<Peer>, p: Peer)
    requires FreshDistinct(t, before)
    requires var entered := FirstFew(before, max - |t|);
             Enter(t, entered).Keys == t.Keys + Endpoints(entered) && |Enter(t, entered)| == |t| + |entered|
    ensures var isNew := Acceptable(p.endpoint, ipOk) && p.endpoint !in t && p.endpoint !in Endpoints(before);
            AddPeer(Enter(t, FirstFew(before, max - |t|)), max, ipOk, p)
            == Enter(t, FirstFew(if isNew then before + [p] else before, max - |t|))
  {
    hide Enter, Endpoints;
    var room := max - |t|;
    if room > |before| {
      assert FirstFew(before, room) == before;
      EnterAppend(t, before, p);
      assert FirstFew(before + [p], room) == before + [p];
    } else {
      assert FirstFew(before + [p], room) == FirstFew(before, room);
    }
  }

  lemma {:induction false} EnterKeepsOld(t: Table, ps: seq<Peer>, e: Endpoint)
    requires FreshDistinct(t, ps) && e in t
    ensures e in Enter(t, ps) && Enter(t, ps)[e] == t[e]
  {
    if ps != [] {
      EnterKeepsOld(t, ps[..|ps| - 1], e);
    }
  }

  lemma {:induction false} EnteredComesFrom(t: Table, ps: seq<Peer>, e: Endpoint)
    requires e in Enter(t, ps) && e !in t
    ensures Peer(e, Enter(t, ps)[e]) in ps
  {
    if ps != [] && ps[|ps| - 1].endpoint != e {
      EnteredComesFrom(t, ps[..|ps| - 1], e);
    }
  }

  /** Adding keeps every old entry as it was, stays within the maximum and adds only offered, acceptable peers. */
  lemma AddAllIsSafe(t: Table, max: nat, ipOk: IpCheck, ps: seq<Peer>, e: Endpoint)
    ensures e in t ==> e in AddAll(t, max, ipOk, ps) && AddAll(t, max, ipOk, ps)[e] == t[e]
    ensures e in AddAll(t, max, ipOk, ps) && e !in t ==>
            Acceptable(e, ipOk) && Peer(e, AddAll(t, max, ipOk, ps)[e]) in ps
    ensures |t| <= max ==> |AddAll(t, max, ipOk, ps)| <= max
  {
    var all := Newcomers(t, ipOk, ps);
    var entered := FirstFew(all, max - |t|);
    AddAllEntersFirstNewcomers(t, max, ipOk, ps);
    NewcomersDistinct(t, ipOk, ps);
    FirstFewDistinct(t, all, max - |t|);
    EnterKeys(t, entered);
    if e in t {
      EnterKeepsOld(t, entered, e);
    } else if e in Enter(t, entered) {
      EnteredComesFrom(t, entered, e);
      var i :| 0 <= i < |entered| && entered[i] == Peer(e, Enter(t, entered)[e]);
      assert all[i] == entered[i];
    }
  }

  // ----- Messages -----

  const PEERLIST: ByteString := [80, 69, 69, 82, 76, 73, 83, 84, 58]

  /** Parsed peers are stamped with the clock as they are built. */
  function Stamped(ws: seq<Wire>, clock: nat -> int): (ps: seq<Peer>)
    ensures |ps| == |ws|
    ensures forall i :: 0 <= i < |ws| ==> ps[i] == Peer(Endpoint(ws[i].ip, ws[i].port), Info(clock(i), ws[i].services))
  {
    seq(|ws|, i requires 0 <= i < |ws| => Peer(Endpoint(ws[i].ip, ws[i].port), Info(clock(i), ws[i].services)))
  }

  /** The peer-list branch of `handle_discovery_message`. */
  function Receive(t: Table, max: nat, ipOk: IpCheck, data: ByteString, clock: nat -> int): Table {
    if PEERLIST <= data then AddAll(t, max, ipOk, Stamped(Deserialize(data[9..]), clock)) else t
  }

  /**
   A peer list sent by an honest node and cut off anywhere on the way brings in no endpoint the
   sender did not list, and each with the services the sender listed for it.
   */
  lemma TruncatedMessageIsHonest(t: Table, max: nat, ipOk: IpCheck, ws: seq<Wire>, k: nat, clock: nat -> int, e: Endpoint)
      returns (i: nat)
    requires Encodable(ws) && k <= |Serialize(ws)|
    requires e !in t && e in Receive(t, max, ipOk, PEERLIST + Serialize(ws)[..k], clock)
    ensures i < |ws| && ws[i] == Wire(e.ip, e.port, Receive(t, max, ipOk, PEERLIST + Serialize(ws)[..k], clock)[e].services)
  {
    hide Serialize, Deserialize;
    var data := PEERLIST + Serialize(ws)[..k];
    assert data[9..] == Serialize(ws)[..k];
    TruncationKeepsWholeRecords(ws, k);
    var got := Deserialize(data[9..]);
    var t' := Receive(t, max, ipOk, data, clock);
    AddAllIsSafe(t, max, ipOk, Stamped(got, clock), e);
    i :| 0 <= i < |got| && Stamped(got, clock)[i] == Peer(e, t'[e]);
    assert got <= ws;
  }

  /** A whole message delivers the sender's list; without the prefix nothing is taken in. */
  lemma MessageDelivers(t: Table, max: nat, ipOk: IpCheck, ws: seq<Wire>, data: ByteString, clock: nat -> int)
    requires Encodable(ws)
    ensures Receive(t, max, ipOk, PEERLIST + Serialize(ws), clock) == AddAll(t, max, ipOk, Stamped(ws, clock))
    ensures |data| < 9 || data[..9] != [80, 69, 69, 82, 76, 73, 83, 84, 58] ==> Receive(t, max, ipOk, data, clock) == t
  {
    hide Serialize, Deserialize, AddAll;
    var message := PEERLIST + Serialize(ws);
    assert message[9..] == Serialize(ws);
    RoundTripIff(ws);
    assert PEERLIST <= data ==> data[..9] == PEERLIST;
  }

  // ----- Staleness -----

  const TICKS_PER_SECOND: int := 1_000_000_000

  /** `duration_cast<seconds>` truncates toward zero. */
  function AgeSeconds(i: Info, now: int): int {
    var d := now - i.lastSeen;
    if d >= 0 then d / TICKS_PER_SECOND else -((-d) / TICKS_PER_SECOND)
  }

  predicate IsStale(i: Info, now: int, maxAge: int) {
    AgeSeconds(i, now) > maxAge
  }

  function Cleanup(t: Table, now: int, maxAge: int): Table {
    map e | e in t && !IsStale(t[e], now, maxAge) :: t[e]
  }

  /** An entry is stale once it is a full second beyond the maximal age. */
  lemma StaleIff(i: Info, now: int, maxAge: nat)
    ensures IsStale(i, now, maxAge) <==> now - i.lastSeen >= (maxAge + 1) * TICKS_PER_SECOND
  {
    var d := now - i.lastSeen;
    assert d >= 0 ==> d == d / TICKS_PER_SECOND * TICKS_PER_SECOND + d % TICKS_PER_SECOND;
  }

  /** Cleaning up keeps an entry, unchanged, until it is a full second beyond the maximal age. */
  lemma CleanupKeeps(t: Table, now: int, maxAge: nat, e: Endpoint)
    ensures e in Cleanup(t, now, maxAge) <==> e in t && now - t[e].lastSeen < (maxAge + 1) * 1_000_000_000
    ensures e in Cleanup(t, now, maxAge) ==> Cleanup(t, now, maxAge)[e] == t[e]
  {
    hide IsStale;
    if e in t {
      StaleIff(t[e], now, maxAge);
    }
  }

  // ----- Runs -----

  datatype TableOp =
    | Add(p: Peer)
    | Remove(e: Endpoint)
    | Exchange(theirs: seq<Peer>)
    | Message(data: ByteString, clock: nat -> int)
    | CleanupStale(now: int, maxAge: int)

  function Apply(t: Table, max: nat, ipOk: IpCheck, op: TableOp): Table {
    match op
    case Add(p) => AddPeer(t, max, ipOk, p)
    case Remove(e) => t - {e}
    case Exchange(theirs) => AddAll(t, max, ipOk, theirs)
    case Message(data, clock) => Receive(t, max, ipOk, data, clock)
    case CleanupStale(now, maxAge) => Cleanup(t, now, maxAge)
  }

  function Run(t: Table, max: nat, ipOk: IpCheck, ops: seq<TableOp>): Table {
    if ops == [] then t else Apply(Run(t, max, ipOk, ops[..|ops| - 1]), max, ipOk, ops[|ops| - 1])
  }

  ghost predicate Sound(t: Table, max: nat, ipOk: IpCheck) {
    |t| <= max && forall e :: e in t ==> Acceptable(e, ipOk)
  }

  lemma SmallerTable(t: Table, t': Table)
    requires t'.Keys <= t.Keys
    ensures |t'| <= |t|
  {
    assert t.Keys == t'.Keys + (t.Keys - t'.Keys);
  }

  lemma AddAllSound(t: Table, max: nat, ipOk: IpCheck, ps: seq<Peer>)
    requires Sound(t, max, ipOk)
    ensures Sound(AddAll(t, max, ipOk, ps), max, ipOk)
  {
    forall e | e in AddAll(t, max, ipOk, ps)
      ensures Acceptable(e, ipOk)
    {
      AddAllIsSafe(t, max, ipOk, ps, e);
    }
    AddAllIsSafe(t, max, ipOk, ps, Endpoint([], 0));
  }

  lemma AddPeerIsAddAll(t: Table, max: nat, ipOk: IpCheck, p: Peer)
    ensures AddPeer(t, max, ipOk, p) == AddAll(t, max, ipOk, [p])
  {
    assert [p][..0] == [];
  }

  /** Whatever peers and bytes arrive, in every run the table holds at most `max_peers` endpoints, all acceptable. */
  lemma {:induction false} SoundOverRuns(max: nat, ipOk: IpCheck, ops: seq<TableOp>)
    ensures Sound(Run(map[], max, ipOk, ops), max, ipOk)
    ensures |Run(map[], max, ipOk, ops)| <= max
    ensures forall e :: e in Run(map[], max, ipOk, ops) ==> e.port != 0 && ipOk(e.ip)
  {
    if ops != [] {
      var t, op := Run(map[], max, ipOk, ops[..|ops| - 1]), ops[|ops| - 1];
      SoundOverRuns(max, ipOk, ops[..|ops| - 1]);
      match op {
        case Add(p) =>
          AddPeerIsAddAll(t, max, ipOk, p);
          AddAllSound(t, max, ipOk, [p]);
        case Remove(e) => SmallerTable(t, t - {e});
        case Exchange(theirs) => AddAllSound(t, max, ipOk, theirs);
        case Message(data, clock) =>
          if PEERLIST <= data {
            AddAllSound(t, max, ipOk, Stamped(Deserialize(data[9..]), clock));
          }
        case CleanupStale(now, maxAge) => SmallerTable(t, Cleanup(t, now, maxAge));
      }
    }
  }

  // ----- Sharing -----

  predicate SeenNoEarlier(p: Peer, q: Peer) {
    p.info.lastSeen >= q.info.lastSeen
  }

  predicate MostRecentFirst(ps: seq<Peer>) {
    Ordered(ps, SeenNoEarlier)
  }

  /** `shared` is the best that can be shared of `all`: at most `maxCount`, and nobody left out was seen later. */
  ghost predicate IsBestShare(shared: seq<Peer>, all: seq<Peer>, maxCount: nat) {
    && |shared| == (if |all| <= maxCount then |all| else maxCount)
    && multiset(shared) <= multiset(all)
    && (|all| > maxCount ==> MostRecentFirst(shared))
    && (forall p, q :: p in shared && q in multiset(all) - multiset(shared) ==> p.info.lastSeen >= q.info.lastSeen)
  }

  /** `select_peers_to_share`: everything if it fits, else sort by recency and cut. */
  method SelectPeersToShare(all: seq<Peer>, maxCount: nat) returns (shared: seq<Peer>)
    ensures IsBestShare(shared, all, maxCount)
    ensures |all| <= maxCount ==> shared == all
  {
    if |all| <= maxCount {
      return all;
    }
    var sorted := Sort(all, SeenNoEarlier);
    assert |multiset(sorted)| == |multiset(all)|;
    shared := sorted[..maxCount];
    CutIsBest(sorted, all, maxCount);
  }

  lemma CutIsBest(sorted: seq<Peer>, all: seq<Peer>, maxCount: nat)
    requires MostRecentFirst(sorted) && multiset(sorted) == multiset(all) && |all| == |sorted| > maxCount
    ensures IsBestShare(sorted[..maxCount], all, maxCount)
  {
    var shared, rest := sorted[..maxCount], sorted[maxCount..];
    assert sorted == shared + rest;
    assert multiset(all) - multiset(shared) == multiset(rest);
    forall p, q | p in shared && q in multiset(all) - multiset(shared)
      ensures p.info.lastSeen >= q.info.lastSeen
    {
      assert q in rest;
      CutOrders(sorted, maxCount, p, q);
    }
  }

  lemma CutOrders(sorted: seq<Peer>, k: nat, p: Peer, q: Peer)
    requires MostRecentFirst(sorted) && k <= |sorted| && p in sorted[..k] && q in sorted[k..]
    ensures p.info.lastSeen >= q.info.lastSeen
  {
    var i :| 0 <= i < k && sorted[i] == p;
    var j :| 0 <= j < |sorted[k..]| && sorted[k..][j] == q;
    assert sorted[k + j] == q && SeenNoEarlier(sorted[i], sorted[k + j]);
  }

  // ----- The order of the table -----

  /** `PeerAddress::operator<`: by ip, then by port. */
  predicate EndpointLess(a: Endpoint, b: Endpoint) {
    if a.ip != b.ip then LexLess(a.ip, b.ip) else a.port < b.port
  }

  predicate EndpointAtMost(a: Endpoint, b: Endpoint) {
    !EndpointLess(b, a)
  }

  lemma EndpointTotal(a: Endpoint, b: Endpoint)
    ensures a == b || EndpointLess(a, b) || EndpointLess(b, a)
    ensures !(EndpointLess(a, b) && EndpointLess(b, a))
  {
    LexTotal(a.ip, b.ip);
  }

  lemma EndpointTransitive(a: Endpoint, b: Endpoint, c: Endpoint)
    requires EndpointLess(a, b) && EndpointLess(b, c)
    ensures EndpointLess(a, c)
  {
    if a.ip != b.ip && b.ip != c.ip {
      LexTransitive(a.ip, b.ip, c.ip);
      LexIrreflexive(a.ip);
    }
  }

  lemma EndpointsAreOrdered()
    ensures TotalOrder(EndpointAtMost)
  {
    forall a, b
      ensures EndpointAtMost(a, b) || EndpointAtMost(b, a)
    {
      EndpointTotal(a, b);
    }
    forall a, b, c | EndpointAtMost(a, b) && EndpointAtMost(b, c)
      ensures EndpointAtMost(a, c)
    {
      EndpointTotal(a, b);
      EndpointTotal(b, c);
      if EndpointLess(a, b) && EndpointLess(b, c) {
        EndpointTransitive(a, b, c);
        EndpointTotal(a, c);
      }
    }
  }

  /** Exactly the entries of the table, by strictly ascending endpoint. */
  ghost predicate Lists(all: seq<Peer>, t: Table) {
    && (forall p :: p in all <==> p.endpoint in t && t[p.endpoint] == p.info)
    && (forall i, j :: 0 <= i < j < |all| ==>
          var a, b := all[i].endpoint, all[j].endpoint;
          LexLess(a.ip, b.ip) || (a.ip == b.ip && a.port < b.port))
  }

  lemma ListedInOrder(es: seq<Endpoint>, all: seq<Peer>, t: Table)
    requires Ordered(es, EndpointAtMost) && |all| == |es|
    requires forall e :: e in es <==> e in t
    requires NoRepeats(es)
    requires forall i :: 0 <= i < |es| ==> all[i] == Peer(es[i], t[es[i]])
    ensures Lists(all, t)
  {
    forall i, j | 0 <= i < j < |all|
      ensures var a, b := all[i].endpoint, all[j].endpoint; LexLess(a.ip, b.ip) || (a.ip == b.ip && a.port < b.port)
    {
      EndpointTotal(es[i], es[j]);
      assert EndpointAtMost(es[i], es[j]);
    }
    forall p
      ensures p in all <==> p.endpoint in t && t[p.endpoint] == p.info
    {
      if p.endpoint in t && t[p.endpoint] == p.info {
        var i :| 0 <= i < |es| && es[i] == p.endpoint;
        assert all[i] == p;
      }
    }
  }

  // ----- The table object -----

  class PeerDiscovery {
    const maxPeers: nat
    const ipOk: IpCheck
    var peers: Table

    constructor (maxPeers: nat, ipOk: IpCheck)
      ensures peers == map[] && this.maxPeers == maxPeers && this.ipOk == ipOk
    {
      this.maxPeers, this.ipOk, peers := maxPeers, ipOk, map[];
    }

    method TryAdd(p: Peer) returns (inserted: bool)
      modifies this
      ensures peers == Apply(old(peers), maxPeers, ipOk, Add(p))
      ensures inserted == (p.endpoint.port != 0 && ipOk(p.endpoint.ip) && |old(peers)| < maxPeers && p.endpoint !in old(peers))
    {
      if !Acceptable(p.endpoint, ipOk) {
        return false;
      }
      if |peers| >= maxPeers {
        return false;
      }
      inserted := p.endpoint !in peers;
      if inserted {
        peers := peers[p.endpoint := p.info];
      }
    }

    method RemovePeer(e: Endpoint) returns (removed: bool)
      modifies this
      ensures peers == Apply(old(peers), maxPeers, ipOk, Remove(e))
      ensures removed == (e in old(peers)) && peers == old(peers) - {e}
    {
      removed := e in peers;
      peers := peers - {e};
    }

    method AddEach(ps: seq<Peer>)
      modifies this
      ensures peers == AddAll(old(peers), maxPeers, ipOk, ps)
    {
      for i := 0 to |ps|
        invariant peers == AddAll(old(peers), maxPeers, ipOk, ps[..i])
      {
        assert ps[..i + 1][..i] == ps[..i];
        var _ := TryAdd(ps[i]);
      }
      assert ps[..|ps|] == ps;
    }

    /** `exchange_peers`: takes in their peers first, then shares the ten seen last. */
    method ExchangePeers(theirs: seq<Peer>) returns (ours: seq<Peer>, ghost listed: seq<Peer>)
      modifies this
      ensures peers == Apply(old(peers), maxPeers, ipOk, Exchange(theirs))
      ensures peers == AddAll(old(peers), maxPeers, ipOk, theirs)
      ensures Lists(listed, peers) && IsBestShare(ours, listed, 10)
    {
      AddEach(theirs);
      var all := GetPeers();
      listed := all;
      ours := SelectPeersToShare(all, 10);
    }

    /** Every peer of the table, each once, in the order of the set: by ip, then by port. */
    method GetPeers() returns (all: seq<Peer>)
      ensures Lists(all, peers)
    {
      var collected := Elements(peers.Keys);
      EndpointsAreOrdered();
      var es := Sort(collected, EndpointAtMost);
      EachOnce(es, peers.Keys);
      all := [];
      for i := 0 to |es|
        invariant |all| == i
        invariant forall j :: 0 <= j < i ==> all[j] == Peer(es[j], peers[es[j]])
      {
        all := all + [Peer(es[i], peers[es[i]])];
      }
      ListedInOrder(es, all, peers);
    }

    method HandlePeerList(data: ByteString, clock: nat -> int)
      modifies this
      ensures peers == Apply(old(peers), maxPeers, ipOk, Message(data, clock))
      ensures peers == Receive(old(peers), maxPeers, ipOk, data, clock)
    {
      if PEERLIST <= data {
        var ws := DeserializePeers(data[9..]);
        AddEach(Stamped(ws, clock));
      }
    }

    /** `cleanup_stale_peers`: one pass that erases as it goes. */
    method CleanupStalePeers(now: int, maxAge: int)
      modifies this
      ensures peers == Apply(old(peers), maxPeers, ipOk, CleanupStale(now, maxAge))
      ensures peers == Cleanup(old(peers), now, maxAge)
    {
      var rest := peers.Keys;
      while rest != {}
        invariant rest <= peers.Keys <= old(peers).Keys
        invariant forall e :: e in old(peers) ==>
                    (e in peers <==> e in rest || !IsStale(old(peers)[e], now, maxAge))
        invariant forall e :: e in peers ==> peers[e] == old(peers)[e]
        decreases rest
      {
        var e :| e in rest;
        if IsStale(peers[e], now, maxAge) {
          peers := peers - {e};
        }
        rest := rest - {e};
      }
    }
  }
}
