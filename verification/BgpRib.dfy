/** engine/real_bgp_agent.py: the two route lists that an UPDATE rewrites behave like a map. */
module BgpRib {
  import opened Text
  import opened Bgp

  datatype Key = Key(prefix: string, length: nat, peer: string)

  datatype Route = Route(key: Key, nextHop: string, localPref: nat, med: nat, asPath: seq<nat>, origin: char)

  type Rib = seq<Route>

  /** A parsed UPDATE and the address of the peer that sent it. */
  datatype Update = Update(peer: string, attrs: Attrs, prefixes: seq<(string, nat)>)

  /** The next hop falls back to the peer. */
  function RouteFor(u: Update, p: (string, nat)): Route {
    Route(Key(p.0, p.1, u.peer), if u.attrs.nextHop.Some? then u.attrs.nextHop.value else u.peer,
          u.attrs.localPref, u.attrs.med, u.attrs.asPath, u.attrs.origin)
  }

  // ---------- filtering a list ----------

  function Filter(rib: Rib, f: Route -> bool): Rib {
    if rib == [] then [] else (if f(rib[0]) then [rib[0]] else []) + Filter(rib[1..], f)
  }

  function Not(k: Key): Route -> bool { (r: Route) => r.key != k }

  function Is(k: Key): Route -> bool { (r: Route) => r.key == k }

  function By(peer: string): Route -> bool { (r: Route) => r.key.peer == peer }

  function Without(rib: Rib, k: Key): Rib { Filter(rib, Not(k)) }

  function Matches(rib: Rib, k: Key): Rib { Filter(rib, Is(k)) }

  function From(rib: Rib, peer: string): Rib { Filter(rib, By(peer)) }

  lemma {:induction false} FilterAppend(a: Rib, b: Rib, f: Route -> bool)
    ensures Filter(a + b, f) == Filter(a, f) + Filter(b, f)
  {
    if a == [] {
      assert a + b == b;
    } else {
      FilterAppend(a[1..], b, f);
      FilterCons(a[0], a[1..], f);
      FilterCons(a[0], a[1..] + b, f);
      assert [a[0]] + a[1..] == a && [a[0]] + (a[1..] + b) == a + b;
    }
  }

  lemma FilterCons(x: Route, rest: Rib, f: Route -> bool)
    ensures Filter([x] + rest, f) == (if f(x) then [x] else []) + Filter(rest, f)
  {
    assert ([x] + rest)[1..] == rest;
  }

  /** Removing entries that a filter drops anyway does not show after it. */
  lemma {:induction false} FilterIgnores(rib: Rib, f: Route -> bool, g: Route -> bool)
    requires forall r :: g(r) ==> f(r)
    ensures Filter(Filter(rib, f), g) == Filter(rib, g)
  {
    if rib != [] {
      var x, rest := rib[0], Filter(rib[1..], f);
      FilterIgnores(rib[1..], f, g);
      FilterCons(x, rest, g);
      assert Filter(rib, f) == if f(x) then [x] + rest else rest;
    }
  }

  lemma {:induction false} FilterRemovesAll(rib: Rib, f: Route -> bool, g: Route -> bool)
    requires forall r :: f(r) ==> !g(r)
    ensures Filter(Filter(rib, f), g) == []
  {
    if rib != [] {
      var x, rest := rib[0], Filter(rib[1..], f);
      FilterRemovesAll(rib[1..], f, g);
      FilterCons(x, rest, g);
      assert Filter(rib, f) == if f(x) then [x] + rest else rest;
    }
  }

  lemma {:induction false} FilterCommutes(rib: Rib, f: Route -> bool, g: Route -> bool)
    ensures Filter(Filter(rib, f), g) == Filter(Filter(rib, g), f)
  {
    if rib != [] {
      var x, restF, restG := rib[0], Filter(rib[1..], f), Filter(rib[1..], g);
      FilterCommutes(rib[1..], f, g);
      FilterCons(x, restF, g);
      FilterCons(x, restG, f);
      assert Filter(rib, f) == if f(x) then [x] + restF else restF;
      assert Filter(rib, g) == if g(x) then [x] + restG else restG;
    }
  }

  lemma {:induction false} FilterMeans(rib: Rib, f: Route -> bool, r: Route)
    ensures r in Filter(rib, f) <==> r in rib && f(r)
  {
    if rib != [] { FilterMeans(rib[1..], f, r); }
  }

  // ---------- writing routes ----------

  /** One pass of the loop of _apply_update over one list. */
  function Put(rib: Rib, r: Route): Rib { Without(rib, r.key) + [r] }

  function PutAll(rib: Rib, u: Update, k: nat): Rib
    requires k <= |u.prefixes|
  {
    if k == 0 then rib else Put(PutAll(rib, u, k - 1), RouteFor(u, u.prefixes[k - 1]))
  }

  lemma PutMatches(rib: Rib, r: Route, k: Key)
    ensures Matches(Put(rib, r), k) == if k == r.key then [r] else Matches(rib, k)
  {
    FilterAppend(Without(rib, r.key), [r], Is(k));
    if k == r.key {
      FilterRemovesAll(rib, Not(r.key), Is(k));
    } else {
      FilterIgnores(rib, Not(r.key), Is(k));
    }
  }

  lemma PutFrom(rib: Rib, r: Route, peer: string)
    ensures From(Put(rib, r), peer) == if peer == r.key.peer then Put(From(rib, peer), r) else From(rib, peer)
  {
    FilterAppend(Without(rib, r.key), [r], By(peer));
    if peer == r.key.peer {
      FilterCommutes(rib, Not(r.key), By(peer));
    } else {
      FilterIgnores(rib, Not(r.key), By(peer));
    }
  }

  // ---------- the node and its updates ----------

  /** The part of a BGP node that the listener writes; received is prefixes_received by session. */
  datatype Node = Node(locRib: Rib, ribIn: Rib, received: map<string, nat>)

  function Applied(n: Node, u: Update): Node {
    if u.prefixes == [] then n
    else
      var ribIn := PutAll(n.ribIn, u, |u.prefixes|);
      Node(PutAll(n.locRib, u, |u.prefixes|), ribIn,
           if u.peer in n.received then n.received[u.peer := |From(ribIn, u.peer)|] else n.received)
  }

  function Run(n: Node, us: seq<Update>): Node
    decreases |us|
  {
    if us == [] then n else Applied(Run(n, us[..|us| - 1]), us[|us| - 1])
  }

  // ---------- last writer wins ----------

  /** The route that the last update naming the key gave it. */
  function Written(us: seq<Update>, k: Key): Option<Route>
    decreases |us|
  {
    if us == [] then None
    else
      var u := us[|us| - 1];
      if u.peer == k.peer && (k.prefix, k.length) in u.prefixes then Some(RouteFor(u, (k.prefix, k.length)))
      else Written(us[..|us| - 1], k)
  }

  lemma {:induction false} PutAllMatches(rib: Rib, u: Update, n: nat, k: Key)
    requires n <= |u.prefixes|
    ensures Matches(PutAll(rib, u, n), k) ==
      if u.peer == k.peer && (k.prefix, k.length) in u.prefixes[..n] then [RouteFor(u, (k.prefix, k.length))]
      else Matches(rib, k)
    decreases n
  {
    hide Put, Matches;
    if n > 0 {
      PutAllMatches(rib, u, n - 1, k);
      PutMatches(PutAll(rib, u, n - 1), RouteFor(u, u.prefixes[n - 1]), k);
      assert u.prefixes[..n] == u.prefixes[..n - 1] + [u.prefixes[n - 1]];
    }
  }

  /** Over any sequence of updates by any peers, in both lists: a key that was announced has exactly
      one route, that of its last announcement, and every other key has the routes it had. */
  lemma {:induction false} LastWriterWins(n: Node, us: seq<Update>, k: Key)
    ensures var w := Written(us, k);
      Matches(Run(n, us).locRib, k) == (if w.Some? then [w.value] else Matches(n.locRib, k))
      && Matches(Run(n, us).ribIn, k) == (if w.Some? then [w.value] else Matches(n.ribIn, k))
    decreases |us|
  {
    hide Matches, PutAll;
    if us != [] {
      var u, m := us[|us| - 1], Run(n, us[..|us| - 1]);
      LastWriterWins(n, us[..|us| - 1], k);
      PutAllMatches(m.locRib, u, |u.prefixes|, k);
      PutAllMatches(m.ribIn, u, |u.prefixes|, k);
      assert u.prefixes[..|u.prefixes|] == u.prefixes;
    }
  }

  /** Update i is the last one that announces the key. */
  predicate LastAnnounces(us: seq<Update>, k: Key, i: nat) {
    i < |us| && Announces(us[i], k) && forall j :: i < j < |us| ==> !Announces(us[j], k)
  }

  predicate Announces(u: Update, k: Key) { u.peer == k.peer && (k.prefix, k.length) in u.prefixes }

  lemma {:induction false} WrittenByLast(us: seq<Update>, k: Key)
    ensures if Written(us, k).Some? then exists i: nat :: LastAnnounces(us, k, i) && Written(us, k) == Some(RouteFor(us[i], (k.prefix, k.length)))
            else forall i :: 0 <= i < |us| ==> !Announces(us[i], k)
    decreases |us|
  {
    hide RouteFor;
    if us != [] {
      var n := |us| - 1;
      if Announces(us[n], k) {
        assert LastAnnounces(us, k, n);
      } else {
        WrittenByLast(us[..n], k);
        if Written(us[..n], k).Some? {
          var i: nat :| LastAnnounces(us[..n], k, i) && Written(us[..n], k) == Some(RouteFor(us[..n][i], (k.prefix, k.length)));
          assert LastAnnounces(us, k, i);
        }
      }
    }
  }

  /** The one route of an announced key has the attributes of its last announcement: its next hop, or
      the peer where it had none, its preference, metric, path and origin. */
  lemma RouteOfLastAnnouncement(n: Node, us: seq<Update>, k: Key, i: nat)
    requires LastAnnounces(us, k, i)
    ensures var a := us[i].attrs;
      exists r: Route :: Matches(Run(n, us).locRib, k) == [r] && Matches(Run(n, us).ribIn, k) == [r] && r.key == k
        && r.nextHop == (match a.nextHop case Some(h) => h case None => k.peer)
        && r.localPref == a.localPref && r.med == a.med && r.asPath == a.asPath && r.origin == a.origin
  {
    hide Run, Matches;
    LastWriterWins(n, us, k);
    WrittenByLast(us, k);
    assert Written(us, k).Some?;
    var m: nat :| LastAnnounces(us, k, m) && Written(us, k) == Some(RouteFor(us[m], (k.prefix, k.length)));
    assert m == i;
  }

  // ---------- the routes of one peer ----------

  /** What the updates of one peer, alone, make of its routes. */
  function Replay(rib: Rib, us: seq<Update>, peer: string): Rib
    decreases |us|
  {
    if us == [] then rib
    else
      var u, before := us[|us| - 1], Replay(rib, us[..|us| - 1], peer);
      if u.peer == peer then PutAll(before, u, |u.prefixes|) else before
  }

  lemma {:induction false} PutAllFrom(rib: Rib, u: Update, n: nat, peer: string)
    requires n <= |u.prefixes|
    ensures From(PutAll(rib, u, n), peer) == if u.peer == peer then PutAll(From(rib, peer), u, n) else From(rib, peer)
    decreases n
  {
    hide Put, From;
    if n > 0 {
      PutAllFrom(rib, u, n - 1, peer);
      PutFrom(PutAll(rib, u, n - 1), RouteFor(u, u.prefixes[n - 1]), peer);
    }
  }

  /** The routes of a peer, with their order, depend on its own updates only: those of any other
      peer leave them untouched, whatever the interleaving. */
  lemma {:induction false} PeersDoNotInterfere(n: Node, us: seq<Update>, peer: string)
    ensures From(Run(n, us).locRib, peer) == Replay(From(n.locRib, peer), us, peer)
    ensures From(Run(n, us).ribIn, peer) == Replay(From(n.ribIn, peer), us, peer)
    decreases |us|
  {
    hide From, Put;
    if us != [] {
      var u, m := us[|us| - 1], Run(n, us[..|us| - 1]);
      PeersDoNotInterfere(n, us[..|us| - 1], peer);
      PutAllFrom(m.locRib, u, |u.prefixes|, peer);
      PutAllFrom(m.ribIn, u, |u.prefixes|, peer);
    }
  }

  /** The two lists agree on the routes of a peer for which they agreed before. */
  lemma RibsAgree(n: Node, us: seq<Update>, peer: string)
    requires From(n.locRib, peer) == From(n.ribIn, peer)
    ensures From(Run(n, us).locRib, peer) == From(Run(n, us).ribIn, peer)
  {
    hide From, Run, Replay;
    PeersDoNotInterfere(n, us, peer);
  }

  // ---------- counting prefixes ----------

  predicate NoDuplicates(rib: Rib) { forall i, j :: 0 <= i < j < |rib| ==> rib[i].key != rib[j].key }

  function KeysOf(rib: Rib): set<Key> { set r | r in rib :: r.key }

  lemma {:induction false} SizeOfKeys(rib: Rib)
    requires NoDuplicates(rib)
    ensures |KeysOf(rib)| == |rib|
  {
    if rib != [] {
      SizeOfKeys(rib[1..]);
      assert KeysOf(rib) == {rib[0].key} + KeysOf(rib[1..]);
    }
  }

  lemma {:induction false} FilterKeepsNoDuplicates(rib: Rib, f: Route -> bool)
    requires NoDuplicates(rib)
    ensures NoDuplicates(Filter(rib, f))
  {
    if rib != [] {
      FilterKeepsNoDuplicates(rib[1..], f);
      forall r | r in Filter(rib[1..], f) ensures r.key != rib[0].key { FilterMeans(rib[1..], f, r); }
    }
  }

  lemma PutKeys(rib: Rib, r: Route)
    requires NoDuplicates(rib)
    ensures NoDuplicates(Put(rib, r)) && KeysOf(Put(rib, r)) == KeysOf(rib) + {r.key}
  {
    FilterKeepsNoDuplicates(rib, Not(r.key));
    forall x ensures x in Without(rib, r.key) <==> x in rib && x.key != r.key { FilterMeans(rib, Not(r.key), x); }
    assert forall x :: x in Put(rib, r) <==> x in Without(rib, r.key) || x == r;
  }

  function Announced(u: Update, n: nat): set<Key>
    requires n <= |u.prefixes|
  {
    set p | p in u.prefixes[..n] :: Key(p.0, p.1, u.peer)
  }

  /** Every distinct prefix that the peer announced in the run. */
  function AllAnnounced(us: seq<Update>, peer: string): set<Key>
    decreases |us|
  {
    if us == [] then {}
    else
      var u := us[|us| - 1];
      AllAnnounced(us[..|us| - 1], peer) + if u.peer == peer then Announced(u, |u.prefixes|) else {}
  }

  lemma {:induction false} PutAllKeys(rib: Rib, u: Update, n: nat)
    requires NoDuplicates(rib) && n <= |u.prefixes|
    ensures NoDuplicates(PutAll(rib, u, n)) && KeysOf(PutAll(rib, u, n)) == KeysOf(rib) + Announced(u, n)
    decreases n
  {
    hide Put, NoDuplicates, KeysOf;
    if n > 0 {
      var p := u.prefixes[n - 1];
      PutAllKeys(rib, u, n - 1);
      PutKeys(PutAll(rib, u, n - 1), RouteFor(u, p));
      assert u.prefixes[..n] == u.prefixes[..n - 1] + [p];
      assert Announced(u, n) == Announced(u, n - 1) + {Key(p.0, p.1, u.peer)};
    }
  }

  lemma {:induction false} ReplayKeys(rib: Rib, us: seq<Update>, peer: string)
    requires NoDuplicates(rib)
    ensures NoDuplicates(Replay(rib, us, peer)) && KeysOf(Replay(rib, us, peer)) == KeysOf(rib) + AllAnnounced(us, peer)
    decreases |us|
  {
    hide PutAll, NoDuplicates, KeysOf, Announced;
    if us != [] {
      var u := us[|us| - 1];
      ReplayKeys(rib, us[..|us| - 1], peer);
      PutAllKeys(Replay(rib, us[..|us| - 1], peer), u, |u.prefixes|);
    }
  }

  lemma {:induction false} ReceivedCountsRoutes(n: Node, us: seq<Update>, peer: string)
    requires peer in n.received && n.received[peer] == |From(n.ribIn, peer)|
    ensures peer in Run(n, us).received && Run(n, us).received[peer] == |From(Run(n, us).ribIn, peer)|
    decreases |us|
  {
    hide From, PutAll;
    if us != [] {
      var u, m := us[|us| - 1], Run(n, us[..|us| - 1]);
      ReceivedCountsRoutes(n, us[..|us| - 1], peer);
      PutAllFrom(m.ribIn, u, |u.prefixes|, peer);
    }
  }

  /** For a peer without routes at the start of its session: after any run no key of the peer is
      there twice, and prefixes_received is the number of distinct prefixes it announced. */
  lemma ReceivedCountsPrefixes(n: Node, us: seq<Update>, peer: string)
    requires peer in n.received && n.received[peer] == 0 && From(n.ribIn, peer) == []
    ensures NoDuplicates(From(Run(n, us).ribIn, peer))
    ensures peer in Run(n, us).received && Run(n, us).received[peer] == |AllAnnounced(us, peer)|
  {
    hide From, Run, Replay, AllAnnounced;
    ReceivedCountsRoutes(n, us, peer);
    PeersDoNotInterfere(n, us, peer);
    ReplayKeys([], us, peer);
    SizeOfKeys(From(Run(n, us).ribIn, peer));
    assert KeysOf([]) + AllAnnounced(us, peer) == AllAnnounced(us, peer);
  }

  /** An UPDATE counts for the session of its own peer only, if there is one; a session whose peer
      announces nothing keeps its count, and an UPDATE without routes changes nothing at all. */
  lemma {:induction false} OtherSessionsStay(n: Node, us: seq<Update>, peer: string)
    requires forall u :: u in us ==> u.peer != peer || u.prefixes == []
    ensures peer in Run(n, us).received <==> peer in n.received
    ensures peer in n.received ==> Run(n, us).received[peer] == n.received[peer]
    ensures (forall u :: u in us ==> u.prefixes == []) ==> Run(n, us) == n
    decreases |us|
  {
    hide PutAll, From;
    if us != [] {
      var u := us[|us| - 1];
      assert u in us && forall v :: v in us[..|us| - 1] ==> v in us;
      OtherSessionsStay(n, us[..|us| - 1], peer);
    }
  }

  /** No session is opened or closed by an UPDATE. */
  lemma {:induction false} SessionsStay(n: Node, us: seq<Update>)
    ensures Run(n, us).received.Keys == n.received.Keys
    decreases |us|
  {
    hide PutAll, From;
    if us != [] { SessionsStay(n, us[..|us| - 1]); }
  }

  // ---------- the node, updated in place ----------

  class BgpNode {
    var locRib: Rib
    var ribIn: Rib
    var received: map<string, nat>

    ghost function View(): Node
      reads this
    {
      Node(locRib, ribIn, received)
    }

    constructor ()
      ensures View() == Node([], [], map[])
    {
      locRib, ribIn, received := [], [], map[];
    }

    method ApplyUpdate(u: Update)
      modifies this
      ensures View() == Applied(old(View()), u)
    {
      if u.prefixes == [] { return; }
      for k := 0 to |u.prefixes|
        invariant locRib == PutAll(old(locRib), u, k) && ribIn == PutAll(old(ribIn), u, k)
        invariant received == old(received)
      {
        var r := RouteFor(u, u.prefixes[k]);
        locRib := Without(locRib, r.key);
        locRib := locRib + [r];
        ribIn := Without(ribIn, r.key);
        ribIn := ribIn + [r];
      }
      if u.peer in received { received := received[u.peer := |From(ribIn, u.peer)|]; }
    }
  }
}
