/** engine/ike_engine.py: who is whose peer, when addresses and tunnel end points are unique. */
module IkeTopology {
  import opened Text
  import opened Ike

  /** No address belongs to two devices, and no device has two tunnels with the same end points. */
  ghost predicate Unique(cfg: Config) {
    (forall i, j, ip :: 0 <= i < j < |cfg| && ip != "" ==> !(Owns(cfg[i], ip) && Owns(cfg[j], ip)))
    && (forall i, k, m :: 0 <= i < |cfg| && 0 <= k < m < |cfg[i].tunnels| ==> !SameEnds(cfg[i].tunnels[k], cfg[i].tunnels[m]))
  }

  predicate SameEnds(s: TunnelCfg, t: TunnelCfg) {
    s.localIp != "" && s.remoteIp != "" && s.localIp == t.localIp && s.remoteIp == t.remoteIp
  }

  /** Two Si-R-family tunnels that are each other's far end. */
  predicate Pair(cfg: Config, a: Key, b: Key) {
    HasTunnel(cfg, a) && HasTunnel(cfg, b)
    && SirFamily(cfg[a.device].kind) && SirFamily(cfg[b.device].kind)
    && TunnelOf(cfg, a).localIp != "" && TunnelOf(cfg, a).remoteIp != ""
    && PeerOf(cfg, a) == SirPeer(b)
  }

  lemma MatchesStep(cfg: Config, i: nat, ip: string, j: nat)
    requires j < |cfg|
    ensures |MatchesFrom(cfg, i, ip, j)| == (if j != i && Owns(cfg[j], ip) then 1 else 0) + |MatchesFrom(cfg, i, ip, j + 1)|
  {
    hide Owns, FirstNeighbour, SirFamily, CiscoFamily;
  }

  lemma {:induction false} MatchesOwner(cfg: Config, i: nat, ip: string, j: nat, owner: nat)
    requires owner < |cfg| && owner != i && Owns(cfg[owner], ip) && j <= owner
    ensures |MatchesFrom(cfg, i, ip, j)| > 0
    decreases owner - j
  {
    hide Owns, MatchesFrom, FirstNeighbour, SirFamily, CiscoFamily;
    MatchesStep(cfg, i, ip, j);
    if j < owner { MatchesOwner(cfg, i, ip, j + 1, owner); }
  }

  /** With a single other owner of an address, that owner is found, neighbour or not. */
  lemma FindsOwner(cfg: Config, i: nat, ip: string, owner: nat)
    requires i < |cfg| && owner < |cfg| && owner != i && ip != "" && Owns(cfg[owner], ip) && Unique(cfg)
    ensures FindPeer(cfg, i, ip) == Some(owner)
  {
    hide Owns, FirstNeighbour, MatchesFrom;
    assert forall m :: 0 <= m < |cfg| && m != i && Owns(cfg[m], ip) ==> m == owner;
    MatchesOwner(cfg, i, ip, 0, owner);
  }

  lemma TunnelIndexUnique(cfg: Config, key: Key)
    requires HasTunnel(cfg, key) && Unique(cfg)
    requires TunnelOf(cfg, key).localIp != "" && TunnelOf(cfg, key).remoteIp != ""
    ensures TunnelIndex(cfg[key.device].tunnels, TunnelOf(cfg, key).localIp, TunnelOf(cfg, key).remoteIp) == Some(key.tunnel)
  {
    hide Owns;
    var ts, t := cfg[key.device].tunnels, TunnelOf(cfg, key);
    assert t in ts;
    var r := TunnelIndex(ts, t.localIp, t.remoteIp);
    assert r.Some? && SameEnds(ts[r.value], t) && SameEnds(t, ts[r.value]);
  }

  /** Being a pair is symmetric. */
  lemma PairSymmetric(cfg: Config, a: Key, b: Key)
    requires Unique(cfg) && Pair(cfg, a, b)
    ensures Pair(cfg, b, a)
  {
    hide FindPeer, TunnelIndex, Unique;
    var s, t := TunnelOf(cfg, a), TunnelOf(cfg, b);
    PairEnds(cfg, a, b);
    assert Owns(cfg[a.device], s.localIp) by { assert s in cfg[a.device].tunnels; }
    FindsOwner(cfg, b.device, t.remoteIp, a.device);
    TunnelIndexUnique(cfg, a);
  }

  lemma PairEnds(cfg: Config, a: Key, b: Key)
    requires Pair(cfg, a, b)
    ensures a.device != b.device && TunnelOf(cfg, b).localIp == TunnelOf(cfg, a).remoteIp
    ensures TunnelOf(cfg, b).remoteIp == TunnelOf(cfg, a).localIp
  {}

  // ---------- manual keying does not change who is whose peer ----------

  lemma OwnsSame(d: Device, e: Device, ip: string)
    requires d.(tunnels := []) == e.(tunnels := []) && |d.tunnels| == |e.tunnels|
    requires forall k :: 0 <= k < |d.tunnels| ==> SameTunnel(d.tunnels[k], e.tunnels[k])
    ensures Owns(d, ip) == Owns(e, ip)
  {
    forall t | t in d.tunnels && t.localIp == ip ensures exists u :: u in e.tunnels && u.localIp == ip {
      var k :| 0 <= k < |d.tunnels| && d.tunnels[k] == t;
      assert SameTunnel(d.tunnels[k], e.tunnels[k]) && e.tunnels[k] in e.tunnels;
    }
    forall u | u in e.tunnels && u.localIp == ip ensures exists t :: t in d.tunnels && t.localIp == ip {
      var k :| 0 <= k < |e.tunnels| && e.tunnels[k] == u;
      assert SameTunnel(d.tunnels[k], e.tunnels[k]) && d.tunnels[k] in d.tunnels;
    }
  }

  lemma {:induction false} MatchesSame(a: Config, b: Config, i: nat, ip: string, j: nat)
    requires SameUpToKeying(a, b)
    ensures MatchesFrom(a, i, ip, j) == MatchesFrom(b, i, ip, j)
    decreases |a| - j
  {
    hide Owns, SameTunnel;
    if j < |a| {
      OwnsSame(a[j], b[j], ip);
      MatchesSame(a, b, i, ip, j + 1);
    }
  }

  lemma {:induction false} FirstNeighbourSame(a: Config, b: Config, ms: seq<nat>, ids: set<string>)
    requires SameUpToKeying(a, b) && forall m :: m in ms ==> m < |a|
    ensures FirstNeighbour(a, ms, ids) == FirstNeighbour(b, ms, ids)
  {
    hide SameTunnel;
    if ms != [] {
      assert ms[0] in ms;
      assert a[ms[0]].(tunnels := []).id == b[ms[0]].(tunnels := []).id;
      assert forall m :: m in ms[1..] ==> m in ms;
      FirstNeighbourSame(a, b, ms[1..], ids);
    }
  }

  lemma {:induction false} TunnelIndexSame(s: seq<TunnelCfg>, t: seq<TunnelCfg>, localIp: string, remoteIp: string)
    requires |s| == |t| && forall k :: 0 <= k < |s| ==> SameTunnel(s[k], t[k])
    ensures TunnelIndex(s, localIp, remoteIp) == TunnelIndex(t, localIp, remoteIp)
  {
    if s != [] {
      assert SameTunnel(s[0], t[0]);
      TunnelIndexSame(s[1..], t[1..], localIp, remoteIp);
    }
  }

  lemma FindPeerSame(a: Config, b: Config, i: nat, ip: string)
    requires SameUpToKeying(a, b) && i < |a|
    ensures FindPeer(a, i, ip) == FindPeer(b, i, ip)
  {
    hide Owns, SameTunnel, MatchesFrom, FirstNeighbour;
    MatchesSame(a, b, i, ip, 0);
    assert a[i].(tunnels := []).neighbours == b[i].(tunnels := []).neighbours;
    FirstNeighbourSame(a, b, MatchesFrom(a, i, ip, 0), a[i].neighbours);
  }

  lemma SwitchesSame(a: Config, b: Config, i: nat)
    requires SameUpToKeying(a, b) && i < |a|
    ensures a[i].kind == b[i].kind && a[i].ikeEnabled == b[i].ikeEnabled && a[i].ipsecEnabled == b[i].ipsecEnabled
    ensures a[i].crypto == b[i].crypto && |a[i].tunnels| == |b[i].tunnels| && |a| == |b|
  {
    hide SameTunnel;
    assert a[i].(tunnels := []) == b[i].(tunnels := []);
    assert a[i].kind == a[i].(tunnels := []).kind && a[i].ikeEnabled == a[i].(tunnels := []).ikeEnabled;
    assert a[i].ipsecEnabled == a[i].(tunnels := []).ipsecEnabled && a[i].crypto == a[i].(tunnels := []).crypto;
  }

  lemma TunnelSame(a: Config, b: Config, key: Key)
    requires SameUpToKeying(a, b) && HasTunnel(a, key)
    ensures HasTunnel(b, key) && SameTunnel(TunnelOf(a, key), TunnelOf(b, key))
    ensures IsManual(TunnelOf(a, key)) == IsManual(TunnelOf(b, key))
    ensures TunnelOf(a, key).localIp == TunnelOf(b, key).localIp && TunnelOf(a, key).remoteIp == TunnelOf(b, key).remoteIp
    ensures TunnelOf(a, key).dpdUse == TunnelOf(b, key).dpdUse && Window(TunnelOf(a, key)) == Window(TunnelOf(b, key))
    ensures TunnelOf(a, key).send == TunnelOf(b, key).send && TunnelOf(a, key).receive == TunnelOf(b, key).receive
  {
    assert |a[key.device].tunnels| == |b[key.device].tunnels|;
    var s, t := TunnelOf(a, key), TunnelOf(b, key);
    assert SameTunnel(s, t);
    var s', t' := s.(protocol := None, encryption := None, hash := None), t.(protocol := None, encryption := None, hash := None);
    assert s'.localIp == s.localIp && s'.remoteIp == s.remoteIp && s'.ipsecType == s.ipsecType;
  }

  lemma PeerSame(a: Config, b: Config, key: Key)
    requires SameUpToKeying(a, b) && HasTunnel(a, key)
    ensures HasTunnel(b, key) && PeerOf(a, key) == PeerOf(b, key)
  {
    hide SameTunnel, FindPeer, TunnelIndex;
    TunnelSame(a, b, key);
    var t := TunnelOf(a, key);
    FindPeerSame(a, b, key.device, t.remoteIp);
    var p := FindPeer(a, key.device, t.remoteIp);
    if p.Some? {
      SwitchesSame(a, b, p.value);
      TunnelIndexSame(a[p.value].tunnels, b[p.value].tunnels, t.remoteIp, t.localIp);
    }
  }

  lemma PairSame(a: Config, b: Config, c: Key, d: Key)
    requires SameUpToKeying(a, b)
    ensures Pair(a, c, d) == Pair(b, c, d)
  {
    hide SameTunnel, PeerOf;
    if c.device < |a| { SwitchesSame(a, b, c.device); }
    if d.device < |a| { SwitchesSame(a, b, d.device); }
    if HasTunnel(a, c) {
      TunnelSame(a, b, c);
      PeerSame(a, b, c);
    }
  }

  lemma UniqueSame(a: Config, b: Config)
    requires SameUpToKeying(a, b) && Unique(a)
    ensures Unique(b)
  {
    hide SameTunnel, Owns;
    forall i, j, ip | 0 <= i < j < |b| && ip != "" ensures !(Owns(b[i], ip) && Owns(b[j], ip)) {
      OwnsSame(a[i], b[i], ip);
      OwnsSame(a[j], b[j], ip);
    }
    forall i, k, m | 0 <= i < |b| && 0 <= k < m < |b[i].tunnels| ensures !SameEnds(b[i].tunnels[k], b[i].tunnels[m]) {
      SwitchesSame(a, b, i);
      TunnelSame(a, b, Key(i, k));
      TunnelSame(a, b, Key(i, m));
      assert !SameEnds(a[i].tunnels[k], a[i].tunnels[m]);
    }
  }

  /** Neither the tunnel nor, if it is a Si-R tunnel, its peer uses manual keys. */
  predicate NotManual(cfg: Config, key: Key) {
    HasTunnel(cfg, key) && !IsManual(TunnelOf(cfg, key))
    && (PeerOf(cfg, key).SirPeer? ==> !IsManual(TunnelOf(cfg, PeerOf(cfg, key).key)))
  }

  /** Manual keying elsewhere never changes the verdict on an IKE tunnel. */
  lemma VerdictSame(a: Config, b: Config, key: Key)
    requires SameUpToKeying(a, b) && NotManual(a, key)
    ensures NotManual(b, key) && VerdictOf(a, key) == VerdictOf(b, key)
  {
    hide PeerOf, Checked, CiscoView, SirView;
    TunnelSame(a, b, key);
    PeerSame(a, b, key);
    SwitchesSame(a, b, key.device);
    assert TunnelOf(a, key) == TunnelOf(b, key);
    PeerInRange(a, key);
    match PeerOf(a, key)
    case SirPeer(p) =>
      TunnelSame(a, b, p);
      SwitchesSame(a, b, p.device);
    case CiscoPeer(j) =>
      SwitchesSame(a, b, j);
    case _ =>
  }

  lemma PeerInRange(cfg: Config, key: Key)
    requires HasTunnel(cfg, key)
    ensures PeerOf(cfg, key).SirPeer? ==> HasTunnel(cfg, PeerOf(cfg, key).key) && PeerOf(cfg, key).key.device != key.device
    ensures PeerOf(cfg, key).CiscoPeer? ==> PeerOf(cfg, key).device < |cfg|
  {}

  lemma KeyingTransitive(a: Config, b: Config, c: Config)
    requires SameUpToKeying(a, b) && SameUpToKeying(b, c)
    ensures SameUpToKeying(a, c)
  {
    forall i, k | 0 <= i < |a| && 0 <= k < |a[i].tunnels| ensures SameTunnel(a[i].tunnels[k], c[i].tunnels[k]) {
      assert SameTunnel(a[i].tunnels[k], b[i].tunnels[k]);
      assert SameTunnel(b[i].tunnels[k], c[i].tunnels[k]);
    }
  }

  // ---------- the verdict from either end ----------

  /** What the two ends need to agree on, whoever asks. */
  predicate Compatible(cfg: Config, a: Key, b: Key)
    requires Pair(cfg, a, b)
  {
    var s, t := SirView(TunnelOf(cfg, a)), SirView(TunnelOf(cfg, b));
    cfg[a.device].ikeEnabled && cfg[b.device].ikeEnabled && Phase1Ok(s, t) && Phase2Ok(s, t)
  }

  lemma UpWhen(cfg: Config, a: Key, b: Key)
    requires Pair(cfg, a, b)
    ensures VerdictOf(cfg, a) == Up <==> cfg[a.device].ipsecEnabled && Compatible(cfg, a, b)
  {
    hide PeerOf, Phase1Ok, Phase2Ok, SirView;
  }

  /** Both ends reach the same verdict exactly when, for compatible ends, the "ipsec use" switch
      is set alike on both devices: the negotiation reads only the initiator's switch. */
  lemma SameVerdictExactlyWhen(cfg: Config, a: Key, b: Key)
    requires Unique(cfg) && Pair(cfg, a, b)
    ensures Pair(cfg, b, a)
    ensures (VerdictOf(cfg, a) == Up) == (VerdictOf(cfg, b) == Up)
      <==> (Compatible(cfg, a, b) ==> cfg[a.device].ipsecEnabled == cfg[b.device].ipsecEnabled)
  {
    hide Pair, VerdictOf, NormDh, NormEnc, NormHash, Lower;
    PairSymmetric(cfg, a, b);
    UpWhen(cfg, a, b);
    UpWhen(cfg, b, a);
    CompatibleSymmetric(cfg, a, b);
  }

  lemma CompatibleSymmetric(cfg: Config, a: Key, b: Key)
    requires Pair(cfg, a, b) && Pair(cfg, b, a)
    ensures Compatible(cfg, a, b) == Compatible(cfg, b, a)
  {
    hide NormDh, NormEnc, NormHash, Lower, PeerOf;
  }
}
