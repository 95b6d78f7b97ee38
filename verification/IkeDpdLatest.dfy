/** engine/ike_engine.py: when a dead-peer drop is measured from the latest link-down. */
module IkeDpdLatest {
  import opened Text
  import opened Ike
  import opened IkeTopology
  import opened IkeRuns
  import opened IkeConvergence
  import opened IkeDpd

  /** An IKE tunnel of the Si-R family with both end points configured. */
  ghost predicate IkeTunnel(cfg: Config, key: Key) {
    Unique(cfg) && NotManual(cfg, key) && SirFamily(cfg[key.device].kind)
    && TunnelOf(cfg, key).localIp != "" && TunnelOf(cfg, key).remoteIp != ""
  }

  /** The far end would bring the tunnel up. */
  ghost predicate PeerUp(cfg: Config, key: Key) {
    exists b :: Pair(cfg, key, b) && VerdictOf(cfg, b) == Up
  }

  lemma PeerUpSame(a: Config, b: Config, key: Key)
    requires SameUpToKeying(a, b) && IkeTunnel(a, key) && PeerUp(a, key)
    ensures PeerUp(b, key)
  {
    hide VerdictOf, PeerOf, SameUpToKeying, SameTunnel;
    var c :| Pair(a, key, c) && VerdictOf(a, c) == Up;
    PairSame(a, b, key, c);
    PairSymmetric(a, key, c);
    assert NotManual(a, c);
    VerdictSame(a, b, c);
  }

  lemma KeyingBack(a: Config, b: Config)
    requires SameUpToKeying(a, b)
    ensures SameUpToKeying(b, a)
  {
    forall i, k | 0 <= i < |b| && 0 <= k < |b[i].tunnels| ensures SameTunnel(b[i].tunnels[k], a[i].tunnels[k]) {
      assert SameTunnel(a[i].tunnels[k], b[i].tunnels[k]);
    }
  }

  lemma IkeTunnelSame(a: Config, b: Config, key: Key)
    requires SameUpToKeying(a, b) && IkeTunnel(a, key)
    ensures IkeTunnel(b, key) && VerdictOf(a, key) == VerdictOf(b, key) && PeerUp(a, key) == PeerUp(b, key)
  {
    hide VerdictOf, PeerOf, Unique, SameUpToKeying, SameTunnel, PeerUp;
    UniqueSame(a, b);
    VerdictSame(a, b, key);
    TunnelSame(a, b, key);
    SwitchesSame(a, b, key.device);
    if PeerUp(a, key) { PeerUpSame(a, b, key); }
    KeyingBack(a, b);
    if PeerUp(b, key) { PeerUpSame(b, a, key); }
  }

  // ---------- what one event does to the status ----------

  lemma NegotiateStatus(lab: Lab, i: nat, seed: Seed, now: real, key: Key)
    requires IkeTunnel(lab.cfg, key)
    ensures var before, after := lab.At(key).status, Negotiate(lab, i, seed, now).At(key).status;
      if i == key.device then after == StatusFor(VerdictOf(lab.cfg, key))
      else after == before || (after == Established && PeerUp(lab.cfg, key))
  {
    hide NegotiateFrom, VerdictOf, PeerOf, Unique;
    if i < |lab.cfg| && SirFamily(lab.cfg[i].kind) {
      if i == key.device {
        OwnStatus(lab, i, 0, seed, now, key.tunnel);
      } else {
        OtherStatus(lab, i, 0, seed, now, key);
        if WillEstablish(lab.cfg, i, 0, key) {
          var m := WillEstablishWitness(lab.cfg, i, 0, key);
          UpHasAddresses(lab.cfg, Key(i, m));
          assert Pair(lab.cfg, Key(i, m), key);
          PairSymmetric(lab.cfg, Key(i, m), key);
        }
      }
    }
  }

  lemma PeerEstablishes(lab: Lab, b: Key, seed: Seed, now: real, key: Key)
    requires Unique(lab.cfg) && Pair(lab.cfg, key, b) && VerdictOf(lab.cfg, b) == Up
    ensures Negotiate(lab, b.device, seed, now).At(key).status == Established
  {
    hide NegotiateFrom, VerdictOf, PeerOf, Unique;
    PairSymmetric(lab.cfg, key, b);
    PairDevices(lab.cfg, key, b);
    OtherStatus(lab, b.device, 0, seed, now, key);
    assert Establishes(lab.cfg, b.device, b.tunnel, key);
    WillEstablishFrom(lab.cfg, b.device, 0, key, b.tunnel);
  }

  /** A poll by the tunnel's device that finds the window of a running timer over. */
  predicate Fires(t: TunnelCfg, device: nat, e: Event, s: Tunnel) {
    e.Sig? && e.device == device && e.signal.Poll? && s.dpd.Detecting? && e.signal.at - s.dpdSince >= Window(t)
  }

  /** Only the tunnel's own negotiation and a poll that fires take an established tunnel down, and
      only a negotiation at an end that would bring the tunnel up establishes it. */
  lemma StepStatus(lab: Lab, e: Event, seed: Seed, key: Key)
    requires IkeTunnel(lab.cfg, key)
    ensures var s, after := lab.At(key), Step(lab, e, seed).At(key).status;
      if e.Ike? && e.device == key.device then after == StatusFor(VerdictOf(lab.cfg, key))
      else if Fires(TunnelOf(lab.cfg, key), key.device, e, s) then after == Wait
      else after == s.status || (after == Established && PeerUp(lab.cfg, key))
  {
    hide Negotiate, VerdictOf, Unique, ManualFrom, SignalFrom, PeerOf, PeerUp, Window;
    match e
    case Ike(i, now) => NegotiateStatus(lab, i, seed, now, key);
    case Keying(i) => if i < |lab.cfg| { ManualSkips(lab, i, 0, key); }
    case Sig(i, s) => if i < |lab.cfg| { SignalEffect(lab, i, 0, s, key); }
  }

  lemma ReachedTunnel(cfg: Config, es: seq<Event>, seed: Seed, key: Key)
    requires IkeTunnel(cfg, key)
    ensures var cfg' := Run(Start(cfg), es, seed).cfg;
      SameUpToKeying(cfg, cfg') && IkeTunnel(cfg', key) && VerdictOf(cfg', key) == VerdictOf(cfg, key)
      && PeerUp(cfg', key) == PeerUp(cfg, key) && Window(TunnelOf(cfg', key)) == Window(TunnelOf(cfg, key))
  {
    hide VerdictOf, PeerOf, Unique, SameUpToKeying, SameTunnel, PeerUp, Run, Window, IkeTunnel;
    SameToItself(cfg);
    RunKeepsTunnels(cfg, Start(cfg), es, seed);
    IkeTunnelSame(cfg, Run(Start(cfg), es, seed).cfg, key);
    assert HasTunnel(cfg, key) by { IkeTunnelExists(cfg, key); }
    TunnelSame(cfg, Run(Start(cfg), es, seed).cfg, key);
  }

  lemma IkeTunnelExists(cfg: Config, key: Key)
    requires IkeTunnel(cfg, key)
    ensures HasTunnel(cfg, key)
  {
    hide Unique, VerdictOf, PeerOf;
  }

  /** A tunnel is established only if one of its ends would bring it up. */
  lemma {:induction false} EstablishedHasReason(cfg: Config, es: seq<Event>, seed: Seed, key: Key)
    requires IkeTunnel(cfg, key) && StatusAfter(cfg, es, seed, key) == Established
    ensures VerdictOf(cfg, key) == Up || PeerUp(cfg, key)
    decreases |es|
  {
    hide VerdictOf, PeerUp, IkeTunnel, Step, Fires, SameUpToKeying;
    if es != [] {
      var p, e := es[..|es| - 1], es[|es| - 1];
      assert p + [e] == es;
      RunSnoc(Start(cfg), p, e, seed);
      ReachedTunnel(cfg, p, seed, key);
      StepStatus(Run(Start(cfg), p, seed), e, seed, key);
      if StatusAfter(cfg, p, seed, key) == Established { EstablishedHasReason(cfg, p, seed, key); }
    }
  }

  lemma StartedPrefix(cfg: Config, es: seq<Event>, seed: Seed, key: Key, n: nat, at: real, m: nat)
    requires Started(cfg, es, seed, key, n, at) && n < m <= |es|
    ensures Started(cfg, es[..m], seed, key, n, at)
  {
    hide StatusAfter, Ends, IsLinkDown;
    assert forall k :: 0 <= k <= m ==> es[..m][..k] == es[..k];
    assert forall k :: 0 <= k < m ==> es[..m][k] == es[k];
  }

  /** While the timer runs, a tunnel whose own verdict is up stays established. */
  lemma {:induction false} StaysEstablished(cfg: Config, es: seq<Event>, seed: Seed, key: Key, n: nat, at: real, m: nat)
    requires IkeTunnel(cfg, key) && VerdictOf(cfg, key) == Up && TunnelOf(cfg, key).dpdUse
    requires Started(cfg, es, seed, key, n, at) && n < m <= |es|
    ensures StatusAfter(cfg, es[..m], seed, key) == Established
    decreases m
  {
    hide VerdictOf, PeerUp, Unique, PeerOf, Step, Window, SameUpToKeying, Run;
    var p, e := es[..m - 1], es[m - 1];
    assert es[..m] == p + [e];
    var lab := Run(Start(cfg), p, seed);
    RunSnoc(Start(cfg), p, e, seed);
    ReachedTunnel(cfg, p, seed, key);
    StepStatus(lab, e, seed, key);
    if m - 1 > n {
      StaysEstablished(cfg, es, seed, key, n, at, m - 1);
      StartedPrefix(cfg, es, seed, key, n, at, m - 1);
      TimerExactly(cfg, p, seed, key, at);
      assert Armed(cfg, p, seed, key, at);
      assert !Ends(TunnelOf(cfg, key), key.device, e, StatusAfter(cfg, p, seed, key), at);
    }
  }

  // ---------- the latest link-down ----------

  /** Event l is the latest link-down of the tunnel's address. */
  ghost predicate LatestDown(cfg: Config, es: seq<Event>, key: Key, l: nat, u: real)
    requires HasTunnel(cfg, key)
  {
    l < |es| && IsLinkDown(cfg, es[l], key, u) && forall m, v :: l < m < |es| ==> !IsLinkDown(cfg, es[m], key, v)
  }

  /** When an event comes; keying by hand and link-ups carry no time. */
  function TimeOf(e: Event): Option<real> {
    match e
    case Ike(_, now) => Some(now)
    case Keying(_) => None
    case Sig(_, s) => if s.LinkUp? then None else Some(s.at)
  }

  /** The clock never goes backwards, up to now. */
  ghost predicate InTime(es: seq<Event>, now: real) {
    (forall i, j :: 0 <= i < j < |es| && TimeOf(es[i]).Some? && TimeOf(es[j]).Some? ==> TimeOf(es[i]).value <= TimeOf(es[j]).value)
    && forall i :: 0 <= i < |es| && TimeOf(es[i]).Some? ==> TimeOf(es[i]).value <= now
  }

  /** Every drop, in every run, comes at least one window after the latest link-down. */
  ghost predicate MeasuredFromLatest(cfg: Config, seed: Seed, key: Key)
    requires HasTunnel(cfg, key)
  {
    forall es: seq<Event>, now: real, l: nat, u: real ::
      InTime(es, now) && Drops(cfg, es, seed, key, now) && LatestDown(cfg, es, key, l, u)
      ==> now - u >= Window(TunnelOf(cfg, key))
  }

  /** DPD with a positive window, on an end without "ipsec use" whose far end has it, where the two
      ends accept each other's proposals: the far end brings up what this end would leave down. */
  ghost predicate Overruled(cfg: Config, key: Key)
    requires HasTunnel(cfg, key)
  {
    TunnelOf(cfg, key).dpdUse && Window(TunnelOf(cfg, key)) > 0.0 && !cfg[key.device].ipsecEnabled
    && exists b :: Pair(cfg, key, b) && cfg[b.device].ipsecEnabled && Compatible(cfg, key, b)
  }

  lemma OverruledMeans(cfg: Config, key: Key)
    requires IkeTunnel(cfg, key)
    ensures HasTunnel(cfg, key)
    ensures Overruled(cfg, key) <==> TunnelOf(cfg, key).dpdUse && Window(TunnelOf(cfg, key)) > 0.0
                                     && VerdictOf(cfg, key) != Up && PeerUp(cfg, key)
  {
    hide VerdictOf, PeerOf, Unique, Window, Compatible;
    IkeTunnelExists(cfg, key);
    forall b | Pair(cfg, key, b)
      ensures (VerdictOf(cfg, key) == Up <==> cfg[key.device].ipsecEnabled && Compatible(cfg, key, b))
        && (VerdictOf(cfg, b) == Up <==> cfg[b.device].ipsecEnabled && Compatible(cfg, key, b))
    {
      PairSymmetric(cfg, key, b);
      UpWhen(cfg, key, b);
      UpWhen(cfg, b, key);
      CompatibleSymmetric(cfg, key, b);
    }
  }

  lemma NoneAfterLatest(cfg: Config, es: seq<Event>, key: Key, l: nat, u: real, n: nat, at: real)
    requires HasTunnel(cfg, key) && LatestDown(cfg, es, key, l, u) && n < |es| && IsLinkDown(cfg, es[n], key, at)
    ensures n <= l
  {}

  lemma LatestIsTheTimers(cfg: Config, es: seq<Event>, seed: Seed, key: Key, now: real, l: nat, u: real)
    requires IkeTunnel(cfg, key) && Drops(cfg, es, seed, key, now) && LatestDown(cfg, es, key, l, u)
    requires !Overruled(cfg, key) && InTime(es, now)
    ensures now - u >= Window(TunnelOf(cfg, key))
  {
    hide VerdictOf, PeerUp, Unique, PeerOf, Window, Run, SignalDevice, NotManual, Overruled, Compatible;
    OverruledMeans(cfg, key);
    DropsExactlyWhen(cfg, es, now, seed, key);
    EstablishedHasReason(cfg, es, seed, key);
    assert TimeOf(es[l]) == Some(u);
    var t := TunnelOf(cfg, key);
    var n: nat, at: real :| Started(cfg, es, seed, key, n, at) && now - at >= Window(t);
    NoneAfterLatest(cfg, es, key, l, u, n, at);
    assert n < l ==> !Ends(t, key.device, es[l], StatusAfter(cfg, es[..l], seed, key), at);
    if n < l && VerdictOf(cfg, key) == Up { StaysEstablished(cfg, es, seed, key, n, at, l); }
  }

  /** The far end establishes the tunnel, its link goes down, its own negotiation fails, its link
      goes down again, and the far end establishes it again. */
  function FailingRun(cfg: Config, key: Key, b: Key, first: real, latest: real): seq<Event>
    requires HasTunnel(cfg, key)
  {
    var ip := TunnelOf(cfg, key).localIp;
    [Ike(b.device, first), Sig(key.device, LinkDown(ip, first)), Ike(key.device, first),
     Sig(key.device, LinkDown(ip, latest)), Ike(b.device, latest)]
  }

  lemma OneMore(cfg: Config, es: seq<Event>, k: nat, seed: Seed)
    requires k < |es|
    ensures Run(Start(cfg), es[..k + 1], seed) == Step(Run(Start(cfg), es[..k], seed), es[k], seed)
  {
    hide Step;
    assert es[..k + 1] == es[..k] + [es[k]];
    RunSnoc(Start(cfg), es[..k], es[k], seed);
  }

  lemma FailingStatuses(cfg: Config, key: Key, b: Key, seed: Seed, first: real, latest: real)
    requires IkeTunnel(cfg, key) && VerdictOf(cfg, key) != Up && Pair(cfg, key, b) && VerdictOf(cfg, b) == Up
    ensures var es := FailingRun(cfg, key, b, first, latest);
      StatusAfter(cfg, es[..1], seed, key) == Established && StatusAfter(cfg, es[..3], seed, key) == Wait
      && StatusAfter(cfg, es, seed, key) == Established
  {
    hide VerdictOf, PeerOf, Unique, Negotiate, SignalDevice, Run;
    var es := FailingRun(cfg, key, b, first, latest);
    var start := Run(Start(cfg), es[..0], seed);
    assert start == Start(cfg) by { NothingRun(cfg, seed); assert es[..0] == []; }
    OneMore(cfg, es, 0, seed);
    OneMore(cfg, es, 1, seed);
    OneMore(cfg, es, 2, seed);
    OneMore(cfg, es, 3, seed);
    OneMore(cfg, es, 4, seed);
    assert es[..5] == es;
    var lab2, lab4 := Run(Start(cfg), es[..2], seed), Run(Start(cfg), es[..4], seed);
    PeerEstablishes(start, b, seed, first, key);
    NegotiateStatus(lab2, key.device, seed, first, key);
    PeerEstablishes(lab4, b, seed, latest, key);
  }

  lemma NothingRun(cfg: Config, seed: Seed)
    ensures Run(Start(cfg), [], seed) == Start(cfg)
  {}

  /** In that run a poll one window after the first link-down drops the tunnel, however recent the
      latest link-down is. */
  lemma FailingRunDrops(cfg: Config, key: Key, b: Key, seed: Seed, first: real, latest: real, now: real)
    requires IkeTunnel(cfg, key) && HasTunnel(cfg, key) && Overruled(cfg, key) && Pair(cfg, key, b)
    requires now - first >= Window(TunnelOf(cfg, key))
    ensures var es := FailingRun(cfg, key, b, first, latest);
      Drops(cfg, es, seed, key, now) && LatestDown(cfg, es, key, 3, latest)
  {
    hide VerdictOf, PeerOf, Unique, Window, StatusAfter, Drops, Compatible, Overruled;
    var es := FailingRun(cfg, key, b, first, latest);
    OverruledMeans(cfg, key);
    OnlyPeer(cfg, key, b);
    assert TunnelOf(cfg, key).dpdUse;
    FailingStatuses(cfg, key, b, seed, first, latest);
    assert Started(cfg, es, seed, key, 1, first);
    DropsExactlyWhen(cfg, es, now, seed, key);
  }

  lemma OnlyPeer(cfg: Config, key: Key, b: Key)
    requires Pair(cfg, key, b) && PeerUp(cfg, key)
    ensures VerdictOf(cfg, b) == Up
  {
    hide VerdictOf, PeerOf;
  }

  /** Drops are measured from the latest link-down, in every run of a clock that never goes
      backwards, if and only if the far end never brings up what this end would leave down: the
      switches, the window and the ends' proposals decide. */
  lemma LatestExactlyWhen(cfg: Config, seed: Seed, key: Key)
    requires IkeTunnel(cfg, key)
    ensures HasTunnel(cfg, key)
    ensures MeasuredFromLatest(cfg, seed, key) <==> !Overruled(cfg, key)
  {
    hide VerdictOf, PeerOf, Unique, Window, Drops, LatestDown, FailingRun, Compatible, InTime;
    IkeTunnelExists(cfg, key);
    if Overruled(cfg, key) {
      var b :| Pair(cfg, key, b);
      var w := Window(TunnelOf(cfg, key));
      FailingRunDrops(cfg, key, b, seed, 0.0, w / 2.0, w);
      FailingRunInTime(cfg, key, b, 0.0, w / 2.0, w);
    } else {
      forall es: seq<Event>, now: real, l: nat, u: real
        | InTime(es, now) && Drops(cfg, es, seed, key, now) && LatestDown(cfg, es, key, l, u)
        ensures now - u >= Window(TunnelOf(cfg, key))
      {
        LatestIsTheTimers(cfg, es, seed, key, now, l, u);
      }
    }
  }

  lemma FailingRunInTime(cfg: Config, key: Key, b: Key, first: real, latest: real, now: real)
    requires HasTunnel(cfg, key) && first <= latest <= now
    ensures InTime(FailingRun(cfg, key, b, first, latest), now)
  {}
}
