/** engine/ike_engine.py: dead-peer detection as a lazily polled timer. */
module IkeDpd {
  import opened Text
  import opened Ike
  import opened IkeTopology
  import opened IkeRuns

  // ---------- polling ----------

  lemma PollTunnelTwice(t: TunnelCfg, s: Tunnel, t1: real, t2: real)
    requires t1 <= t2
    ensures PollTunnel(t, PollTunnel(t, s, t1), t2) == PollTunnel(t, s, t2)
  {
    hide Window;
  }

  ghost predicate SameTunnels(a: Lab, b: Lab) {
    a.cfg == b.cfg && a.sas == b.sas && forall key :: a.At(key) == b.At(key)
  }

  lemma {:induction false} SignalKeepsSas(lab: Lab, i: nat, k: nat, s: Signal)
    requires i < |lab.cfg|
    ensures SignalFrom(lab, i, k, s).sas == lab.sas
    decreases |lab.cfg[i].tunnels| - k
  {
    hide Signalled;
    if k < |lab.cfg[i].tunnels| {
      SignalKeepsSas(lab.With(Key(i, k), Signalled(lab.cfg[i].tunnels[k], lab.At(Key(i, k)), s)), i, k + 1, s);
    }
  }

  /** With nothing in between, polling at t1 and again at t2 leaves every tunnel as polling only
      at t2 does: it does not matter how often a show command looks. */
  lemma PollingIsConfluent(lab: Lab, i: nat, t1: real, t2: real)
    requires t1 <= t2
    ensures SameTunnels(SignalDevice(SignalDevice(lab, i, Poll(t1)), i, Poll(t2)), SignalDevice(lab, i, Poll(t2)))
  {
    hide PollTunnel;
    if i < |lab.cfg| {
      var once := SignalFrom(lab, i, 0, Poll(t1));
      SignalKeepsSas(lab, i, 0, Poll(t1));
      SignalKeepsSas(lab, i, 0, Poll(t2));
      SignalKeepsSas(once, i, 0, Poll(t2));
      forall key ensures SignalFrom(once, i, 0, Poll(t2)).At(key) == SignalFrom(lab, i, 0, Poll(t2)).At(key) {
        SignalEffect(lab, i, 0, Poll(t1), key);
        SignalEffect(lab, i, 0, Poll(t2), key);
        SignalEffect(once, i, 0, Poll(t2), key);
        if HasTunnel(lab.cfg, key) { PollTunnelTwice(TunnelOf(lab.cfg, key), lab.At(key), t1, t2); }
      }
    }
  }

  /** What a signal does to a tunnel record, in every state: a link-down starts the timer of an
      established tunnel that has dead-peer detection on, a link-up stops a running timer, a poll
      drops the tunnel once the window is over, and other tunnels and fields stay. */
  lemma SignalsExactly(lab: Lab, i: nat, s: Signal, key: Key)
    ensures var after := SignalDevice(lab, i, s).At(key);
      var x := lab.At(key);
      if !HasTunnel(lab.cfg, key) || key.device != i then after == x
      else
        var t := TunnelOf(lab.cfg, key);
        if s.LinkDown? && s.ip == t.localIp && x.status == Established && t.dpdUse then after == x.(dpd := Detecting, dpdSince := s.at)
        else if s.LinkUp? && s.ip == t.localIp && x.dpd == Detecting then after == x.(dpd := Idle, dpdSince := 0.0)
        else if s.Poll? && x.dpd == Detecting && s.at - x.dpdSince >= DetectTime(t) then
          after == x.(status := Wait, phase1 := Dying, phase2 := Dying, dpd := Down)
        else after == x
  {
    hide SignalFrom;
    if i < |lab.cfg| { SignalEffect(lab, i, 0, s, key); }
  }

  /** The idle time and all retries; 10 s and three times 1 s where nothing is configured. */
  function DetectTime(t: TunnelCfg): real {
    (match t.dpdIdle case Some(v) => v case None => 10.0)
    + (match t.dpdRetryTime case Some(v) => v case None => 1.0) * (match t.dpdRetryCount case Some(v) => v case None => 3.0)
  }

  // ---------- negotiation and the timer ----------

  /** IKE and manual negotiation never touch the timer. */
  ghost predicate TimersKept(a: Lab, b: Lab) {
    forall key :: b.At(key).dpd == a.At(key).dpd && b.At(key).dpdSince == a.At(key).dpdSince
  }

  lemma Phase1Timers(lab: Lab, key: Key, peer: Peer, life: int)
    ensures TimersKept(lab, Phase1Done(lab, key, peer, life))
  {}

  lemma InstalledTimers(lab: Lab, key: Key, peer: Peer, ip: string, spiIn: int, spiOut: int, life: int, now: real)
    requires peer.CiscoPeer? ==> peer.device < |lab.cfg|
    ensures TimersKept(lab, Installed(lab, key, peer, ip, spiIn, spiOut, life, now))
  {}

  lemma WithTimers(lab: Lab, key: Key, t: Tunnel)
    requires t.dpd == lab.At(key).dpd && t.dpdSince == lab.At(key).dpdSince
    ensures TimersKept(lab, lab.With(key, t))
  {}

  lemma TimersTransitive(a: Lab, b: Lab, c: Lab)
    requires TimersKept(a, b) && TimersKept(b, c)
    ensures TimersKept(a, c)
  {}

  lemma NegotiateTunnelTimers(lab: Lab, key: Key, seed: Seed, now: real)
    requires HasTunnel(lab.cfg, key)
    ensures TimersKept(lab, NegotiateTunnel(lab, key, seed, now))
  {
    hide VerdictOf, PeerOf, Phase1Done, Installed, TimersKept, Lab.With;
    PeerInRange(lab.cfg, key);
    var t, own, peer := TunnelOf(lab.cfg, key), lab.At(key), PeerOf(lab.cfg, key);
    var life := OrElse(t.ikeLifetime, 86400);
    match VerdictOf(lab.cfg, key)
    case NoAddress => WithTimers(lab, key, own.(status := Wait, phase1 := Larval, phase2 := Larval));
    case Unanswered => WithTimers(lab, key, own.(status := Wait, phase1 := Larval));
    case Phase1Failed =>
      var lab1 := lab.With(key, own.(status := Wait, phase1 := Dying));
      WithTimers(lab, key, own.(status := Wait, phase1 := Dying));
      if peer.SirPeer? {
        WithTimers(lab1, peer.key, lab1.At(peer.key).(phase1 := Dying));
        TimersTransitive(lab, lab1, lab1.With(peer.key, lab1.At(peer.key).(phase1 := Dying)));
      }
    case Phase2Failed =>
      var lab1 := Phase1Done(lab, key, peer, life);
      Phase1Timers(lab, key, peer, life);
      WithTimers(lab1, key, lab1.At(key).(status := Wait, phase2 := Dying));
      TimersTransitive(lab, lab1, lab1.With(key, lab1.At(key).(status := Wait, phase2 := Dying)));
    case Up =>
      var lab1 := Phase1Done(lab, key, peer, life);
      Phase1Timers(lab, key, peer, life);
      var s := seed(t.localIp + t.remoteIp + t.tid);
      InstalledTimers(lab1, key, peer, t.localIp, s % WORD, (s / 16) % WORD, OrElse(t.saLifetime, 28800), now);
      TimersTransitive(lab, lab1, NegotiateTunnel(lab, key, seed, now));
  }

  lemma {:induction false} NegotiateTimers(lab: Lab, i: nat, k: nat, seed: Seed, now: real)
    requires i < |lab.cfg|
    ensures TimersKept(lab, NegotiateFrom(lab, i, k, seed, now))
    decreases |lab.cfg[i].tunnels| - k
  {
    hide NegotiateTunnel;
    if k < |lab.cfg[i].tunnels| {
      NegotiateTunnelTimers(lab, Key(i, k), seed, now);
      NegotiateTimers(NegotiateTunnel(lab, Key(i, k), seed, now), i, k + 1, seed, now);
    }
  }

  lemma ManualTunnelTimers(lab: Lab, key: Key)
    requires HasTunnel(lab.cfg, key)
    ensures TimersKept(lab, ManualTunnel(lab, key))
  {
    hide ManualPeer, ManualUp, Keyed;
    if IsManual(TunnelOf(lab.cfg, key)) && ManualUp(lab.cfg, key) { ManualUpPeer(lab.cfg, key); }
  }

  lemma {:induction false} ManualTimers(lab: Lab, i: nat, k: nat)
    requires i < |lab.cfg|
    ensures TimersKept(lab, ManualFrom(lab, i, k))
    decreases |lab.cfg[i].tunnels| - k
  {
    hide ManualTunnel, SameUpToKeying;
    if k < |lab.cfg[i].tunnels| {
      ManualTunnelTimers(lab, Key(i, k));
      ManualTunnelKeeps(lab, Key(i, k));
      SwitchesSame(lab.cfg, ManualTunnel(lab, Key(i, k)).cfg, i);
      ManualTimers(ManualTunnel(lab, Key(i, k)), i, k + 1);
    }
  }

  // ---------- what runs the timer ----------

  function Start(cfg: Config): Lab { Lab(cfg, map[], map[]) }

  /** The tunnel's status after a run from untouched tunnels. */
  function StatusAfter(cfg: Config, es: seq<Event>, seed: Seed, key: Key): Status { Run(Start(cfg), es, seed).At(key).status }

  /** The event ends a timer started at this time: the link comes up, goes down while the tunnel is
      established, which restarts the timer, or a poll finds the window over. */
  predicate Ends(t: TunnelCfg, device: nat, e: Event, status: Status, at: real) {
    e.Sig? && e.device == device
    && match e.signal
       case LinkUp(ip) => ip == t.localIp
       case LinkDown(ip, _) => ip == t.localIp && status == Established
       case Poll(p) => p - at >= Window(t)
  }

  predicate IsLinkDown(cfg: Config, e: Event, key: Key, at: real)
    requires HasTunnel(cfg, key)
  {
    e == Sig(key.device, LinkDown(TunnelOf(cfg, key).localIp, at))
  }

  /** Event n of the run took the tunnel's link down at this time and found the tunnel established,
      and nothing since has ended the timer. */
  ghost predicate Started(cfg: Config, es: seq<Event>, seed: Seed, key: Key, n: nat, at: real) {
    HasTunnel(cfg, key) && n < |es| && IsLinkDown(cfg, es[n], key, at)
    && StatusAfter(cfg, es[..n], seed, key) == Established
    && forall m :: n < m < |es| ==> !Ends(TunnelOf(cfg, key), key.device, es[m], StatusAfter(cfg, es[..m], seed, key), at)
  }

  ghost predicate Armed(cfg: Config, es: seq<Event>, seed: Seed, key: Key, at: real) {
    HasTunnel(cfg, key) && TunnelOf(cfg, key).dpdUse && exists n: nat :: Started(cfg, es, seed, key, n, at)
  }

  predicate Runs(s: Tunnel, at: real) { s.dpd.Detecting? && s.dpdSince == at }

  lemma {:induction false} RunSnoc(lab: Lab, es: seq<Event>, e: Event, seed: Seed)
    ensures Run(lab, es + [e], seed) == Step(Run(lab, es, seed), e, seed)
    decreases |es|
  {
    hide Step;
    if es == [] {
      assert es + [e] == [e] && [e][1..] == [];
      assert Run(Step(lab, e, seed), [], seed) == Step(lab, e, seed);
    } else {
      assert (es + [e])[1..] == es[1..] + [e];
      RunSnoc(Step(lab, es[0], seed), es[1..], e, seed);
    }
  }

  /** One more event: an earlier start stands if the event does not end it, and the event itself may
      be a start. */
  lemma StartedSnoc(cfg: Config, es: seq<Event>, e: Event, seed: Seed, key: Key, n: nat, at: real)
    requires HasTunnel(cfg, key)
    ensures var status := StatusAfter(cfg, es, seed, key);
      Started(cfg, es + [e], seed, key, n, at) <==>
        if n < |es| then Started(cfg, es, seed, key, n, at) && !Ends(TunnelOf(cfg, key), key.device, e, status, at)
        else n == |es| && IsLinkDown(cfg, e, key, at) && status == Established
  {
    hide Ends, StatusAfter, IsLinkDown;
    var all := es + [e];
    assert forall m :: 0 <= m <= |es| ==> all[..m] == es[..m];
    assert es[..|es|] == es;
    assert forall m :: 0 <= m < |es| ==> all[m] == es[m];
    if n < |es| {
      assert Started(cfg, all, seed, key, n, at) ==> !Ends(TunnelOf(cfg, key), key.device, all[|es|], StatusAfter(cfg, all[..|es|], seed, key), at);
    }
  }

  lemma ArmedSnoc(cfg: Config, es: seq<Event>, e: Event, seed: Seed, key: Key, at: real)
    requires HasTunnel(cfg, key)
    ensures var t, status := TunnelOf(cfg, key), StatusAfter(cfg, es, seed, key);
      Armed(cfg, es + [e], seed, key, at) <==>
        (Armed(cfg, es, seed, key, at) && !Ends(t, key.device, e, status, at))
        || (t.dpdUse && IsLinkDown(cfg, e, key, at) && status == Established)
  {
    hide Started, Ends, StatusAfter, IsLinkDown;
    forall n: nat ensures StartedSnocAt(cfg, es, e, seed, key, n, at) { StartedSnoc(cfg, es, e, seed, key, n, at); }
    assert StartedSnocAt(cfg, es, e, seed, key, |es|, at);
    forall n: nat ensures Started(cfg, es + [e], seed, key, n, at) ==>
      (n < |es| && Started(cfg, es, seed, key, n, at)) || n == |es|
    {
      assert StartedSnocAt(cfg, es, e, seed, key, n, at);
    }
    if Armed(cfg, es, seed, key, at) && !Ends(TunnelOf(cfg, key), key.device, e, StatusAfter(cfg, es, seed, key), at) {
      var n: nat :| Started(cfg, es, seed, key, n, at);
      StartedInRange(cfg, es, seed, key, n, at);
      assert StartedSnocAt(cfg, es, e, seed, key, n, at);
    }
    if Armed(cfg, es + [e], seed, key, at) {
      var n: nat :| Started(cfg, es + [e], seed, key, n, at);
      assert StartedSnocAt(cfg, es, e, seed, key, n, at);
    }
  }

  ghost predicate StartedSnocAt(cfg: Config, es: seq<Event>, e: Event, seed: Seed, key: Key, n: nat, at: real)
    requires HasTunnel(cfg, key)
  {
    Started(cfg, es + [e], seed, key, n, at) <==>
      if n < |es| then Started(cfg, es, seed, key, n, at) && !Ends(TunnelOf(cfg, key), key.device, e, StatusAfter(cfg, es, seed, key), at)
      else n == |es| && IsLinkDown(cfg, e, key, at) && StatusAfter(cfg, es, seed, key) == Established
  }

  lemma StartedInRange(cfg: Config, es: seq<Event>, seed: Seed, key: Key, n: nat, at: real)
    requires Started(cfg, es, seed, key, n, at)
    ensures n < |es| && HasTunnel(cfg, key) && IsLinkDown(cfg, es[n], key, at)
  {}

  lemma TunnelBack(cfg: Config, cfg': Config, key: Key)
    requires SameUpToKeying(cfg, cfg') && HasTunnel(cfg', key)
    ensures HasTunnel(cfg, key) && TunnelOf(cfg, key).localIp == TunnelOf(cfg', key).localIp
    ensures TunnelOf(cfg, key).dpdUse == TunnelOf(cfg', key).dpdUse && Window(TunnelOf(cfg, key)) == Window(TunnelOf(cfg', key))
  {
    hide SameTunnel, Window;
    assert |cfg[key.device].tunnels| == |cfg'[key.device].tunnels|;
    TunnelSame(cfg, cfg', key);
  }

  /** What one event does to the timer of one tunnel. */
  lemma StepTimer(cfg: Config, lab: Lab, e: Event, seed: Seed, key: Key, at: real)
    requires SameUpToKeying(cfg, lab.cfg) && HasTunnel(cfg, key)
    ensures var t, s := TunnelOf(cfg, key), lab.At(key);
      Runs(Step(lab, e, seed).At(key), at) <==>
        (Runs(s, at) && !(Ends(t, key.device, e, s.status, at) && (t.dpdUse || !e.signal.LinkDown?)))
        || (t.dpdUse && IsLinkDown(cfg, e, key, at) && s.status == Established)
  {
    hide SameUpToKeying, SameTunnel, Window, NegotiateFrom, ManualFrom, SignalFrom;
    TunnelSame(cfg, lab.cfg, key);
    match e
    case Ike(i, now) => if i < |lab.cfg| { NegotiateTimers(lab, i, 0, seed, now); }
    case Keying(i) => if i < |lab.cfg| { ManualTimers(lab, i, 0); }
    case Sig(i, s) => if i < |lab.cfg| { SignalEffect(lab, i, 0, s, key); }
  }

  lemma {:induction false} RunKeepsTunnels(cfg: Config, lab: Lab, es: seq<Event>, seed: Seed)
    requires SameUpToKeying(cfg, lab.cfg)
    ensures SameUpToKeying(cfg, Run(lab, es, seed).cfg)
    decreases |es|
  {
    hide SameUpToKeying, Step;
    if es != [] {
      StepKeeps(lab, es[0], seed);
      KeyingTransitive(cfg, lab.cfg, Step(lab, es[0], seed).cfg);
      RunKeepsTunnels(cfg, Step(lab, es[0], seed), es[1..], seed);
    }
  }

  /** In every run the timer of a tunnel runs since a given time if and only if DPD is on for it and
      a link-down at that time found it established and nothing has ended the timer since. */
  lemma {:induction false} TimerExactly(cfg: Config, es: seq<Event>, seed: Seed, key: Key, at: real)
    requires HasTunnel(cfg, key)
    ensures Runs(Run(Start(cfg), es, seed).At(key), at) <==> Armed(cfg, es, seed, key, at)
    decreases |es|
  {
    hide SameUpToKeying, Step, Started, Ends, IsLinkDown;
    if es == [] {
      assert forall n: nat :: !Started(cfg, es, seed, key, n, at) by { NothingStarted(cfg, seed, key, at); }
    } else {
      var p, e := es[..|es| - 1], es[|es| - 1];
      assert p + [e] == es;
      TimerExactly(cfg, p, seed, key, at);
      RunSnoc(Start(cfg), p, e, seed);
      SameToItself(cfg);
      RunKeepsTunnels(cfg, Start(cfg), p, seed);
      StepTimer(cfg, Run(Start(cfg), p, seed), e, seed, key, at);
      ArmedSnoc(cfg, p, e, seed, key, at);
    }
  }

  lemma NothingStarted(cfg: Config, seed: Seed, key: Key, at: real)
    ensures forall n: nat :: !Started(cfg, [], seed, key, n, at)
  {}

  // ---------- why and when a tunnel is dropped ----------

  ghost predicate Drops(cfg: Config, es: seq<Event>, seed: Seed, key: Key, now: real) {
    StatusAfter(cfg, es, seed, key) == Established
    && SignalDevice(Run(Start(cfg), es, seed), key.device, Poll(now)).At(key).status == Wait
  }

  /** After any run from untouched tunnels, a poll turns an established tunnel to waiting if and only
      if DPD is on for it and one whole detection window has passed since the last link-down that
      found it established, with no link-up and no poll that found the window over in between. */
  lemma DropsExactlyWhen(cfg: Config, es: seq<Event>, now: real, seed: Seed, key: Key)
    ensures Drops(cfg, es, seed, key, now) <==>
      HasTunnel(cfg, key) && TunnelOf(cfg, key).dpdUse && StatusAfter(cfg, es, seed, key) == Established
      && exists n: nat, at: real :: Started(cfg, es, seed, key, n, at) && now - at >= Window(TunnelOf(cfg, key))
  {
    hide Run, SameUpToKeying, Started, Window, SameTunnel, SignalFrom;
    var lab := Run(Start(cfg), es, seed);
    SameToItself(cfg);
    RunKeepsTunnels(cfg, Start(cfg), es, seed);
    if key.device < |lab.cfg| { SignalEffect(lab, key.device, 0, Poll(now), key); }
    if HasTunnel(lab.cfg, key) || HasTunnel(cfg, key) {
      if HasTunnel(lab.cfg, key) { TunnelBack(cfg, lab.cfg, key); }
      TunnelSame(cfg, lab.cfg, key);
      var t, since := TunnelOf(cfg, key), lab.At(key).dpdSince;
      assert Drops(cfg, es, seed, key, now) <==> lab.At(key).status == Established && Runs(lab.At(key), since) && now - since >= Window(t);
      TimerExactly(cfg, es, seed, key, since);
      if n: nat, at: real :| Started(cfg, es, seed, key, n, at) && now - at >= Window(t) && t.dpdUse {
        TimerExactly(cfg, es, seed, key, at);
        assert Armed(cfg, es, seed, key, at);
      }
    }
  }

  /** The last link-down of the tunnel that found it established, and no link-up after it. */
  ghost predicate LastEffectiveDown(cfg: Config, es: seq<Event>, seed: Seed, key: Key, n: nat, at: real)
    requires HasTunnel(cfg, key)
  {
    n < |es| && IsLinkDown(cfg, es[n], key, at) && StatusAfter(cfg, es[..n], seed, key) == Established
    && (forall m, u :: n < m < |es| && IsLinkDown(cfg, es[m], key, u) ==> StatusAfter(cfg, es[..m], seed, key) != Established)
    && forall m :: n < m < |es| ==> es[m] != Sig(key.device, LinkUp(TunnelOf(cfg, key).localIp))
  }

  /** So a drop is always measured from the last link-down that found the tunnel established. */
  lemma DropsOnlyAfterSilentWindow(cfg: Config, es: seq<Event>, now: real, seed: Seed, key: Key)
    requires Drops(cfg, es, seed, key, now)
    ensures HasTunnel(cfg, key) && TunnelOf(cfg, key).dpdUse
      && exists n: nat, at: real :: LastEffectiveDown(cfg, es, seed, key, n, at) && now - at >= Window(TunnelOf(cfg, key))
  {
    hide Run, StatusAfter, Window, Drops;
    DropsExactlyWhen(cfg, es, now, seed, key);
    var n: nat, at: real :| Started(cfg, es, seed, key, n, at) && now - at >= Window(TunnelOf(cfg, key));
    var t := TunnelOf(cfg, key);
    forall m, u | n < m < |es| && IsLinkDown(cfg, es[m], key, u) ensures StatusAfter(cfg, es[..m], seed, key) != Established {
      assert !Ends(t, key.device, es[m], StatusAfter(cfg, es[..m], seed, key), at);
    }
    forall m | n < m < |es| ensures es[m] != Sig(key.device, LinkUp(t.localIp)) {
      assert !Ends(t, key.device, es[m], StatusAfter(cfg, es[..m], seed, key), at);
    }
    assert LastEffectiveDown(cfg, es, seed, key, n, at);
  }

  /** A poll right after a link-down of an established tunnel drops it exactly when DPD is on and the
      whole window has passed since that link-down, whatever the timer did before. */
  lemma DropsExactlyAfterWindow(cfg: Config, es: seq<Event>, seed: Seed, key: Key, down: real, now: real)
    requires HasTunnel(cfg, key) && StatusAfter(cfg, es, seed, key) == Established
    ensures var t, lab := TunnelOf(cfg, key), Run(Start(cfg), es, seed);
      var after := SignalDevice(SignalDevice(lab, key.device, LinkDown(t.localIp, down)), key.device, Poll(now));
      after.At(key).status == Wait <==> t.dpdUse && now - down >= Window(t)
  {
    hide Run, SameUpToKeying, Window, SameTunnel, Armed, SignalFrom;
    var t, lab := TunnelOf(cfg, key), Run(Start(cfg), es, seed);
    SameToItself(cfg);
    RunKeepsTunnels(cfg, Start(cfg), es, seed);
    TunnelSame(cfg, lab.cfg, key);
    TimerExactly(cfg, es, seed, key, lab.At(key).dpdSince);
    assert lab.At(key).dpd.Detecting? ==> t.dpdUse by { NeverArmedWithoutDpd(cfg, es, seed, key, lab.At(key).dpdSince); }
    var lab1 := SignalFrom(lab, key.device, 0, LinkDown(t.localIp, down));
    SignalEffect(lab, key.device, 0, LinkDown(t.localIp, down), key);
    SignalEffect(lab1, key.device, 0, Poll(now), key);
  }

  lemma NeverArmedWithoutDpd(cfg: Config, es: seq<Event>, seed: Seed, key: Key, at: real)
    ensures Armed(cfg, es, seed, key, at) ==> HasTunnel(cfg, key) && TunnelOf(cfg, key).dpdUse
  {
    hide Started;
  }
}
