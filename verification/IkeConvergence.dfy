/** engine/ike_engine.py and app.py, _trigger_ike_negotiation: once a device has negotiated, the
    status of its IKE tunnels depends on the configuration alone. */
module IkeConvergence {
  import opened Text
  import opened Ike
  import opened IkeTopology
  import opened IkeRuns

  function StatusFor(v: Verdict): Status { if v == Up then Established else Wait }

  // ---------- what one negotiation does to one status ----------

  lemma TunnelStatus(lab: Lab, key: Key, seed: Seed, now: real, other: Key)
    requires HasTunnel(lab.cfg, key)
    ensures var after := NegotiateTunnel(lab, key, seed, now).At(other).status;
      after == if other == key then StatusFor(VerdictOf(lab.cfg, key))
               else if PeerOf(lab.cfg, key) == SirPeer(other) && VerdictOf(lab.cfg, key) == Up then Established
               else lab.At(other).status
  {
    hide VerdictOf, PeerOf;
    PeerInRange(lab.cfg, key);
  }

  /** The tunnel of device i that would establish the given tunnel of another device. */
  ghost predicate Establishes(cfg: Config, i: nat, k: nat, key: Key) {
    HasTunnel(cfg, Key(i, k)) && PeerOf(cfg, Key(i, k)) == SirPeer(key) && VerdictOf(cfg, Key(i, k)) == Up
  }

  lemma {:induction false} OwnStatus(lab: Lab, i: nat, k: nat, seed: Seed, now: real, m: nat)
    requires i < |lab.cfg| && m < |lab.cfg[i].tunnels|
    ensures NegotiateFrom(lab, i, k, seed, now).At(Key(i, m)).status ==
      if k <= m then StatusFor(VerdictOf(lab.cfg, Key(i, m))) else lab.At(Key(i, m)).status
    decreases |lab.cfg[i].tunnels| - k
  {
    hide NegotiateTunnel, VerdictOf, PeerOf;
    if k < |lab.cfg[i].tunnels| {
      TunnelStatus(lab, Key(i, k), seed, now, Key(i, m));
      PeerInRange(lab.cfg, Key(i, k));
      OwnStatus(NegotiateTunnel(lab, Key(i, k), seed, now), i, k + 1, seed, now, m);
    }
  }

  /** Some tunnel of device i, from the k-th on, would establish the given tunnel. */
  ghost predicate WillEstablish(cfg: Config, i: nat, k: nat, key: Key)
    requires i < |cfg|
    decreases |cfg[i].tunnels| - k
  {
    k < |cfg[i].tunnels| && (Establishes(cfg, i, k, key) || WillEstablish(cfg, i, k + 1, key))
  }

  lemma {:induction false} WillEstablishWitness(cfg: Config, i: nat, k: nat, key: Key) returns (m: nat)
    requires i < |cfg| && WillEstablish(cfg, i, k, key)
    ensures Establishes(cfg, i, m, key)
    decreases |cfg[i].tunnels| - k
  {
    hide Establishes;
    if Establishes(cfg, i, k, key) { return k; }
    m := WillEstablishWitness(cfg, i, k + 1, key);
  }

  lemma {:induction false} WillEstablishFrom(cfg: Config, i: nat, k: nat, key: Key, m: nat)
    requires i < |cfg| && Establishes(cfg, i, m, key) && k <= m
    ensures WillEstablish(cfg, i, k, key)
    decreases |cfg[i].tunnels| - k
  {
    hide PeerOf, VerdictOf;
    if k < m { WillEstablishFrom(cfg, i, k + 1, key, m); }
  }

  lemma {:induction false} OtherStatus(lab: Lab, i: nat, k: nat, seed: Seed, now: real, key: Key)
    requires i < |lab.cfg| && key.device != i
    ensures NegotiateFrom(lab, i, k, seed, now).At(key).status ==
      if WillEstablish(lab.cfg, i, k, key) then Established else lab.At(key).status
    decreases |lab.cfg[i].tunnels| - k
  {
    hide NegotiateTunnel, VerdictOf, PeerOf;
    if k < |lab.cfg[i].tunnels| {
      TunnelStatus(lab, Key(i, k), seed, now, key);
      OtherStatus(NegotiateTunnel(lab, Key(i, k), seed, now), i, k + 1, seed, now, key);
    }
  }

  // ---------- one tunnel over a run ----------

  /** The tunnel is an IKE tunnel of the Si-R family, and the verdict is the same from its pair. */
  ghost predicate Steady(cfg: Config, key: Key) {
    Unique(cfg) && NotManual(cfg, key) && SirFamily(cfg[key.device].kind)
    && TunnelOf(cfg, key).localIp != "" && TunnelOf(cfg, key).remoteIp != ""
    && forall b :: Pair(cfg, key, b) ==> (VerdictOf(cfg, key) == Up) == (VerdictOf(cfg, b) == Up)
  }

  lemma NegotiateSteady(lab: Lab, i: nat, seed: Seed, now: real, key: Key)
    requires Steady(lab.cfg, key)
    ensures var after, target := Negotiate(lab, i, seed, now).At(key).status, StatusFor(VerdictOf(lab.cfg, key));
      if i == key.device then after == target else after == target || after == lab.At(key).status
  {
    hide NegotiateFrom, VerdictOf, PeerOf, Unique;
    if i < |lab.cfg| && SirFamily(lab.cfg[i].kind) {
      if i == key.device {
        OwnStatus(lab, i, 0, seed, now, key.tunnel);
      } else {
        OtherStatus(lab, i, 0, seed, now, key);
        if WillEstablish(lab.cfg, i, 0, key) {
          var m := WillEstablishWitness(lab.cfg, i, 0, key);
          UpHasAddresses(lab.cfg, Key(i, m));
          assert Pair(lab.cfg, Key(i, m), key);
          PairSymmetric(lab.cfg, Key(i, m), key);
        }
      }
    }
  }

  lemma SteadySame(a: Config, b: Config, key: Key)
    requires SameUpToKeying(a, b) && Steady(a, key)
    ensures Steady(b, key) && VerdictOf(a, key) == VerdictOf(b, key)
  {
    hide VerdictOf, PeerOf, Unique, SameUpToKeying, SameTunnel;
    UniqueSame(a, b);
    VerdictSame(a, b, key);
    TunnelSame(a, b, key);
    SwitchesSame(a, b, key.device);
    forall c | Pair(b, key, c) ensures (VerdictOf(b, key) == Up) == (VerdictOf(b, c) == Up) {
      PairSame(a, b, key, c);
      PairSymmetric(a, key, c);
      assert NotManual(a, c);
      VerdictSame(a, b, c);
    }
  }

  /** Manual keying does not touch a tunnel that is not manual. */
  lemma {:induction false} ManualSkips(lab: Lab, i: nat, k: nat, key: Key)
    requires i < |lab.cfg| && HasTunnel(lab.cfg, key) && !IsManual(TunnelOf(lab.cfg, key))
    ensures ManualFrom(lab, i, k).At(key) == lab.At(key)
    decreases |lab.cfg[i].tunnels| - k
  {
    hide ManualTunnel, SameUpToKeying;
    if k < |lab.cfg[i].tunnels| {
      var lab' := ManualTunnel(lab, Key(i, k));
      ManualTunnelKeeps(lab, Key(i, k));
      TunnelSame(lab.cfg, lab'.cfg, key);
      SwitchesSame(lab.cfg, lab'.cfg, i);
      ManualOneSkips(lab, Key(i, k), key);
      ManualSkips(lab', i, k + 1, key);
    }
  }

  lemma ManualOneSkips(lab: Lab, k: Key, key: Key)
    requires HasTunnel(lab.cfg, k) && HasTunnel(lab.cfg, key) && !IsManual(TunnelOf(lab.cfg, key))
    ensures ManualTunnel(lab, k).At(key) == lab.At(key)
  {
    hide ManualPeer, ManualUp;
    if IsManual(TunnelOf(lab.cfg, k)) && ManualUp(lab.cfg, k) { ManualUpPeer(lab.cfg, k); }
  }

  predicate IsPoll(e: Event) { e.Sig? && e.signal.Poll? }

  lemma StepSteady(lab: Lab, e: Event, seed: Seed, key: Key)
    requires Steady(lab.cfg, key) && !IsPoll(e)
    ensures var after, target := Step(lab, e, seed), StatusFor(VerdictOf(lab.cfg, key));
      Steady(after.cfg, key) && StatusFor(VerdictOf(after.cfg, key)) == target
      && (after.At(key).status == target || (after.At(key).status == lab.At(key).status && !(e.Ike? && e.device == key.device)))
  {
    hide Negotiate, VerdictOf, Unique, ManualFrom, SignalFrom, SameUpToKeying, PeerOf;
    StepKeeps(lab, e, seed);
    SteadySame(lab.cfg, Step(lab, e, seed).cfg, key);
    match e
    case Ike(i, now) => NegotiateSteady(lab, i, seed, now, key);
    case Keying(i) => if i < |lab.cfg| { ManualSkips(lab, i, 0, key); }
    case Sig(i, s) => if i < |lab.cfg| { SignalEffect(lab, i, 0, s, key); }
  }

  ghost predicate Negotiated(es: seq<Event>, i: nat) { exists e :: e in es && e.Ike? && e.device == i }

  lemma {:induction false} SettledFrom(lab: Lab, es: seq<Event>, seed: Seed, key: Key)
    requires Steady(lab.cfg, key) && forall e :: e in es ==> !IsPoll(e)
    requires lab.At(key).status == StatusFor(VerdictOf(lab.cfg, key)) || Negotiated(es, key.device)
    ensures Run(lab, es, seed).At(key).status == StatusFor(VerdictOf(lab.cfg, key))
    decreases |es|
  {
    hide Step, Steady, VerdictOf;
    if es != [] {
      assert es[0] in es;
      StepSteady(lab, es[0], seed, key);
      assert es == [es[0]] + es[1..];
      SettledFrom(Step(lab, es[0], seed), es[1..], seed, key);
    }
  }

  /** In any run of IKE negotiations, manual keying and link changes, in any order and with any
      repetitions: from the first negotiation by its own device on, an IKE tunnel is established
      exactly when the configuration says so. */
  lemma StatusSettles(lab: Lab, es: seq<Event>, seed: Seed, key: Key)
    requires Steady(lab.cfg, key) && (forall e :: e in es ==> !IsPoll(e)) && Negotiated(es, key.device)
    ensures Run(lab, es, seed).At(key).status == StatusFor(VerdictOf(lab.cfg, key))
  {
    SettledFrom(lab, es, seed, key);
  }

  // ---------- the ends disagree ----------

  /** When one end would bring the tunnel up and the other would not, the outcome depends on the
      order: the same two negotiations leave the second end waiting or established. */
  lemma OrderMattersWhenVerdictsDiffer(lab: Lab, a: Key, b: Key, seed: Seed, now: real)
    requires Unique(lab.cfg) && Pair(lab.cfg, a, b)
    requires VerdictOf(lab.cfg, a) == Up && VerdictOf(lab.cfg, b) != Up
    ensures Run(lab, [Ike(a.device, now), Ike(b.device, now)], seed).At(b).status == Wait
    ensures Run(lab, [Ike(b.device, now), Ike(a.device, now)], seed).At(b).status == Established
  {
    hide NegotiateFrom, VerdictOf, PeerOf, Unique;
    PairSymmetric(lab.cfg, a, b);
    PairDevices(lab.cfg, a, b);
    var ea, eb := Ike(a.device, now), Ike(b.device, now);
    TwoSteps(lab, ea, eb, seed);
    TwoSteps(lab, eb, ea, seed);
    var afterA, afterB := Step(lab, ea, seed), Step(lab, eb, seed);
    OwnStatus(afterA, b.device, 0, seed, now, b.tunnel);
    OtherStatus(afterB, a.device, 0, seed, now, b);
    assert Establishes(afterB.cfg, a.device, a.tunnel, b);
    WillEstablishFrom(afterB.cfg, a.device, 0, b, a.tunnel);
  }

  lemma PairDevices(cfg: Config, a: Key, b: Key)
    requires Pair(cfg, a, b)
    ensures a.device != b.device
  {}

  lemma TwoSteps(lab: Lab, e: Event, f: Event, seed: Seed)
    ensures Run(lab, [e, f], seed) == Step(Step(lab, e, seed), f, seed)
  {
    hide Step;
    assert [e, f][1..] == [f] && [f][1..] == [];
    assert Run(Step(Step(lab, e, seed), f, seed), [], seed) == Step(Step(lab, e, seed), f, seed);
  }

  lemma AgreeingEndsAreSteady(cfg: Config, a: Key, b: Key)
    requires Unique(cfg) && Pair(cfg, a, b) && NotManual(cfg, a)
    requires (VerdictOf(cfg, a) == Up) == (VerdictOf(cfg, b) == Up)
    ensures Steady(cfg, a) && Steady(cfg, b)
  {
    hide VerdictOf, PeerOf, Unique;
    PairSymmetric(cfg, a, b);
    forall c | Pair(cfg, a, c) ensures c == b {}
    forall c | Pair(cfg, b, c) ensures c == a {}
  }

  /** The order in which the two ends of an IKE tunnel negotiate is irrelevant to both statuses
      exactly when, for compatible ends, "ipsec use" is set alike on both devices. */
  lemma OrderIrrelevantExactlyWhen(lab: Lab, a: Key, b: Key, seed: Seed, now: real)
    requires Unique(lab.cfg) && Pair(lab.cfg, a, b) && NotManual(lab.cfg, a)
    ensures var ab := Run(lab, [Ike(a.device, now), Ike(b.device, now)], seed);
      var ba := Run(lab, [Ike(b.device, now), Ike(a.device, now)], seed);
      (ab.At(a).status == ba.At(a).status && ab.At(b).status == ba.At(b).status)
      <==> (Compatible(lab.cfg, a, b) ==> lab.cfg[a.device].ipsecEnabled == lab.cfg[b.device].ipsecEnabled)
  {
    hide Run, VerdictOf, PeerOf, Unique, Compatible, Steady;
    SameVerdictExactlyWhen(lab.cfg, a, b);
    var upA, upB := VerdictOf(lab.cfg, a) == Up, VerdictOf(lab.cfg, b) == Up;
    if upA == upB {
      AgreeingEndsAreSteady(lab.cfg, a, b);
      var ea, eb := Ike(a.device, now), Ike(b.device, now);
      assert ea in [ea, eb] && eb in [ea, eb] && ea in [eb, ea] && eb in [eb, ea];
      StatusSettles(lab, [ea, eb], seed, a);
      StatusSettles(lab, [ea, eb], seed, b);
      StatusSettles(lab, [eb, ea], seed, a);
      StatusSettles(lab, [eb, ea], seed, b);
    } else if upA {
      OrderMattersWhenVerdictsDiffer(lab, a, b, seed, now);
    } else {
      OrderMattersWhenVerdictsDiffer(lab, b, a, seed, now);
    }
  }

  // ---------- the cascade ----------

  /** The devices the cascade of device i runs on: those with a tunnel or an interface at one of
      the remote addresses of i. */
  predicate CascadeTarget(cfg: Config, i: nat, j: nat) {
    i < |cfg| && j < |cfg| && j != i && exists t :: t in cfg[i].tunnels && t.remoteIp != "" && HasAddress(cfg[j], t.remoteIp)
  }

  predicate HasAddress(d: Device, ip: string) {
    (exists u :: u in d.tunnels && u.localIp == ip) || ip in d.addresses
  }

  /** A cascade started by device i: its own two negotiations first, then, if there is a tunnel at
      all, those of every target, in some order and possibly repeated. */
  ghost predicate IsCascade(cfg: Config, i: nat, es: seq<Event>) {
    |es| >= 2 && es[0].Ike? && es[0].device == i && es[1] == Keying(i)
    && (forall e :: e in es ==> !e.Sig?)
    && forall j :: CascadeTarget(cfg, i, j) ==> Negotiated(es, j)
  }

  /** One cascade settles both ends of every steady tunnel of the device that started it. */
  lemma CascadeSettlesBothEnds(lab: Lab, es: seq<Event>, seed: Seed, a: Key, b: Key)
    requires IsCascade(lab.cfg, a.device, es) && Pair(lab.cfg, a, b)
    requires Steady(lab.cfg, a)
    ensures var after := Run(lab, es, seed);
      after.At(a).status == after.At(b).status == StatusFor(VerdictOf(lab.cfg, a))
  {
    hide Run, VerdictOf, PeerOf, Unique;
    PairSymmetric(lab.cfg, a, b);
    PairEnds(lab.cfg, a, b);
    assert es[0] in es;
    var t, u := TunnelOf(lab.cfg, a), TunnelOf(lab.cfg, b);
    assert t in lab.cfg[a.device].tunnels && u in lab.cfg[b.device].tunnels;
    assert CascadeTarget(lab.cfg, a.device, b.device);
    forall c | Pair(lab.cfg, b, c) ensures c == a {}
    assert Steady(lab.cfg, b);
    StatusSettles(lab, es, seed, a);
    StatusSettles(lab, es, seed, b);
  }
}
