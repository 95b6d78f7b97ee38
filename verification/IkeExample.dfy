/** engine/ike_engine.py: two devices on which the ends of a tunnel disagree. */
module IkeExample {
  import opened Text
  import opened Ike
  import opened IkeTopology
  import opened IkeRuns
  import opened IkeConvergence
  import opened IkeDpd
  import opened IkeDpdLatest

  const NO_KEY := KeyCfg(None, None, None, None, None, None)
  const NO_CRYPTO := Crypto(map[], map[], false, None, None, None)

  /** A tunnel with defaults, a preshared key and DPD. */
  function ExampleTunnel(localIp: string, remoteIp: string): TunnelCfg {
    TunnelCfg("1", localIp, remoteIp, "ike", "secret", None, None, None, None, None, None, None, NO_KEY, NO_KEY,
              true, None, None, None)
  }

  function ExampleDevice(id: string, ipsec: bool, localIp: string, remoteIp: string): Device {
    Device(id, Sir, true, ipsec, [ExampleTunnel(localIp, remoteIp)], [], NO_CRYPTO, {})
  }

  /** "ipsec use" is set on the first device only. */
  const EXAMPLE: Config := [ExampleDevice("a", true, "1", "2"), ExampleDevice("b", false, "2", "1")]
  const ON := Key(0, 0)
  const OFF := Key(1, 0)

  lemma ExampleOwners()
    ensures forall ip :: (Owns(EXAMPLE[0], ip) <==> ip == "1") && (Owns(EXAMPLE[1], ip) <==> ip == "2")
  {
    assert ExampleTunnel("1", "2") in EXAMPLE[0].tunnels && ExampleTunnel("2", "1") in EXAMPLE[1].tunnels;
  }

  lemma ExampleUnique()
    ensures Unique(EXAMPLE)
  {
    hide Owns;
    ExampleOwners();
    assert "1" != "2";
    forall i, j, ip | 0 <= i < j < |EXAMPLE| && ip != "" ensures !(Owns(EXAMPLE[i], ip) && Owns(EXAMPLE[j], ip)) {
      assert i == 0 && j == 1;
    }
  }

  lemma ExamplePair()
    ensures Pair(EXAMPLE, ON, OFF) && Pair(EXAMPLE, OFF, ON)
  {
    hide Owns, Unique, FindPeer;
    ExampleOwners();
    ExampleUnique();
    FindsOwner(EXAMPLE, 0, "2", 1);
    FindsOwner(EXAMPLE, 1, "1", 0);
  }

  lemma ExampleVerdicts()
    ensures VerdictOf(EXAMPLE, ON) == Up && VerdictOf(EXAMPLE, OFF) != Up
    ensures Window(TunnelOf(EXAMPLE, OFF)) == 13.0 && IkeTunnel(EXAMPLE, OFF) && Overruled(EXAMPLE, OFF)
  {
    hide PeerOf, Unique, NormEnc, NormHash, NormDh, Lower;
    ExampleUnique();
    ExamplePair();
  }

  /** The same two negotiations, in two orders, leave the end without "ipsec use" waiting or
      established. */
  lemma OrderDecidesHere(seed: Seed, now: real)
    ensures Run(Start(EXAMPLE), [Ike(0, now), Ike(1, now)], seed).At(OFF).status == Wait
    ensures Run(Start(EXAMPLE), [Ike(1, now), Ike(0, now)], seed).At(OFF).status == Established
  {
    hide Run, VerdictOf, Pair, Unique;
    ExampleUnique();
    ExamplePair();
    ExampleVerdicts();
    OrderMattersWhenVerdictsDiffer(Start(EXAMPLE), ON, OFF, seed, now);
  }

  /** Link-downs at 0 and 5 and a window of 13: the poll at 13 drops the tunnel 8 after the latest. */
  lemma DropBeforeTheWindow(seed: Seed)
    ensures var es := FailingRun(EXAMPLE, OFF, ON, 0.0, 5.0);
      InTime(es, 13.0) && Drops(EXAMPLE, es, seed, OFF, 13.0) && LatestDown(EXAMPLE, es, OFF, 3, 5.0)
      && 13.0 - 5.0 < Window(TunnelOf(EXAMPLE, OFF))
  {
    hide VerdictOf, Pair, Drops, LatestDown, FailingRun, IkeTunnel, Overruled, Window, InTime;
    ExamplePair();
    ExampleVerdicts();
    FailingRunDrops(EXAMPLE, OFF, ON, seed, 0.0, 5.0, 13.0);
    FailingRunInTime(EXAMPLE, OFF, ON, 0.0, 5.0, 13.0);
  }
}
