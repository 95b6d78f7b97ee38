/** engine/ike_engine.py: IKE and manual-key negotiation and dead-peer detection, on the
    configuration of all devices and the state of every tunnel. */
module Ike {
  import opened Text

  // ---------- configuration ----------

  datatype Kind = Sir | Srs | Yamaha | Fortigate | Cisco | Catalyst | Asa | OtherKind

  predicate SirFamily(k: Kind) { k.Sir? || k.Srs? || k.Yamaha? || k.Fortigate? }
  predicate CiscoFamily(k: Kind) { k.Cisco? || k.Catalyst? || k.Asa? }
  predicate ManualCapable(k: Kind) { k.Sir? || k.Srs? || k.Yamaha? }

  /** One direction of a manual key; an unset entry is None. */
  datatype KeyCfg = KeyCfg(protocol: Option<string>, spi: Option<int>, encAlgo: Option<string>, encKey: Option<string>,
                           authAlgo: Option<string>, authKey: Option<string>)

  /** What is configured for one tunnel; an unset address or preshared key is "". */
  datatype TunnelCfg = TunnelCfg(tid: string, localIp: string, remoteIp: string, ipsecType: string, preshared: string,
                                 encryption: Option<string>, hash: Option<string>, dhGroup: Option<string>,
                                 ikeMode: Option<string>, protocol: Option<string>,
                                 ikeLifetime: Option<int>, saLifetime: Option<int>,
                                 send: KeyCfg, receive: KeyCfg,
                                 dpdUse: bool, dpdIdle: Option<real>, dpdRetryTime: Option<real>, dpdRetryCount: Option<real>)

  /** The part of a Cisco configuration that negotiation reads: keys by peer, and the first policy. */
  datatype Crypto = Crypto(groupKeys: map<string, string>, isakmpKeys: map<string, string>, enabled: bool,
                           encryption: Option<string>, hash: Option<string>, group: Option<string>)

  datatype Device = Device(id: string, kind: Kind, ikeEnabled: bool, ipsecEnabled: bool, tunnels: seq<TunnelCfg>,
                           addresses: seq<string>, crypto: Crypto, neighbours: set<string>)

  type Config = seq<Device>

  // ---------- tunnel state ----------

  datatype Status = Wait | Established
  datatype Phase = Unset | Larval | Mature | Dying
  datatype Dpd = Idle | Detecting | Down

  datatype Tunnel = Tunnel(status: Status, phase1: Phase, phase2: Phase, spiIn: Option<int>, spiOut: Option<int>,
                           ikeRemaining: Option<int>, saRemaining: Option<int>, negTime: Option<real>,
                           dpd: Dpd, dpdSince: real)

  const INITIAL := Tunnel(Wait, Unset, Unset, None, None, None, None, None, Idle, 0.0)

  datatype Key = Key(device: nat, tunnel: nat)

  /** A security association recorded on a Cisco device for one peer address. */
  datatype PeerSa = PeerSa(spiIn: int, spiOut: int, saRemaining: int, negTime: real)

  /** All devices. A tunnel without an entry in states has not been touched yet. */
  datatype Lab = Lab(cfg: Config, states: map<Key, Tunnel>, sas: map<(nat, string), PeerSa>) {
    function At(key: Key): Tunnel { if key in states then states[key] else INITIAL }

    function With(key: Key, t: Tunnel): Lab { this.(states := states[key := t]) }
  }

  predicate HasTunnel(cfg: Config, key: Key) {
    key.device < |cfg| && key.tunnel < |cfg[key.device].tunnels|
  }

  function TunnelOf(cfg: Config, key: Key): TunnelCfg
    requires HasTunnel(cfg, key)
  {
    cfg[key.device].tunnels[key.tunnel]
  }

  // ---------- normalisation ----------

  const ENC_NORM: map<string, string> := map[
    "aes" := "aes128", "aes 128" := "aes128", "aes128" := "aes128",
    "aes 256" := "aes256", "aes256" := "aes256", "aes-256" := "aes256",
    "aes 192" := "aes192", "aes192" := "aes192", "3des" := "3des", "des" := "des",
    "esp-aes" := "aes128", "esp-aes-256" := "aes256", "esp-3des" := "3des"]

  const HASH_NORM: map<string, string> := map[
    "sha" := "sha1", "sha1" := "sha1", "sha256" := "sha256", "sha-256" := "sha256",
    "sha512" := "sha512", "md5" := "md5", "esp-sha-hmac" := "sha1", "esp-sha256-hmac" := "sha256"]

  function OrElse<T>(v: Option<T>, default: T): T { if v.Some? then v.value else default }

  function NormEnc(v: string): string { if Lower(v) in ENC_NORM then ENC_NORM[Lower(v)] else Lower(v) }

  function NormHash(v: string): string { if Lower(v) in HASH_NORM then HASH_NORM[Lower(v)] else Lower(v) }

  /** Every key of the DH table is a number, so the table never adds anything to int(). */
  function NormDh(v: string): int { OrElse(PyInt(v), 14) }

  // ---------- finding the peer ----------

  predicate Owns(d: Device, ip: string) {
    if SirFamily(d.kind) then exists t :: t in d.tunnels && t.localIp == ip
    else CiscoFamily(d.kind) && ip in d.addresses
  }

  function MatchesFrom(cfg: Config, i: nat, ip: string, j: nat): (ms: seq<nat>)
    ensures forall m :: m in ms ==> j <= m < |cfg| && m != i && Owns(cfg[m], ip)
    decreases |cfg| - j
  {
    if j >= |cfg| then []
    else (if j != i && Owns(cfg[j], ip) then [j] else []) + MatchesFrom(cfg, i, ip, j + 1)
  }

  function FirstNeighbour(cfg: Config, ms: seq<nat>, ids: set<string>): (r: Option<nat>)
    requires forall m :: m in ms ==> m < |cfg|
    ensures r.Some? ==> r.value in ms
  {
    if ms == [] then None
    else
      assert ms[0] in ms;
      assert forall m :: m in ms[1..] ==> m in ms;
      if cfg[ms[0]].id in ids then Some(ms[0]) else FirstNeighbour(cfg, ms[1..], ids)
  }

  /** _find_peer: a directly linked owner of the address first, otherwise the first owner. */
  function FindPeer(cfg: Config, i: nat, ip: string): (r: Option<nat>)
    requires i < |cfg|
    ensures r.Some? ==> r.value < |cfg| && r.value != i && Owns(cfg[r.value], ip)
  {
    var ms := MatchesFrom(cfg, i, ip, 0);
    if ms == [] then None
    else
      match FirstNeighbour(cfg, ms, cfg[i].neighbours)
      case Some(m) => Some(m)
      case None => assert ms[0] in ms; Some(ms[0])
  }

  /** _sir_tunnel_info */
  function TunnelIndex(ts: seq<TunnelCfg>, localIp: string, remoteIp: string): (r: Option<nat>)
    ensures r.Some? ==> r.value < |ts| && ts[r.value].localIp == localIp && ts[r.value].remoteIp == remoteIp
    ensures r.None? ==> forall t :: t in ts ==> !(t.localIp == localIp && t.remoteIp == remoteIp)
  {
    if ts == [] then None
    else if ts[0].localIp == localIp && ts[0].remoteIp == remoteIp then Some(0)
    else
      match TunnelIndex(ts[1..], localIp, remoteIp)
      case None => None
      case Some(k) => Some(k + 1)
  }

  /** Who answers for a tunnel: nobody, a device without the tunnel, a Si-R-family tunnel, or a
      Cisco device. */
  datatype Peer = Nobody | NoTunnel | SirPeer(key: Key) | CiscoPeer(device: nat)

  function PeerOf(cfg: Config, key: Key): (p: Peer)
    requires HasTunnel(cfg, key)
    ensures p.SirPeer? ==> HasTunnel(cfg, p.key) && p.key.device != key.device
    ensures p.CiscoPeer? ==> p.device < |cfg|
  {
    var t := TunnelOf(cfg, key);
    match FindPeer(cfg, key.device, t.remoteIp)
    case None => Nobody
    case Some(j) =>
      if SirFamily(cfg[j].kind) then
        match TunnelIndex(cfg[j].tunnels, t.remoteIp, t.localIp)
        case None => NoTunnel
        case Some(m) => SirPeer(Key(j, m))
      else CiscoPeer(j)
  }

  // ---------- phase 1 and phase 2 ----------

  /** What one side brings to the checks. */
  datatype View = View(preshared: string, dh: Option<string>, encryption: Option<string>, hash: Option<string>,
                       mode: Option<string>, protocol: Option<string>)

  function SirView(t: TunnelCfg): View {
    View(t.preshared, t.dhGroup, t.encryption, t.hash, t.ikeMode, t.protocol)
  }

  /** _cisco_peer_info, for the peer address it is asked about. */
  function CiscoView(c: Crypto, remoteIp: string): View {
    var group := if remoteIp in c.groupKeys then c.groupKeys[remoteIp] else "";
    var psk := if group != "" then group else if remoteIp in c.isakmpKeys then c.isakmpKeys[remoteIp] else "";
    View(psk, Some(OrElse(c.group, "14")), Some(NormEnc(OrElse(c.encryption, "aes256"))),
         Some(NormHash(OrElse(c.hash, "sha256"))), Some("main"), Some("esp"))
  }

  predicate Phase1Ok(l: View, p: View) {
    l.preshared != "" && p.preshared != "" && l.preshared == p.preshared
    && NormDh(OrElse(l.dh, "14")) == NormDh(OrElse(p.dh, "14"))
    && NormEnc(OrElse(l.encryption, "aes256")) == NormEnc(OrElse(p.encryption, "aes256"))
    && NormHash(OrElse(l.hash, "sha256")) == NormHash(OrElse(p.hash, "sha256"))
    && OrElse(l.mode, "main") == OrElse(p.mode, "main")
  }

  predicate Phase2Ok(l: View, p: View) {
    Lower(OrElse(l.protocol, "esp")) == Lower(OrElse(p.protocol, "esp"))
  }

  /** How the negotiation of one tunnel ends. The peer's ipsec switch is not looked at. */
  datatype Verdict = NoAddress | Unanswered | Phase1Failed | Phase2Failed | Up

  function VerdictOf(cfg: Config, key: Key): Verdict
    requires HasTunnel(cfg, key)
  {
    var d, t := cfg[key.device], TunnelOf(cfg, key);
    if t.remoteIp == "" || t.localIp == "" then NoAddress
    else if !d.ikeEnabled || !d.ipsecEnabled then Unanswered
    else
      match PeerOf(cfg, key)
      case Nobody => Unanswered
      case NoTunnel => Unanswered
      case SirPeer(p) => Checked(cfg[p.device].ikeEnabled, SirView(t), SirView(TunnelOf(cfg, p)))
      case CiscoPeer(j) => Checked(cfg[j].crypto.enabled, SirView(t), CiscoView(cfg[j].crypto, t.localIp))
  }

  function Checked(peerIkeOn: bool, l: View, p: View): Verdict {
    if !peerIkeOn then Unanswered
    else if !Phase1Ok(l, p) then Phase1Failed
    else if !Phase2Ok(l, p) then Phase2Failed
    else Up
  }

  // ---------- negotiate_ipsec ----------

  /** abs(hash(text)): Python's string hash is left uninterpreted. */
  type Seed = string -> nat

  const WORD: nat := 0x1_0000_0000

  /** Both ends of an IKE negotiation that passed phase 1; a Cisco end keeps no such record. */
  function Phase1Done(lab: Lab, key: Key, peer: Peer, life: int): (r: Lab)
    ensures r.cfg == lab.cfg && r.sas == lab.sas
  {
    var lab1 := lab.With(key, lab.At(key).(phase1 := Mature, ikeRemaining := Some(life)));
    if peer.SirPeer? then lab1.With(peer.key, lab1.At(peer.key).(phase1 := Mature, ikeRemaining := Some(life))) else lab1
  }

  function SaUp(s: Tunnel, spiIn: int, spiOut: int, life: int, now: real): Tunnel {
    s.(status := Established, phase2 := Mature, spiIn := Some(spiIn), spiOut := Some(spiOut),
       saRemaining := Some(life), negTime := Some(now))
  }

  /** Phase 2 succeeded: the initiator's record, and the peer's with the two SPIs exchanged. */
  function Installed(lab: Lab, key: Key, peer: Peer, localIp: string, spiIn: int, spiOut: int, life: int, now: real): (r: Lab)
    requires peer.CiscoPeer? ==> peer.device < |lab.cfg|
    ensures r.cfg == lab.cfg
  {
    var lab1 := lab.With(key, SaUp(lab.At(key), spiIn, spiOut, life, now));
    match peer
    case SirPeer(p) => lab1.With(p, SaUp(lab1.At(p), spiOut, spiIn, life, now))
    case CiscoPeer(j) =>
      if CiscoFamily(lab.cfg[j].kind)
      then lab1.(sas := lab1.sas[(j, localIp) := PeerSa(spiOut, spiIn, life, now)]) else lab1
    case _ => lab1
  }

  function NegotiateTunnel(lab: Lab, key: Key, seed: Seed, now: real): (r: Lab)
    requires HasTunnel(lab.cfg, key)
    ensures r.cfg == lab.cfg
  {
    var t, own, peer := TunnelOf(lab.cfg, key), lab.At(key), PeerOf(lab.cfg, key);
    match VerdictOf(lab.cfg, key)
    case NoAddress => lab.With(key, own.(status := Wait, phase1 := Larval, phase2 := Larval))
    case Unanswered => lab.With(key, own.(status := Wait, phase1 := Larval))
    case Phase1Failed =>
      var lab1 := lab.With(key, own.(status := Wait, phase1 := Dying));
      if peer.SirPeer? then lab1.With(peer.key, lab1.At(peer.key).(phase1 := Dying)) else lab1
    case Phase2Failed =>
      var lab1 := Phase1Done(lab, key, peer, OrElse(t.ikeLifetime, 86400));
      lab1.With(key, lab1.At(key).(status := Wait, phase2 := Dying))
    case Up =>
      var lab1 := Phase1Done(lab, key, peer, OrElse(t.ikeLifetime, 86400));
      var s := seed(t.localIp + t.remoteIp + t.tid);
      Installed(lab1, key, peer, t.localIp, s % WORD, (s / 16) % WORD, OrElse(t.saLifetime, 28800), now)
  }

  function NegotiateFrom(lab: Lab, i: nat, k: nat, seed: Seed, now: real): (r: Lab)
    requires i < |lab.cfg|
    ensures r.cfg == lab.cfg
    decreases |lab.cfg[i].tunnels| - k
  {
    hide NegotiateTunnel;
    if k >= |lab.cfg[i].tunnels| then lab
    else NegotiateFrom(NegotiateTunnel(lab, Key(i, k), seed, now), i, k + 1, seed, now)
  }

  /** negotiate_ipsec for a Si-R-family initiator; any other initiator is not part of this model. */
  function Negotiate(lab: Lab, i: nat, seed: Seed, now: real): (r: Lab)
    ensures r.cfg == lab.cfg
  {
    if i < |lab.cfg| && SirFamily(lab.cfg[i].kind) then NegotiateFrom(lab, i, 0, seed, now) else lab
  }

  // ---------- negotiate_manual_ipsec ----------

  predicate Defined(algo: Option<string>) { algo.Some? && algo.value != "" && algo.value != "none" }

  predicate SaCreatable(k: KeyCfg) {
    (k.protocol == Some("ah") && Defined(k.authAlgo)) || (k.protocol == Some("esp") && Defined(k.encAlgo))
  }

  predicate KeysMatch(l: KeyCfg, p: KeyCfg) {
    l.protocol == p.protocol && l.spi == p.spi && l.encAlgo == p.encAlgo && l.encKey == p.encKey
    && l.authAlgo == p.authAlgo && l.authKey == p.authKey
  }

  predicate IsManual(t: TunnelCfg) { t.ipsecType == "manual" }

  /** The peer tunnel a manual tunnel may look at: found by address, and manual as well. */
  function ManualPeer(cfg: Config, key: Key): (p: Option<Key>)
    requires HasTunnel(cfg, key)
    ensures p.Some? ==> HasTunnel(cfg, p.value) && p.value.device != key.device && IsManual(TunnelOf(cfg, p.value))
  {
    var t := TunnelOf(cfg, key);
    match FindPeer(cfg, key.device, t.remoteIp)
    case None => None
    case Some(j) =>
      match TunnelIndex(cfg[j].tunnels, t.remoteIp, t.localIp)
      case None => None
      case Some(m) => if IsManual(cfg[j].tunnels[m]) then Some(Key(j, m)) else None
  }

  predicate ManualUp(cfg: Config, key: Key)
    requires HasTunnel(cfg, key)
  {
    var t, p := TunnelOf(cfg, key), ManualPeer(cfg, key);
    t.localIp != "" && t.remoteIp != "" && SaCreatable(t.send) && SaCreatable(t.receive) && p.Some?
    && KeysMatch(t.send, TunnelOf(cfg, p.value).receive) && KeysMatch(TunnelOf(cfg, p.value).send, t.receive)
  }

  /** Manual keying overwrites these three configured values with those of the send key. */
  function Keyed(t: TunnelCfg): TunnelCfg {
    t.(protocol := Some(OrElse(t.send.protocol, "esp")), encryption := Some(OrElse(t.send.encAlgo, "none")),
       hash := Some(OrElse(t.send.authAlgo, "none")))
  }

  function KeyedState(t: TunnelCfg, s: Tunnel): Tunnel {
    s.(status := Established, phase1 := Mature, phase2 := Mature,
       spiIn := Some(OrElse(t.receive.spi, 0)), spiOut := Some(OrElse(t.send.spi, 0)))
  }

  function WithTunnel(cfg: Config, key: Key, t: TunnelCfg): Config
    requires HasTunnel(cfg, key)
  {
    cfg[key.device := cfg[key.device].(tunnels := cfg[key.device].tunnels[key.tunnel := t])]
  }

  function KeyOne(lab: Lab, key: Key): Lab
    requires HasTunnel(lab.cfg, key)
  {
    var t := TunnelOf(lab.cfg, key);
    lab.With(key, KeyedState(t, lab.At(key))).(cfg := WithTunnel(lab.cfg, key, Keyed(t)))
  }

  function ManualTunnel(lab: Lab, key: Key): (r: Lab)
    requires HasTunnel(lab.cfg, key)
  {
    if !IsManual(TunnelOf(lab.cfg, key)) then lab
    else if !ManualUp(lab.cfg, key) then lab.With(key, lab.At(key).(status := Wait))
    else KeyOne(KeyOne(lab, key), ManualPeer(lab.cfg, key).value)
  }

  /** The same devices with the same tunnel end points, kinds and switches; only the three values
      that manual keying overwrites may differ, and only on manual tunnels. */
  ghost predicate SameUpToKeying(a: Config, b: Config) {
    |a| == |b|
    && (forall i :: 0 <= i < |a| ==> a[i].(tunnels := []) == b[i].(tunnels := []) && |a[i].tunnels| == |b[i].tunnels|)
    && (forall i, k :: 0 <= i < |a| && 0 <= k < |a[i].tunnels| ==> SameTunnel(a[i].tunnels[k], b[i].tunnels[k]))
  }

  predicate SameTunnel(s: TunnelCfg, t: TunnelCfg) {
    s.(protocol := None, encryption := None, hash := None) == t.(protocol := None, encryption := None, hash := None)
    && (!IsManual(s) ==> s == t)
  }

  function ManualFrom(lab: Lab, i: nat, k: nat): (r: Lab)
    requires i < |lab.cfg|
    ensures SameUpToKeying(lab.cfg, r.cfg)
    decreases |lab.cfg[i].tunnels| - k
  {
    hide ManualTunnel;
    if k >= |lab.cfg[i].tunnels| then lab
    else
      ManualTunnelKeeps(lab, Key(i, k));
      ManualFrom(ManualTunnel(lab, Key(i, k)), i, k + 1)
  }

  function Manual(lab: Lab, i: nat): (r: Lab)
    ensures SameUpToKeying(lab.cfg, r.cfg)
  {
    if i < |lab.cfg| && ManualCapable(lab.cfg[i].kind) then ManualFrom(lab, i, 0) else lab
  }

  lemma KeyOneKeeps(lab: Lab, key: Key)
    requires HasTunnel(lab.cfg, key) && IsManual(TunnelOf(lab.cfg, key))
    ensures SameUpToKeying(lab.cfg, KeyOne(lab, key).cfg)
  {}

  lemma ManualTunnelKeeps(lab: Lab, key: Key)
    requires HasTunnel(lab.cfg, key)
    ensures SameUpToKeying(lab.cfg, ManualTunnel(lab, key).cfg)
  {
    hide KeyOne, ManualUp, Keyed, KeyedState, ManualPeer;
    if IsManual(TunnelOf(lab.cfg, key)) && ManualUp(lab.cfg, key) {
      ManualUpPeer(lab.cfg, key);
      var p := ManualPeer(lab.cfg, key).value;
      KeyOneKeeps(lab, key);
      KeyOneKeeps(KeyOne(lab, key), p);
    }
  }

  lemma ManualUpPeer(cfg: Config, key: Key)
    requires HasTunnel(cfg, key) && ManualUp(cfg, key)
    ensures ManualPeer(cfg, key).Some?
    ensures var p := ManualPeer(cfg, key).value; HasTunnel(cfg, p) && p.device != key.device && IsManual(TunnelOf(cfg, p))
  {}

  // ---------- dead-peer detection ----------

  /** 10.0 when the simulation runs in its accelerated mode. */
  const DPD_TIME_DIVISOR := 1.0

  /** sir_dpd_detect_seconds */
  function Window(t: TunnelCfg): real {
    (OrElse(t.dpdIdle, 10.0) + OrElse(t.dpdRetryTime, 1.0) * OrElse(t.dpdRetryCount, 3.0)) / DPD_TIME_DIVISOR
  }

  function LinkDownTunnel(t: TunnelCfg, s: Tunnel, ip: string, now: real): Tunnel {
    if t.localIp == ip && s.status.Established? && t.dpdUse then s.(dpd := Detecting, dpdSince := now) else s
  }

  function LinkUpTunnel(t: TunnelCfg, s: Tunnel, ip: string): Tunnel {
    if t.localIp == ip && s.dpd.Detecting? then s.(dpd := Idle, dpdSince := 0.0) else s
  }

  /** sir_dpd_status */
  function PollTunnel(t: TunnelCfg, s: Tunnel, now: real): Tunnel {
    if s.dpd.Detecting? && now - s.dpdSince >= Window(t)
    then s.(status := Wait, phase1 := Dying, phase2 := Dying, dpd := Down) else s
  }

  datatype Signal = LinkDown(ip: string, at: real) | LinkUp(ip: string) | Poll(at: real)

  function Signalled(t: TunnelCfg, s: Tunnel, signal: Signal): Tunnel {
    match signal
    case LinkDown(ip, at) => LinkDownTunnel(t, s, ip, at)
    case LinkUp(ip) => LinkUpTunnel(t, s, ip)
    case Poll(at) => PollTunnel(t, s, at)
  }

  function SignalFrom(lab: Lab, i: nat, k: nat, signal: Signal): (r: Lab)
    requires i < |lab.cfg|
    ensures r.cfg == lab.cfg
    decreases |lab.cfg[i].tunnels| - k
  {
    if k >= |lab.cfg[i].tunnels| then lab
    else SignalFrom(lab.With(Key(i, k), Signalled(lab.cfg[i].tunnels[k], lab.At(Key(i, k)), signal)), i, k + 1, signal)
  }

  /** sir_link_down, sir_link_up and advance_all_sir_dpd: one signal to every tunnel of a device. */
  function SignalDevice(lab: Lab, i: nat, signal: Signal): (r: Lab)
    ensures r.cfg == lab.cfg
  {
    if i < |lab.cfg| then SignalFrom(lab, i, 0, signal) else lab
  }

  // ---------- the engine: tunnel records updated in place ----------

  class Engine {
    var cfg: Config
    var states: map<Key, Tunnel>
    var sas: map<(nat, string), PeerSa>

    ghost function View(): Lab
      reads this
    {
      Lab(cfg, states, sas)
    }

    constructor (cfg: Config)
      ensures View() == Lab(cfg, map[], map[])
    {
      this.cfg, states, sas := cfg, map[], map[];
    }

    function Record(key: Key): Tunnel
      reads this
    {
      if key in states then states[key] else INITIAL
    }

    method NegotiateIpsec(i: nat, seed: Seed, now: real)
      modifies this`states, this`sas
      ensures View() == Negotiate(old(View()), i, seed, now)
    {
      hide NegotiateTunnel;
      if i >= |cfg| || !SirFamily(cfg[i].kind) { return; }
      for k := 0 to |cfg[i].tunnels|
        invariant NegotiateFrom(View(), i, k, seed, now) == NegotiateFrom(old(View()), i, 0, seed, now)
      {
        NegotiateRecord(Key(i, k), seed, now);
      }
    }

    /** The body of the loop over the initiator's tunnels: two records are updated as a pair. */
    method NegotiateRecord(key: Key, seed: Seed, now: real)
      requires HasTunnel(cfg, key)
      modifies this`states, this`sas
      ensures View() == NegotiateTunnel(old(View()), key, seed, now)
    {
      hide VerdictOf, PeerOf;
      var t := TunnelOf(cfg, key);
      var peer := PeerOf(cfg, key);
      var verdict := VerdictOf(cfg, key);
      if verdict.NoAddress? {
        states := states[key := Record(key).(status := Wait, phase1 := Larval, phase2 := Larval)];
        return;
      }
      if verdict.Unanswered? {
        states := states[key := Record(key).(status := Wait, phase1 := Larval)];
        return;
      }
      if verdict.Phase1Failed? {
        states := states[key := Record(key).(status := Wait, phase1 := Dying)];
        if peer.SirPeer? { states := states[peer.key := Record(peer.key).(phase1 := Dying)]; }
        return;
      }
      var life := OrElse(t.ikeLifetime, 86400);
      states := states[key := Record(key).(phase1 := Mature, ikeRemaining := Some(life))];
      if peer.SirPeer? {
        states := states[peer.key := Record(peer.key).(phase1 := Mature, ikeRemaining := Some(life))];
      }
      if verdict.Phase2Failed? {
        states := states[key := Record(key).(status := Wait, phase2 := Dying)];
        return;
      }
      var s := seed(t.localIp + t.remoteIp + t.tid);
      PeerDevice(cfg, key);
      InstallRecords(key, peer, t.localIp, s % WORD, (s / 16) % WORD, OrElse(t.saLifetime, 28800), now);
    }

    method InstallRecords(key: Key, peer: Peer, localIp: string, spiIn: int, spiOut: int, life: int, now: real)
      requires peer.CiscoPeer? ==> peer.device < |cfg|
      modifies this`states, this`sas
      ensures View() == Installed(old(View()), key, peer, localIp, spiIn, spiOut, life, now)
    {
      states := states[key := SaUp(Record(key), spiIn, spiOut, life, now)];
      if peer.SirPeer? {
        states := states[peer.key := SaUp(Record(peer.key), spiOut, spiIn, life, now)];
      }
      if peer.CiscoPeer? && CiscoFamily(cfg[peer.device].kind) {
        sas := sas[(peer.device, localIp) := PeerSa(spiOut, spiIn, life, now)];
      }
    }

    method NegotiateManual(i: nat)
      modifies this`states, this`cfg
      ensures View() == Manual(old(View()), i)
    {
      hide ManualTunnel;
      if i >= |cfg| || !ManualCapable(cfg[i].kind) { return; }
      var n := |cfg[i].tunnels|;
      for k := 0 to n
        invariant i < |cfg| && |cfg[i].tunnels| == n && View().sas == old(sas)
        invariant ManualFrom(View(), i, k) == ManualFrom(old(View()), i, 0)
      {
        ManualTunnelKeeps(View(), Key(i, k));
        ManualRecord(Key(i, k));
      }
    }

    method ManualRecord(key: Key)
      requires HasTunnel(cfg, key)
      modifies this`states, this`cfg
      ensures View() == ManualTunnel(old(View()), key)
    {
      hide ManualUp, ManualPeer, Keyed, KeyedState;
      var t := TunnelOf(cfg, key);
      if !IsManual(t) { return; }
      if !ManualUp(cfg, key) {
        states := states[key := Record(key).(status := Wait)];
        return;
      }
      ManualUpPeer(cfg, key);
      var p := ManualPeer(cfg, key).value;
      states := states[key := KeyedState(t, Record(key))];
      cfg := WithTunnel(cfg, key, Keyed(t));
      var u := TunnelOf(cfg, p);
      states := states[p := KeyedState(u, Record(p))];
      cfg := WithTunnel(cfg, p, Keyed(u));
    }

    method Signal(i: nat, signal: Signal)
      modifies this`states
      ensures View() == SignalDevice(old(View()), i, signal)
    {
      hide Signalled;
      if i >= |cfg| { return; }
      for k := 0 to |cfg[i].tunnels|
        invariant SignalFrom(View(), i, k, signal) == SignalFrom(old(View()), i, 0, signal)
      {
        states := states[Key(i, k) := Signalled(cfg[i].tunnels[k], Record(Key(i, k)), signal)];
      }
    }
  }

  lemma PeerDevice(cfg: Config, key: Key)
    requires HasTunnel(cfg, key)
    ensures PeerOf(cfg, key).CiscoPeer? ==> PeerOf(cfg, key).device < |cfg|
  {}
}
