/** engine/ike_engine.py: which configured values make a tunnel come up. */
module IkeAgreement {
  import opened Text
  import opened Ike
  import opened IkeTopology
  import opened IkeRuns
  import opened IkeConvergence

  // ---------- what two ends have to agree on ----------

  /** Names of ciphers and of hashes that mean the same; any other name means only itself. */
  const CIPHERS: seq<set<string>> := [
    {"aes", "aes 128", "aes128", "esp-aes"}, {"aes 256", "aes256", "aes-256", "esp-aes-256"},
    {"aes 192", "aes192"}, {"3des", "esp-3des"}]

  const HASHES: seq<set<string>> := [{"sha", "sha1", "esp-sha-hmac"}, {"sha256", "sha-256", "esp-sha256-hmac"}]

  /** The value in force where a name may be left out. */
  predicate Reads(v: Option<string>, default: string, name: string) {
    v == Some(name) || (v == None && name == default)
  }

  /** Equal up to case, or two names of one group up to case. */
  ghost predicate SameName(x: string, y: string, names: seq<set<string>>) {
    Lower(x) == Lower(y) || exists group :: group in names && Lower(x) in group && Lower(y) in group
  }

  ghost predicate NamesAgree(v: Option<string>, w: Option<string>, default: string, names: seq<set<string>>) {
    exists x, y :: Reads(v, default, x) && Reads(w, default, y) && SameName(x, y, names)
  }

  /** The Diffie-Hellman group: 14 where none, or no number, is configured. */
  predicate GroupIs(v: Option<string>, n: int) {
    if v.Some? && PyInt(v.value).Some? then PyInt(v.value).value == n else n == 14
  }

  ghost predicate Phase1Agreed(s: TunnelCfg, t: TunnelCfg) {
    s.preshared == t.preshared != ""
    && (exists n :: GroupIs(s.dhGroup, n) && GroupIs(t.dhGroup, n))
    && NamesAgree(s.encryption, t.encryption, "aes256", CIPHERS)
    && NamesAgree(s.hash, t.hash, "sha256", HASHES)
    && (exists mode :: Reads(s.ikeMode, "main", mode) && Reads(t.ikeMode, "main", mode))
  }

  ghost predicate Phase2Agreed(s: TunnelCfg, t: TunnelCfg) {
    NamesAgree(s.protocol, t.protocol, "esp", [])
  }

  // ---------- the name tables ----------

  lemma CipherNames(x: string)
    ensures NormEnc(x) ==
      if Lower(x) in CIPHERS[0] then "aes128" else if Lower(x) in CIPHERS[1] then "aes256"
      else if Lower(x) in CIPHERS[2] then "aes192" else if Lower(x) in CIPHERS[3] then "3des" else Lower(x)
  {
    hide Lower;
  }

  lemma HashNames(x: string)
    ensures NormHash(x) ==
      if Lower(x) in HASHES[0] then "sha1" else if Lower(x) in HASHES[1] then "sha256" else Lower(x)
  {
    hide Lower;
  }

  /** n is the canonical name of x: that of its group, or x itself where it is in none. */
  ghost predicate Canonical(x: string, n: string, names: seq<set<string>>, canon: seq<string>)
    requires |canon| == |names|
  {
    (exists k :: 0 <= k < |names| && x in names[k] && n == canon[k])
    || ((forall k :: 0 <= k < |names| ==> x !in names[k]) && n == x)
  }

  ghost predicate IsTable(names: seq<set<string>>, canon: seq<string>) {
    |canon| == |names| && (forall k :: 0 <= k < |names| ==> canon[k] in names[k])
    && forall j, k :: 0 <= j < k < |names| ==> names[j] !! names[k]
  }

  /** Two names have one canonical name if they are equal or in one group. */
  lemma SameCanonical(x: string, y: string, m: string, n: string, names: seq<set<string>>, canon: seq<string>)
    requires IsTable(names, canon) && Canonical(x, m, names, canon) && Canonical(y, n, names, canon)
    ensures m == n <==> x == y || exists group :: group in names && x in group && y in group
  {
    InGroup(x, y, names);
  }

  lemma CipherTable()
    ensures IsTable(CIPHERS, ["aes128", "aes256", "aes192", "3des"]) && IsTable(HASHES, ["sha1", "sha256"])
  {}

  lemma SameCipher(x: string, y: string)
    ensures NormEnc(x) == NormEnc(y) <==> SameName(x, y, CIPHERS)
  {
    hide Lower, NormEnc, IsTable, CIPHERS;
    CipherTable();
    CipherIs(x);
    CipherIs(y);
    SameCanonical(Lower(x), Lower(y), NormEnc(x), NormEnc(y), CIPHERS, ["aes128", "aes256", "aes192", "3des"]);
  }

  lemma CipherIs(x: string)
    ensures |CIPHERS| == 4 && Canonical(Lower(x), NormEnc(x), CIPHERS, ["aes128", "aes256", "aes192", "3des"])
  {
    hide Lower, NormEnc;
    CipherNames(x);
  }

  lemma SameHash(x: string, y: string)
    ensures NormHash(x) == NormHash(y) <==> SameName(x, y, HASHES)
  {
    hide Lower, NormHash, IsTable, HASHES;
    CipherTable();
    HashIs(x);
    HashIs(y);
    SameCanonical(Lower(x), Lower(y), NormHash(x), NormHash(y), HASHES, ["sha1", "sha256"]);
  }

  lemma HashIs(x: string)
    ensures |HASHES| == 2 && Canonical(Lower(x), NormHash(x), HASHES, ["sha1", "sha256"])
  {
    hide Lower, NormHash;
    HashNames(x);
  }

  lemma InGroup(x: string, y: string, names: seq<set<string>>)
    ensures (exists group :: group in names && x in group && y in group)
      <==> exists k :: 0 <= k < |names| && x in names[k] && y in names[k]
  {}

  lemma NamesAgreeBy(v: Option<string>, w: Option<string>, default: string, names: seq<set<string>>)
    ensures NamesAgree(v, w, default, names) <==> SameName(OrElse(v, default), OrElse(w, default), names)
  {
    assert Reads(v, default, OrElse(v, default)) && Reads(w, default, OrElse(w, default));
  }

  lemma Phase1Exactly(s: TunnelCfg, t: TunnelCfg)
    ensures Phase1Ok(SirView(s), SirView(t)) <==> Phase1Agreed(s, t)
  {
    hide NormEnc, NormHash, SameName, NamesAgree;
    NamesAgreeBy(s.encryption, t.encryption, "aes256", CIPHERS);
    NamesAgreeBy(s.hash, t.hash, "sha256", HASHES);
    SameCipher(OrElse(s.encryption, "aes256"), OrElse(t.encryption, "aes256"));
    SameHash(OrElse(s.hash, "sha256"), OrElse(t.hash, "sha256"));
    DhExactly(s.dhGroup, t.dhGroup);
    assert Reads(s.ikeMode, "main", OrElse(s.ikeMode, "main")) && Reads(t.ikeMode, "main", OrElse(t.ikeMode, "main"));
  }

  lemma DhExactly(v: Option<string>, w: Option<string>)
    ensures NormDh(OrElse(v, "14")) == NormDh(OrElse(w, "14")) <==> exists n :: GroupIs(v, n) && GroupIs(w, n)
  {
    hide Text.PyInt;
    assert PyInt("14") == Some(14) by { assert "14" == Dec(14); PyIntDec(14); }
    assert GroupIs(v, NormDh(OrElse(v, "14"))) && GroupIs(w, NormDh(OrElse(w, "14")));
  }

  lemma Phase2Exactly(s: TunnelCfg, t: TunnelCfg)
    ensures Phase2Ok(SirView(s), SirView(t)) <==> Phase2Agreed(s, t)
  {
    NamesAgreeBy(s.protocol, t.protocol, "esp", []);
  }

  // ---------- who answers for an address ----------

  /** A Si-R-family device has the addresses of its tunnels, a Cisco device those of its interfaces. */
  ghost predicate HasIp(d: Device, ip: string) {
    (d.kind in {Sir, Srs, Yamaha, Fortigate} && exists t :: t in d.tunnels && t.localIp == ip)
    || (d.kind in {Cisco, Catalyst, Asa} && ip in d.addresses)
  }

  ghost predicate Candidate(cfg: Config, i: nat, ip: string, m: int) { 0 <= m < |cfg| && m != i && HasIp(cfg[m], ip) }

  ghost predicate Linked(cfg: Config, i: nat, ip: string, m: int)
    requires i < |cfg|
  {
    Candidate(cfg, i, ip, m) && cfg[m].id in cfg[i].neighbours
  }

  lemma OwnsExactly(d: Device, ip: string)
    ensures Owns(d, ip) <==> HasIp(d, ip)
  {}

  lemma {:induction false} MatchesMean(cfg: Config, i: nat, ip: string, j: nat)
    ensures forall m: nat :: m in MatchesFrom(cfg, i, ip, j) <==> j <= m && Candidate(cfg, i, ip, m)
    decreases |cfg| - j
  {
    hide Owns, HasIp;
    if j < |cfg| {
      OwnsExactly(cfg[j], ip);
      MatchesMean(cfg, i, ip, j + 1);
    }
  }

  ghost predicate Rising(ms: seq<nat>, from: nat) {
    (forall a, b :: 0 <= a < b < |ms| ==> ms[a] < ms[b]) && forall a :: 0 <= a < |ms| ==> from <= ms[a]
  }

  lemma {:induction false} MatchesRise(cfg: Config, i: nat, ip: string, j: nat)
    ensures Rising(MatchesFrom(cfg, i, ip, j), j)
    decreases |cfg| - j
  {
    hide Owns;
    if j < |cfg| {
      MatchesRise(cfg, i, ip, j + 1);
      var rest := MatchesFrom(cfg, i, ip, j + 1);
      assert Rising([j] + rest, j) && Rising([] + rest, j);
    }
  }

  /** Entry k is the first of the list whose device is among these. */
  ghost predicate FirstIn(cfg: Config, ms: seq<nat>, ids: set<string>, k: nat) {
    k < |ms| && ms[k] < |cfg| && cfg[ms[k]].id in ids && forall l :: 0 <= l < k && ms[l] < |cfg| ==> cfg[ms[l]].id !in ids
  }

  lemma {:induction false} FirstNeighbourMeans(cfg: Config, ms: seq<nat>, ids: set<string>)
    requires forall m :: m in ms ==> m < |cfg|
    ensures var r := FirstNeighbour(cfg, ms, ids);
      if r.Some? then exists k: nat :: FirstIn(cfg, ms, ids, k) && ms[k] == r.value
      else forall k :: 0 <= k < |ms| && ms[k] < |cfg| ==> cfg[ms[k]].id !in ids
  {
    if ms != [] {
      var rest := ms[1..];
      assert ms[0] in ms && forall m :: m in rest ==> m in ms;
      assert forall l :: 0 < l < |ms| ==> ms[l] == rest[l - 1];
      if cfg[ms[0]].id in ids {
        assert FirstIn(cfg, ms, ids, 0);
      } else {
        FirstNeighbourMeans(cfg, rest, ids);
        if FirstNeighbour(cfg, rest, ids).Some? {
          var k: nat :| FirstIn(cfg, rest, ids, k) && rest[k] == FirstNeighbour(cfg, rest, ids).value;
          assert FirstIn(cfg, ms, ids, k + 1);
        }
      }
    }
  }

  /** The peer for an address is the first directly linked device that has it; the first device that
      has it where none is linked; and nobody where none has it. */
  lemma FindPeerExactly(cfg: Config, i: nat, ip: string)
    requires i < |cfg|
    ensures match FindPeer(cfg, i, ip)
      case Some(m) =>
        Candidate(cfg, i, ip, m)
        && (if exists l :: Linked(cfg, i, ip, l) then Linked(cfg, i, ip, m) && forall l :: 0 <= l < m ==> !Linked(cfg, i, ip, l)
            else forall l :: 0 <= l < m ==> !Candidate(cfg, i, ip, l))
      case None => forall m :: !Candidate(cfg, i, ip, m)
  {
    hide Owns, HasIp, MatchesFrom, FirstNeighbour;
    var ms := MatchesFrom(cfg, i, ip, 0);
    MatchesMean(cfg, i, ip, 0);
    MatchesRise(cfg, i, ip, 0);
    FirstNeighbourMeans(cfg, ms, cfg[i].neighbours);
    forall m | Candidate(cfg, i, ip, m) ensures exists a :: 0 <= a < |ms| && ms[a] == m {
      var n: nat := m;
      assert n in ms;
    }
    forall a | 0 <= a < |ms| ensures Candidate(cfg, i, ip, ms[a]) { assert ms[a] in ms; }
  }

  // ---------- Si-R-family ends ----------

  /** Whose far end is whose, from the configured addresses. */
  lemma PairExactlyWhenMirrored(cfg: Config, a: Key, b: Key)
    requires Unique(cfg) && HasTunnel(cfg, a) && HasTunnel(cfg, b)
    requires cfg[a.device].kind in {Sir, Srs, Yamaha, Fortigate} && cfg[b.device].kind in {Sir, Srs, Yamaha, Fortigate}
    ensures var s, t := TunnelOf(cfg, a), TunnelOf(cfg, b);
      Pair(cfg, a, b) <==> a.device != b.device && s.localIp == t.remoteIp != "" && s.remoteIp == t.localIp != ""
  {
    hide Unique, FindPeer, TunnelIndex, Owns;
    var s, t := TunnelOf(cfg, a), TunnelOf(cfg, b);
    if Pair(cfg, a, b) { PairEnds(cfg, a, b); }
    if a.device != b.device && s.localIp == t.remoteIp != "" && s.remoteIp == t.localIp != "" {
      assert Owns(cfg[b.device], t.localIp) by { OwnsOwn(cfg, b); }
      FindsOwner(cfg, a.device, s.remoteIp, b.device);
      TunnelIndexUnique(cfg, b);
    }
  }

  lemma OwnsOwn(cfg: Config, key: Key)
    requires HasTunnel(cfg, key) && SirFamily(cfg[key.device].kind)
    ensures Owns(cfg[key.device], TunnelOf(cfg, key).localIp)
  {
    assert TunnelOf(cfg, key) in cfg[key.device].tunnels;
  }

  /** After a negotiation by its own device a tunnel is established if and only if IKE is on at both
      ends, IPsec at its own, and the two ends agree on key, group, cipher, hash, mode and protocol. */
  lemma EstablishedExactlyWhenAgreed(lab: Lab, a: Key, b: Key, seed: Seed, now: real)
    requires Pair(lab.cfg, a, b)
    ensures var s, t := TunnelOf(lab.cfg, a), TunnelOf(lab.cfg, b);
      Negotiate(lab, a.device, seed, now).At(a).status == Established
      <==> lab.cfg[a.device].ikeEnabled && lab.cfg[a.device].ipsecEnabled && lab.cfg[b.device].ikeEnabled
           && Phase1Agreed(s, t) && Phase2Agreed(s, t)
  {
    hide PeerOf, VerdictOf, NegotiateFrom, Phase1Ok, Phase2Ok, Phase1Agreed, Phase2Agreed, SirView;
    Phase1Exactly(TunnelOf(lab.cfg, a), TunnelOf(lab.cfg, b));
    Phase2Exactly(TunnelOf(lab.cfg, a), TunnelOf(lab.cfg, b));
    UpWhen(lab.cfg, a, b);
    OwnStatus(lab, a.device, 0, seed, now, a.tunnel);
  }

  /** Everything one negotiation leaves at the two ends of a tunnel, and nothing else changes. */
  lemma WhatBothEndsKeep(lab: Lab, a: Key, b: Key, seed: Seed, now: real)
    requires Pair(lab.cfg, a, b)
    ensures var s, t := TunnelOf(lab.cfg, a), TunnelOf(lab.cfg, b);
      var lab' := NegotiateTunnel(lab, a, seed, now);
      var x, y, x', y' := lab.At(a), lab.At(b), lab'.At(a), lab'.At(b);
      var on := lab.cfg[a.device].ikeEnabled && lab.cfg[a.device].ipsecEnabled && lab.cfg[b.device].ikeEnabled;
      var life := if s.ikeLifetime.Some? then s.ikeLifetime else Some(86400);
      (if !on then x' == x.(status := Wait, phase1 := Larval) && y' == y
       else if !Phase1Agreed(s, t) then x' == x.(status := Wait, phase1 := Dying) && y' == y.(phase1 := Dying)
       else if !Phase2Agreed(s, t) then
         x' == x.(status := Wait, phase1 := Mature, phase2 := Dying, ikeRemaining := life)
         && y' == y.(phase1 := Mature, ikeRemaining := life)
       else
         BothUp(x, x', life, s.saLifetime, now) && BothUp(y, y', life, s.saLifetime, now)
         && x'.spiIn == y'.spiOut == Some(seed(s.localIp + s.remoteIp + s.tid) % 0x1_0000_0000)
         && x'.spiOut == y'.spiIn == Some((seed(s.localIp + s.remoteIp + s.tid) / 16) % 0x1_0000_0000))
      && (forall key :: key != a && key != b ==> lab'.At(key) == lab.At(key)) && lab'.sas == lab.sas
  {
    hide PeerOf, VerdictOf, Phase1Ok, Phase2Ok, Phase1Agreed, Phase2Agreed, SirView;
    var s, t := TunnelOf(lab.cfg, a), TunnelOf(lab.cfg, b);
    Phase1Exactly(s, t);
    Phase2Exactly(s, t);
    VerdictOfPair(lab.cfg, a, b);
    assert a != b by { PairEnds(lab.cfg, a, b); }
  }

  /** The record of an established end; what it keeps from before is its dead-peer timer. */
  predicate BothUp(before: Tunnel, after: Tunnel, life: Option<int>, saLife: Option<int>, now: real) {
    after.status == Established && after.phase1 == after.phase2 == Mature && after.ikeRemaining == life
    && after.spiIn.Some? && after.spiOut.Some?
    && after.saRemaining == (if saLife.Some? then saLife else Some(28800)) && after.negTime == Some(now)
    && after.dpd == before.dpd && after.dpdSince == before.dpdSince
  }

  lemma VerdictOfPair(cfg: Config, a: Key, b: Key)
    requires Pair(cfg, a, b)
    ensures var s, t := SirView(TunnelOf(cfg, a)), SirView(TunnelOf(cfg, b));
      VerdictOf(cfg, a) ==
        if !(cfg[a.device].ikeEnabled && cfg[a.device].ipsecEnabled && cfg[b.device].ikeEnabled) then Unanswered
        else if !Phase1Ok(s, t) then Phase1Failed
        else if !Phase2Ok(s, t) then Phase2Failed
        else Up
  {
    hide PeerOf, Phase1Ok, Phase2Ok, SirView;
  }

  // ---------- a Cisco end ----------

  /** The key for an address: the tunnel group's unless it is missing or empty, then the ISAKMP key. */
  predicate KeyFor(c: Crypto, ip: string, psk: string) {
    if ip in c.groupKeys && c.groupKeys[ip] != "" then psk == c.groupKeys[ip]
    else if ip in c.isakmpKeys then psk == c.isakmpKeys[ip]
    else psk == ""
  }

  /** A tunnel to a Cisco device is established if and only if IKE and IPsec are on here and ISAKMP
      there, the key for this end's address and the first policy agree, and mode and protocol are
      those of a Cisco device. */
  lemma EstablishedWithCiscoExactlyWhen(lab: Lab, a: Key, j: nat, seed: Seed, now: real)
    requires HasTunnel(lab.cfg, a) && SirFamily(lab.cfg[a.device].kind) && PeerOf(lab.cfg, a) == CiscoPeer(j)
    requires TunnelOf(lab.cfg, a).localIp != "" && TunnelOf(lab.cfg, a).remoteIp != ""
    ensures j < |lab.cfg|
    ensures var s, c := TunnelOf(lab.cfg, a), lab.cfg[j].crypto;
      Negotiate(lab, a.device, seed, now).At(a).status == Established
      <==> lab.cfg[a.device].ikeEnabled && lab.cfg[a.device].ipsecEnabled && c.enabled
           && s.preshared != "" && KeyFor(c, s.localIp, s.preshared)
           && (exists n :: GroupIs(s.dhGroup, n) && GroupIs(c.group, n))
           && NamesAgree(s.encryption, c.encryption, "aes256", CIPHERS)
           && NamesAgree(s.hash, c.hash, "sha256", HASHES)
           && Reads(s.ikeMode, "main", "main")
           && (s.protocol.None? || Lower(s.protocol.value) == "esp")
  {
    hide PeerOf, VerdictOf, NegotiateFrom, Phase1Ok, Phase2Ok, NamesAgree, GroupIs, Lower;
    PeerInRange(lab.cfg, a);
    CiscoExactly(TunnelOf(lab.cfg, a), lab.cfg[j].crypto);
    VerdictOfCisco(lab.cfg, a, j);
    OwnStatus(lab, a.device, 0, seed, now, a.tunnel);
  }

  lemma VerdictOfCisco(cfg: Config, a: Key, j: nat)
    requires HasTunnel(cfg, a) && PeerOf(cfg, a) == CiscoPeer(j) && j < |cfg|
    requires TunnelOf(cfg, a).localIp != "" && TunnelOf(cfg, a).remoteIp != ""
    ensures var l, p := SirView(TunnelOf(cfg, a)), CiscoView(cfg[j].crypto, TunnelOf(cfg, a).localIp);
      VerdictOf(cfg, a) == Up <==>
        cfg[a.device].ikeEnabled && cfg[a.device].ipsecEnabled && cfg[j].crypto.enabled && Phase1Ok(l, p) && Phase2Ok(l, p)
  {
    hide PeerOf, Phase1Ok, Phase2Ok, SirView, CiscoView;
  }

  lemma CiscoExactly(s: TunnelCfg, c: Crypto)
    ensures var l, p := SirView(s), CiscoView(c, s.localIp);
      Phase1Ok(l, p) && Phase2Ok(l, p) <==>
        s.preshared != "" && KeyFor(c, s.localIp, s.preshared)
        && (exists n :: GroupIs(s.dhGroup, n) && GroupIs(c.group, n))
        && NamesAgree(s.encryption, c.encryption, "aes256", CIPHERS)
        && NamesAgree(s.hash, c.hash, "sha256", HASHES)
        && Reads(s.ikeMode, "main", "main")
        && (s.protocol.None? || Lower(s.protocol.value) == "esp")
  {
    hide NormEnc, NormHash, NormDh, SameName, NamesAgree, GroupIs, Lower;
    var enc, hash := OrElse(c.encryption, "aes256"), OrElse(c.hash, "sha256");
    NamesAgreeBy(s.encryption, c.encryption, "aes256", CIPHERS);
    NamesAgreeBy(s.hash, c.hash, "sha256", HASHES);
    SameCipher(OrElse(s.encryption, "aes256"), enc);
    SameHash(OrElse(s.hash, "sha256"), hash);
    NormTwice(enc, hash);
    DhExactly(s.dhGroup, c.group);
    LowerNames();
  }

  lemma NormTwice(enc: string, hash: string)
    ensures NormEnc(NormEnc(enc)) == NormEnc(enc) && NormHash(NormHash(hash)) == NormHash(hash)
  {
    hide NormEnc, NormHash, Lower;
    CipherNames(enc);
    CipherNames(NormEnc(enc));
    HashNames(hash);
    HashNames(NormHash(hash));
    LowerTwice(enc);
    LowerTwice(hash);
    LowerNames();
  }

  lemma LowerNames()
    ensures Lower("esp") == "esp" && Lower("aes128") == "aes128" && Lower("aes256") == "aes256"
    ensures Lower("aes192") == "aes192" && Lower("3des") == "3des" && Lower("sha1") == "sha1" && Lower("sha256") == "sha256"
  {
    hide Lower;
    LowerKeeps("esp");
    LowerKeeps("aes128");
    LowerKeeps("aes256");
    LowerKeeps("aes192");
    LowerKeeps("3des");
    LowerKeeps("sha1");
    LowerKeeps("sha256");
  }

  // ---------- manual keys ----------

  /** A direction that an association can be made of: AH with an authentication algorithm, or ESP
      with an encryption algorithm. */
  predicate Usable(k: KeyCfg) {
    (k.protocol == Some("ah") && k.authAlgo !in {None, Some(""), Some("none")})
    || (k.protocol == Some("esp") && k.encAlgo !in {None, Some(""), Some("none")})
  }

  /** Manual keying by the device of one of two mirrored tunnels of devices with unique addresses:
      both are established, with each other's numbers and the values of their send keys, if both
      use manual keys, both directions of this end are usable and each end sends with what the other
      receives with; otherwise this end waits and nothing else changes. */
  lemma KeyedExactlyWhenMatching(lab: Lab, a: Key, b: Key)
    requires Pair(lab.cfg, a, b) && IsManual(TunnelOf(lab.cfg, a))
    ensures var s, t := TunnelOf(lab.cfg, a), TunnelOf(lab.cfg, b);
      var lab' := ManualTunnel(lab, a);
      var x, y := lab'.At(a), lab'.At(b);
      if t.ipsecType == "manual" && Usable(s.send) && Usable(s.receive) && s.send == t.receive && t.send == s.receive
      then x == Keys(lab.At(a), s) && y == Keys(lab.At(b), t) && x.spiIn == y.spiOut && x.spiOut == y.spiIn
           && HasTunnel(lab'.cfg, a) && TunnelOf(lab'.cfg, a) == SendValues(s)
           && HasTunnel(lab'.cfg, b) && TunnelOf(lab'.cfg, b) == SendValues(t)
      else x == lab.At(a).(status := Wait) && y == lab.At(b) && lab'.cfg == lab.cfg
  {
    hide ManualUp, ManualPeer, Usable, PeerOf;
    var s, t := TunnelOf(lab.cfg, a), TunnelOf(lab.cfg, b);
    assert a.device != b.device by { PairEnds(lab.cfg, a, b); }
    ManualUpWhen(lab.cfg, a, b);
    if ManualUp(lab.cfg, a) {
      var lab1 := KeyOne(lab, a);
      assert HasTunnel(lab1.cfg, b) && TunnelOf(lab1.cfg, b) == t && lab1.At(b) == lab.At(b);
      assert lab1.At(a) == Keys(lab.At(a), s) && HasTunnel(lab1.cfg, a) && TunnelOf(lab1.cfg, a) == Keyed(s);
    }
  }

  lemma ManualUpWhen(cfg: Config, a: Key, b: Key)
    requires Pair(cfg, a, b) && IsManual(TunnelOf(cfg, a))
    ensures var s, t := TunnelOf(cfg, a), TunnelOf(cfg, b);
      ManualUp(cfg, a) <==>
        t.ipsecType == "manual" && Usable(s.send) && Usable(s.receive) && s.send == t.receive && t.send == s.receive
    ensures ManualUp(cfg, a) ==>
      ManualPeer(cfg, a) == Some(b) && TunnelOf(cfg, a).send.protocol.Some? && TunnelOf(cfg, b).send.protocol.Some?
  {
    hide FindPeer, TunnelIndex;
    var s, t := TunnelOf(cfg, a), TunnelOf(cfg, b);
    UsableExactly(s.send);
    UsableExactly(s.receive);
  }

  lemma ManualUpSame(a: Config, b: Config, key: Key)
    requires SameUpToKeying(a, b) && HasTunnel(a, key)
    ensures HasTunnel(b, key) && ManualUp(a, key) == ManualUp(b, key) && ManualPeer(a, key) == ManualPeer(b, key)
  {
    hide SameTunnel, FindPeer, TunnelIndex, SaCreatable, KeysMatch;
    TunnelSame(a, b, key);
    var t := TunnelOf(a, key);
    FindPeerSame(a, b, key.device, t.remoteIp);
    var p := FindPeer(a, key.device, t.remoteIp);
    if p.Some? {
      SwitchesSame(a, b, p.value);
      TunnelIndexSame(a[p.value].tunnels, b[p.value].tunnels, t.remoteIp, t.localIp);
      var m := TunnelIndex(a[p.value].tunnels, t.remoteIp, t.localIp);
      if m.Some? { TunnelSame(a, b, Key(p.value, m.value)); }
    }
  }

  lemma {:induction false} ManualStatus(lab: Lab, i: nat, k: nat, m: nat)
    requires i < |lab.cfg| && m < |lab.cfg[i].tunnels|
    ensures ManualFrom(lab, i, k).At(Key(i, m)).status ==
      if k <= m && IsManual(TunnelOf(lab.cfg, Key(i, m))) then (if ManualUp(lab.cfg, Key(i, m)) then Established else Wait)
      else lab.At(Key(i, m)).status
    decreases |lab.cfg[i].tunnels| - k
  {
    hide ManualUp, ManualPeer, ManualTunnel, SameUpToKeying;
    if k < |lab.cfg[i].tunnels| {
      var lab' := ManualTunnel(lab, Key(i, k));
      ManualTunnelKeeps(lab, Key(i, k));
      SwitchesSame(lab.cfg, lab'.cfg, i);
      TunnelSame(lab.cfg, lab'.cfg, Key(i, m));
      ManualUpSame(lab.cfg, lab'.cfg, Key(i, m));
      ManualOne(lab, Key(i, k), m);
      ManualStatus(lab', i, k + 1, m);
    }
  }

  lemma ManualOne(lab: Lab, key: Key, m: nat)
    requires HasTunnel(lab.cfg, key)
    ensures ManualTunnel(lab, key).At(Key(key.device, m)).status ==
      if m == key.tunnel && IsManual(TunnelOf(lab.cfg, key)) then (if ManualUp(lab.cfg, key) then Established else Wait)
      else lab.At(Key(key.device, m)).status
  {
    hide ManualUp, ManualPeer;
    if IsManual(TunnelOf(lab.cfg, key)) && ManualUp(lab.cfg, key) { ManualUpPeer(lab.cfg, key); }
  }

  /** After manual keying by its own device a manual tunnel is established if and only if its far end
      uses manual keys too, both directions are usable and each end sends with what the other
      receives with. */
  lemma KeyedByDeviceExactlyWhen(lab: Lab, a: Key, b: Key)
    requires Pair(lab.cfg, a, b) && IsManual(TunnelOf(lab.cfg, a)) && lab.cfg[a.device].kind in {Sir, Srs, Yamaha}
    ensures var s, t := TunnelOf(lab.cfg, a), TunnelOf(lab.cfg, b);
      Manual(lab, a.device).At(a).status == Established
      <==> t.ipsecType == "manual" && Usable(s.send) && Usable(s.receive) && s.send == t.receive && t.send == s.receive
  {
    hide ManualUp, ManualFrom, Usable, PeerOf;
    ManualUpWhen(lab.cfg, a, b);
    ManualStatus(lab, a.device, 0, a.tunnel);
  }

  /** No other kind of device starts a negotiation of this model or keys by hand. */
  lemma OthersNegotiateNothing(lab: Lab, i: nat, seed: Seed, now: real)
    requires i < |lab.cfg|
    ensures lab.cfg[i].kind !in {Sir, Srs, Yamaha, Fortigate} ==> Negotiate(lab, i, seed, now) == lab
    ensures lab.cfg[i].kind !in {Sir, Srs, Yamaha} ==> Manual(lab, i) == lab
  {}

  lemma UsableExactly(k: KeyCfg)
    ensures Usable(k) <==> SaCreatable(k)
  {}

  function Keys(x: Tunnel, s: TunnelCfg): Tunnel {
    x.(status := Established, phase1 := Mature, phase2 := Mature,
       spiIn := if s.receive.spi.Some? then s.receive.spi else Some(0),
       spiOut := if s.send.spi.Some? then s.send.spi else Some(0))
  }

  function SendValues(s: TunnelCfg): TunnelCfg {
    s.(protocol := s.send.protocol, encryption := if s.send.encAlgo.Some? then s.send.encAlgo else Some("none"),
       hash := if s.send.authAlgo.Some? then s.send.authAlgo else Some("none"))
  }
}
