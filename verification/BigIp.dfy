/** engine/bigip_lb.py: the connection handlers of one virtual server, interleaved at their lock
    sections. */
module BigIp {
  import opened Text

  type Member = (string, int)

  type Pool = ms: seq<Member> | ms != [] witness [("", 0)]

  datatype Mode = LeastConnections | RoundRobin

  /** What a handler reads around one lock section: the healthy members, the persistence timeout,
      the balancing mode, the clock, and whether a connection attempt succeeds. */
  datatype Env = Env(members: seq<Member>, timeout: Option<int>, mode: Mode, now: real, connected: bool)

  /** The fields guarded by the lock. */
  datatype Proxy = Proxy(rrIndex: int, activeConns: map<Member, int>, affinity: map<string, (Member, real)>)

  const FRESH := Proxy(-1, map[], map[])

  /** Where a handler stands between two lock sections. */
  datatype Stage =
    | Arrived
    | Refreshing(member: Member, now: real)
    | Choosing(pool: Pool, sticky: bool, now: real)
    | Storing(member: Member, now: real)
    | Selected(member: Member)
    | Connecting(member: Member)
    | Relaying(member: Member)
    | Closed

  datatype Handler = Handler(client: string, stage: Stage)

  // ---------- the lock sections ----------

  function Active(conns: map<Member, int>, m: Member): int { if m in conns then conns[m] else 0 }

  /** The first member with the fewest connections, as Python's min finds it. */
  function LeastLoaded(conns: map<Member, int>, pool: Pool): (r: nat)
    ensures r < |pool| && forall i :: 0 <= i < |pool| ==> Active(conns, pool[r]) <= Active(conns, pool[i])
    ensures forall i :: 0 <= i < r ==> Active(conns, pool[r]) < Active(conns, pool[i])
  {
    var n := |pool| - 1;
    if n == 0 then 0
    else
      var r := LeastLoaded(conns, pool[..n]);
      assert forall i :: 0 <= i < n ==> pool[..n][i] == pool[i];
      if Active(conns, pool[n]) < Active(conns, pool[r]) then n else r
  }

  /** The member of a new connection, and the proxy with its round-robin index moved on. */
  function Choose(p: Proxy, pool: Pool, mode: Mode): (r: (Proxy, Member))
    ensures r.1 in pool && r.0.affinity == p.affinity && r.0.activeConns == p.activeConns
  {
    if mode == LeastConnections then (p, pool[LeastLoaded(p.activeConns, pool)])
    else
      var i := (p.rrIndex + 1) % |pool|;
      (p.(rrIndex := i), pool[i])
  }

  predicate Persists(e: Env, client: string) { e.timeout.Some? && e.timeout.value != 0 && client != "" }

  /** The client's last member, if it is healthy and was seen within the timeout. */
  function Remembered(p: Proxy, client: string, e: Env): Option<Member> {
    if Persists(e, client) && client in p.affinity && p.affinity[client].0 in e.members
       && e.now - p.affinity[client].1 <= e.timeout.value as real
    then Some(p.affinity[client].0) else None
  }

  function LookUp(p: Proxy, client: string, e: Env): Stage {
    if e.members == [] then Closed
    else
      match Remembered(p, client, e)
      case Some(m) => Refreshing(m, e.now)
      case None => Choosing(e.members, Persists(e, client), e.now)
  }

  function Counting(p: Proxy, m: Member, change: int): Proxy {
    p.(activeConns := p.activeConns[m := Active(p.activeConns, m) + change])
  }

  function Remember(p: Proxy, client: string, m: Member, now: real): Proxy {
    p.(affinity := p.affinity[client := (m, now)])
  }

  /** One lock section of one handler, with the unlocked code around it. */
  function Advance(p: Proxy, h: Handler, e: Env): (Proxy, Stage) {
    match h.stage
    case Arrived => (p, LookUp(p, h.client, e))
    case Refreshing(m, t) => (Remember(p, h.client, m, t), Selected(m))
    case Choosing(pool, sticky, t) =>
      var (p', m) := Choose(p, pool, e.mode);
      (p', if sticky then Storing(m, t) else Selected(m))
    case Storing(m, t) => (Remember(p, h.client, m, t), Selected(m))
    case Selected(m) => (Counting(p, m, 1), Connecting(m))
    case Connecting(m) => if e.connected then (p, Relaying(m)) else (Counting(p, m, -1), Closed)
    case Relaying(m) => (Counting(p, m, -1), Closed)
    case Closed => (p, Closed)
  }

  // ---------- interleavings ----------

  datatype State = State(proxy: Proxy, handlers: seq<Handler>)

  const START := State(FRESH, [])

  datatype Event = Accept(client: string) | Move(handler: nat, env: Env)

  function Step(s: State, e: Event): State {
    match e
    case Accept(client) => s.(handlers := s.handlers + [Handler(client, Arrived)])
    case Move(i, env) =>
      if i >= |s.handlers| then s
      else
        var (p, stage) := Advance(s.proxy, s.handlers[i], env);
        State(p, s.handlers[i := s.handlers[i].(stage := stage)])
  }

  function Run(s: State, es: seq<Event>): State
    decreases |es|
  {
    if es == [] then s else Run(Step(s, es[0]), es[1..])
  }

  // ---------- counting handlers ----------

  function Count(hs: seq<Handler>, f: Handler -> bool): nat {
    if hs == [] then 0 else (if f(hs[0]) then 1 else 0) + Count(hs[1..], f)
  }

  function Bit(b: bool): int { if b then 1 else 0 }

  lemma {:induction false} CountUpdate(hs: seq<Handler>, i: nat, h: Handler, f: Handler -> bool)
    requires i < |hs|
    ensures Count(hs[i := h], f) == Count(hs, f) - Bit(f(hs[i])) + Bit(f(h))
  {
    if i == 0 {
      assert hs[i := h][1..] == hs[1..];
    } else {
      assert hs[i := h][1..] == hs[1..][i - 1 := h];
      CountUpdate(hs[1..], i - 1, h, f);
    }
  }

  lemma {:induction false} CountAppend(hs: seq<Handler>, h: Handler, f: Handler -> bool)
    ensures Count(hs + [h], f) == Count(hs, f) + Bit(f(h))
  {
    if hs == [] {
      assert hs + [h] == [h];
    } else {
      assert (hs + [h])[1..] == hs[1..] + [h];
      CountAppend(hs[1..], h, f);
    }
  }

  lemma {:induction false} CountOne(hs: seq<Handler>, i: nat, f: Handler -> bool)
    requires i < |hs| && f(hs[i])
    ensures Count(hs, f) >= 1
  {
    if i > 0 { CountOne(hs[1..], i - 1, f); }
  }

  predicate Holds(h: Handler, m: Member) {
    (h.stage.Connecting? || h.stage.Relaying?) && h.stage.member == m
  }

  /** Between its increment and its decrement on m. */
  function Open(s: State, m: Member): nat { Count(s.handlers, h => Holds(h, m)) }

  // ---------- the connection counters ----------

  ghost predicate Counted(s: State) { forall m :: Active(s.proxy.activeConns, m) == Open(s, m) }

  lemma StepCounted(s: State, e: Event)
    requires Counted(s)
    ensures Counted(Step(s, e))
  {
    forall m ensures Active(Step(s, e).proxy.activeConns, m) == Open(Step(s, e), m) {
      assert Active(s.proxy.activeConns, m) == Open(s, m);
      match e
      case Accept(client) => CountAppend(s.handlers, Handler(client, Arrived), h => Holds(h, m));
      case Move(i, env) =>
        if i < |s.handlers| {
          CountUpdate(s.handlers, i, Step(s, e).handlers[i], h => Holds(h, m));
        }
    }
  }

  lemma {:induction false} RunCounted(s: State, es: seq<Event>)
    requires Counted(s)
    ensures Counted(Run(s, es))
    decreases |es|
  {
    hide Counted, Step;
    if es != [] {
      StepCounted(s, es[0]);
      RunCounted(Step(s, es[0]), es[1..]);
    }
  }

  /** In every interleaving the counter of a member is the number of handlers between their
      increment and their decrement on it; in particular it is never negative, and a decrement
      always finds the entry it needs. */
  lemma CountersCountOpenConnections(es: seq<Event>, m: Member, i: nat)
    ensures var s := Run(START, es);
      Active(s.proxy.activeConns, m) == Open(s, m)
      && (i < |s.handlers| && Holds(s.handlers[i], m) ==> m in s.proxy.activeConns && s.proxy.activeConns[m] >= 1)
  {
    hide Run, Holds;
    RunCounted(START, es);
    var s := Run(START, es);
    if i < |s.handlers| && Holds(s.handlers[i], m) { CountOne(s.handlers, i, h => Holds(h, m)); }
  }

  // ---------- least connections ----------

  predicate Assigned(h: Handler, m: Member) {
    (h.stage.Selected? || h.stage.Connecting? || h.stage.Relaying?) && h.stage.member == m
  }

  /** How many handlers were given m and have not ended. */
  function Load(s: State, m: Member): nat { Count(s.handlers, h => Assigned(h, m)) }

  predicate IsPending(h: Handler) { h.stage.Selected? }

  /** How many handlers stand between selection and increment. */
  function Pending(s: State): nat { Count(s.handlers, h => IsPending(h)) }

  /** Persistence is off, the mode is least connections and the healthy list is always the pool. */
  predicate Steady(pool: Pool, e: Event) {
    e.Move? ==> e.env.members == pool && e.env.timeout.None? && e.env.mode == LeastConnections
  }

  /** No connection fails or ends. */
  ghost predicate Lasting(s: State, e: Event) {
    e.Move? && e.handler < |s.handlers| ==>
      !s.handlers[e.handler].stage.Relaying? && (s.handlers[e.handler].stage.Connecting? ==> e.env.connected)
  }

  /** Along the run every event is steady, nothing ends, and at most k handlers are pending. */
  ghost predicate Busy(pool: Pool, s: State, es: seq<Event>, k: nat)
    decreases |es|
  {
    Pending(s) <= k && (es != [] ==> Steady(pool, es[0]) && Lasting(s, es[0]) && Busy(pool, Step(s, es[0]), es[1..], k))
  }

  /** Every handler still choosing does so from the pool. */
  ghost predicate FromPool(pool: Pool, s: State) {
    forall h :: h in s.handlers ==> !h.stage.Refreshing? && !h.stage.Storing? && (h.stage.Choosing? ==> h.stage.pool == pool && !h.stage.sticky)
  }

  ghost predicate Balanced(pool: Pool, s: State, k: nat) {
    forall a, b :: a in pool && b in pool ==> Load(s, a) <= Load(s, b) + k
  }

  /** A member's load is its open connections and its pending ones. */
  lemma {:induction false} LoadSplits(hs: seq<Handler>, m: Member)
    ensures Count(hs, h => Holds(h, m)) <= Count(hs, h => Assigned(h, m)) <= Count(hs, h => Holds(h, m)) + Count(hs, h => IsPending(h))
  {
    if hs != [] { LoadSplits(hs[1..], m); }
  }

  lemma StepFromPool(pool: Pool, s: State, e: Event)
    requires FromPool(pool, s) && Steady(pool, e)
    ensures FromPool(pool, Step(s, e))
  {
    forall h | h in Step(s, e).handlers
      ensures !h.stage.Refreshing? && !h.stage.Storing? && (h.stage.Choosing? ==> h.stage.pool == pool && !h.stage.sticky)
    {
      if e.Move? && e.handler < |s.handlers| { assert s.handlers[e.handler] in s.handlers; }
    }
  }

  /** What one lasting step does to the load of a member: a selection adds one to the member it
      picked, a least loaded one, and nothing else changes a load. */
  lemma StepLoad(pool: Pool, s: State, e: Event, m: Member)
    requires FromPool(pool, s) && Steady(pool, e) && Lasting(s, e)
    ensures var selects := e.Move? && e.handler < |s.handlers| && s.handlers[e.handler].stage.Choosing?;
      Load(Step(s, e), m) == Load(s, m) + Bit(selects && m == pool[LeastLoaded(s.proxy.activeConns, pool)])
      && (selects ==> Pending(Step(s, e)) == Pending(s) + 1)
  {
    hide LeastLoaded;
    match e
    case Accept(client) => CountAppend(s.handlers, Handler(client, Arrived), h => Assigned(h, m));
    case Move(i, env) =>
      if i < |s.handlers| {
        assert s.handlers[i] in s.handlers;
        CountUpdate(s.handlers, i, Step(s, e).handlers[i], h => Assigned(h, m));
        CountUpdate(s.handlers, i, Step(s, e).handlers[i], h => IsPending(h));
      }
  }

  lemma StepBalanced(pool: Pool, s: State, e: Event, k: nat)
    requires Counted(s) && FromPool(pool, s) && Balanced(pool, s, k) && Steady(pool, e) && Lasting(s, e)
    requires Pending(Step(s, e)) <= k
    ensures Balanced(pool, Step(s, e), k)
  {
    hide Step, FromPool, Steady, Lasting;
    forall a, b | a in pool && b in pool ensures Load(Step(s, e), a) <= Load(Step(s, e), b) + k {
      StepLoad(pool, s, e, a);
      StepLoad(pool, s, e, b);
      LoadSplits(s.handlers, a);
      LoadSplits(s.handlers, b);
      assert Active(s.proxy.activeConns, a) == Open(s, a) && Active(s.proxy.activeConns, b) == Open(s, b);
    }
  }

  lemma {:induction false} RunBalanced(pool: Pool, s: State, es: seq<Event>, k: nat)
    requires Counted(s) && FromPool(pool, s) && Balanced(pool, s, k) && Busy(pool, s, es, k)
    ensures Balanced(pool, Run(s, es), k)
    decreases |es|
  {
    hide Counted, FromPool, Balanced, Step, Steady, Lasting;
    if es != [] {
      StepCounted(s, es[0]);
      StepFromPool(pool, s, es[0]);
      StepBalanced(pool, s, es[0], k);
      RunBalanced(pool, Step(s, es[0]), es[1..], k);
    }
  }

  /** Least connections with persistence off, a fixed healthy pool and lasting connections: as
      long as at most k handlers stand between selection and increment, the numbers of connections
      given to any two members differ by at most k. */
  lemma LeastConnectionsBalances(pool: Pool, es: seq<Event>, k: nat, a: Member, b: Member)
    requires Busy(pool, START, es, k) && a in pool && b in pool
    ensures Load(Run(START, es), a) <= Load(Run(START, es), b) + k
  {
    hide Busy, Run;
    RunBalanced(pool, START, es, k);
  }

  /** The handlers of a burst of connections that all selected m and have not been counted yet. */
  function Waiting(n: nat, m: Member): (hs: seq<Handler>)
    ensures |hs| == n
  {
    seq(n, _ => Handler("", Selected(m)))
  }

  /** The connections j, ..., n - 1, each accepted and taken to its selection. */
  function Burst(env: Env, j: nat, n: nat): seq<Event>
    decreases n - j
  {
    if j >= n then [] else [Accept(""), Move(j, env), Move(j, env)] + Burst(env, j + 1, n)
  }

  lemma {:induction false} CountWaiting(n: nat, m: Member, f: Handler -> bool)
    ensures Count(Waiting(n, m), f) == if f(Handler("", Selected(m))) then n else 0
  {
    if n > 0 {
      assert Waiting(n, m)[1..] == Waiting(n - 1, m);
      CountWaiting(n - 1, m, f);
    }
  }

  lemma RunOne(s: State, e: Event, es: seq<Event>)
    ensures Run(s, [e] + es) == Run(Step(s, e), es)
  {
    hide Step;
    assert ([e] + es)[1..] == es;
  }

  lemma BusyOne(pool: Pool, s: State, e: Event, es: seq<Event>, k: nat)
    requires Pending(s) <= k && Steady(pool, e) && Lasting(s, e) && Busy(pool, Step(s, e), es, k)
    ensures Busy(pool, s, [e] + es, k)
  {
    hide Step, Steady, Lasting, Pending;
    assert ([e] + es)[1..] == es;
  }

  lemma NothingLeft(pool: Pool, s: State, k: nat)
    requires Pending(s) <= k
    ensures Run(s, []) == s && Busy(pool, s, [], k)
  {
    hide Pending;
  }

  /** Accepting a connection and taking it to its selection adds one waiting handler. */
  lemma OneMoreWaiting(pool: Pool, env: Env, j: nat)
    requires Steady(pool, Move(0, env))
    ensures var s0 := State(FRESH, Waiting(j, pool[0]));
      var s1 := Step(s0, Accept(""));
      var s2 := Step(s1, Move(j, env));
      s1 == State(FRESH, Waiting(j, pool[0]) + [Handler("", Arrived)])
      && s2 == State(FRESH, Waiting(j, pool[0]) + [Handler("", Choosing(pool, false, env.now))])
      && Step(s2, Move(j, env)) == State(FRESH, Waiting(j + 1, pool[0]))
  {
    hide LeastLoaded;
    var w := Waiting(j, pool[0]);
    assert LeastLoaded(map[], pool) == 0 by { NobodyLoaded(pool); }
    assert (w + [Handler("", Arrived)])[j := Handler("", Choosing(pool, false, env.now))] == w + [Handler("", Choosing(pool, false, env.now))];
    assert (w + [Handler("", Choosing(pool, false, env.now))])[j := Handler("", Selected(pool[0]))] == Waiting(j + 1, pool[0]);
  }

  lemma NobodyLoaded(pool: Pool)
    ensures LeastLoaded(map[], pool) == 0
  {
    assert LeastLoaded(map[], pool) > 0 ==> Active(map[], pool[LeastLoaded(map[], pool)]) < Active(map[], pool[0]);
  }

  lemma {:induction false} BurstPiles(pool: Pool, env: Env, j: nat, n: nat)
    requires j <= n && Steady(pool, Move(0, env))
    ensures Run(State(FRESH, Waiting(j, pool[0])), Burst(env, j, n)) == State(FRESH, Waiting(n, pool[0]))
    ensures Busy(pool, State(FRESH, Waiting(j, pool[0])), Burst(env, j, n), n)
    decreases n - j
  {
    hide Run, Busy, Step, Waiting, Count;
    var s := State(FRESH, Waiting(j, pool[0]));
    CountWaiting(j, pool[0], h => IsPending(h));
    if j == n {
      NothingLeft(pool, s, n);
    } else {
      var e0, e1, rest := Accept(""), Move(j, env), Burst(env, j + 1, n);
      var s1 := Step(s, e0);
      var s2 := Step(s1, e1);
      OneMoreWaiting(pool, env, j);
      CountAppend(s.handlers, Handler("", Arrived), h => IsPending(h));
      CountAppend(s.handlers, Handler("", Choosing(pool, false, env.now)), h => IsPending(h));
      BurstPiles(pool, env, j + 1, n);
      RunOne(s2, e1, rest);
      RunOne(s1, e1, [e1] + rest);
      RunOne(s, e0, [e1] + ([e1] + rest));
      BusyOne(pool, s2, e1, rest, n);
      BusyOne(pool, s1, e1, [e1] + rest, n);
      BusyOne(pool, s, e0, [e1] + ([e1] + rest), n);
      assert Burst(env, j, n) == [e0] + ([e1] + ([e1] + rest));
    }
  }

  /** The bound is the best possible: k connections that are all selected before any of them is
      counted all go to the first member. */
  lemma BalanceBoundIsTight(pool: Pool, env: Env, k: nat, b: Member)
    requires Steady(pool, Move(0, env)) && b in pool && b != pool[0]
    ensures Busy(pool, START, Burst(env, 0, k), k)
    ensures var s := Run(START, Burst(env, 0, k)); Load(s, pool[0]) == k && Load(s, b) == 0
  {
    hide Run, Busy, Burst;
    assert Waiting(0, pool[0]) == [];
    BurstPiles(pool, env, 0, k);
    CountWaiting(k, pool[0], h => Assigned(h, pool[0]));
    CountWaiting(k, pool[0], h => Assigned(h, b));
  }

  // ---------- round robin ----------

  predicate Selects(s: State, e: Event) {
    e.Move? && e.handler < |s.handlers| && s.handlers[e.handler].stage.Choosing?
  }

  /** The members given by the balancing choice along a run, in order. */
  function Choices(s: State, es: seq<Event>): seq<Member>
    decreases |es|
  {
    if es == [] then []
    else
      (if Selects(s, es[0]) then [Choose(s.proxy, s.handlers[es[0].handler].stage.pool, es[0].env.mode).1] else [])
      + Choices(Step(s, es[0]), es[1..])
  }

  predicate Turning(pool: Pool, e: Event) { e.Move? ==> e.env.members == pool && e.env.mode == RoundRobin }

  ghost predicate InTurn(pool: Pool, s: State) {
    -1 <= s.proxy.rrIndex < |pool| && forall h :: h in s.handlers && h.stage.Choosing? ==> h.stage.pool == pool
  }

  lemma AddPeriod(x: nat, n: nat)
    requires n > 0
    ensures (x + n) % n == x % n
  {
    var q, r := x / n, x % n;
    assert x + n == (q + 1) * n + r;
    QuotientUnique(x + n, n, q + 1, r);
  }

  lemma QuotientUnique(x: nat, n: nat, q: nat, r: nat)
    requires n > 0 && x == q * n + r && r < n
    ensures x % n == r
  {
    var d := x / n - q;
    assert d * n == r - x % n;
    assert d >= 1 ==> d * n >= n;
    assert d <= -1 ==> d * n + n <= 0;
  }

  lemma StepInTurn(pool: Pool, s: State, e: Event)
    requires InTurn(pool, s) && Turning(pool, e)
    ensures InTurn(pool, Step(s, e))
    ensures Step(s, e).proxy.rrIndex == if Selects(s, e) then (s.proxy.rrIndex + 1) % |pool| else s.proxy.rrIndex
  {
    if e.Move? && e.handler < |s.handlers| { assert s.handlers[e.handler] in s.handlers; }
  }

  lemma NextTurn(r: int, n: nat, j: nat)
    requires -1 <= r < n && n > 0 && j > 0
    ensures ((r + 1) % n + 1 + (j - 1)) % n == (r + 1 + j) % n
  {
    var i := (r + 1) % n;
    if r + 1 == n {
      QuotientUnique(r + 1, n, 1, 0);
      AddPeriod(j, n);
      assert i + 1 + (j - 1) == j && r + 1 + j == j + n;
    } else {
      QuotientUnique(r + 1, n, 0, r + 1);
      assert i + 1 + (j - 1) == r + 1 + j;
    }
  }

  lemma {:induction false} TurnsFrom(pool: Pool, s: State, es: seq<Event>, j: nat)
    requires InTurn(pool, s) && (forall e :: e in es ==> Turning(pool, e)) && j < |Choices(s, es)|
    ensures Choices(s, es)[j] == pool[(s.proxy.rrIndex + 1 + j) % |pool|]
    decreases |es|
  {
    hide Step, InTurn, Turning, Choose;
    var e := es[0];
    assert e in es;
    StepInTurn(pool, s, e);
    if !Selects(s, e) {
      TurnsFrom(pool, Step(s, e), es[1..], j);
    } else {
      TurnNow(pool, s, e);
      if j > 0 {
        TurnsFrom(pool, Step(s, e), es[1..], j - 1);
        NextTurn(s.proxy.rrIndex, |pool|, j);
      }
    }
  }

  lemma TurnNow(pool: Pool, s: State, e: Event)
    requires InTurn(pool, s) && Turning(pool, e) && Selects(s, e)
    ensures -1 <= s.proxy.rrIndex < |pool|
    ensures Choose(s.proxy, s.handlers[e.handler].stage.pool, e.env.mode).1 == pool[(s.proxy.rrIndex + 1) % |pool|]
  {
    assert s.handlers[e.handler] in s.handlers;
  }

  /** Round robin: whatever the interleaving, and whoever ends or is served from persistence in
      between, the j-th balancing choice is member j modulo the size of the pool. */
  lemma RoundRobinTakesTurns(pool: Pool, es: seq<Event>, j: nat)
    requires (forall e :: e in es ==> Turning(pool, e)) && j < |Choices(START, es)|
    ensures Choices(START, es)[j] == pool[j % |pool|]
  {
    hide Choices;
    TurnsFrom(pool, START, es, j);
  }

  // ---------- persistence ----------

  predicate Given(h: Handler) { h.stage.Selected? || h.stage.Connecting? || h.stage.Relaying? }

  /** Client c is bound to m: m is remembered, no handler of c is choosing or storing, and every
      handler of c from number n on that has a member has m. */
  ghost predicate Bound(s: State, c: string, m: Member, n: nat) {
    c in s.proxy.affinity && s.proxy.affinity[c].0 == m
    && forall i :: 0 <= i < |s.handlers| && s.handlers[i].client == c ==>
      !s.handlers[i].stage.Choosing? && !s.handlers[i].stage.Storing?
      && (s.handlers[i].stage.Refreshing? || (Given(s.handlers[i]) && i >= n) ==> s.handlers[i].stage.member == m)
  }

  /** At every look-up of c, persistence is on, m is healthy, and what is stored for c, if anything,
      was seen within the timeout. What is stored is not mentioned. */
  ghost predicate Visits(s: State, es: seq<Event>, c: string, m: Member)
    decreases |es|
  {
    es != [] ==> (LooksUp(s, es[0], c) ==> Recent(s, es[0].env, c, m)) && Visits(Step(s, es[0]), es[1..], c, m)
  }

  predicate Recent(s: State, e: Env, c: string, m: Member) {
    Persists(e, c) && m in e.members
    && (c in s.proxy.affinity ==> e.now - s.proxy.affinity[c].1 <= e.timeout.value as real)
  }

  predicate LooksUp(s: State, e: Event, c: string) {
    e.Move? && e.handler < |s.handlers| && s.handlers[e.handler] == Handler(c, Arrived)
  }

  lemma RecentRemembers(s: State, e: Event, c: string, m: Member)
    requires c in s.proxy.affinity && s.proxy.affinity[c].0 == m
    ensures LooksUp(s, e, c) && Recent(s, e.env, c, m) ==> Remembered(s.proxy, c, e.env) == Some(m)
  {
    hide Persists;
  }

  lemma StepBound(s: State, e: Event, c: string, m: Member, n: nat)
    requires Bound(s, c, m, n) && (LooksUp(s, e, c) ==> Recent(s, e.env, c, m))
    ensures Bound(Step(s, e), c, m, n)
  {
    hide Choose, Persists, Recent;
    assert LooksUp(s, e, c) ==> Remembered(s.proxy, c, e.env) == Some(m) by { RecentRemembers(s, e, c, m); }
    hide Remembered;
    if e.Move? && e.handler < |s.handlers| {
      var i := e.handler;
      var h := s.handlers[i];
      assert h.client == c ==> !h.stage.Choosing? && !h.stage.Storing?;
      assert h.client == c && h.stage.Arrived? ==> h == Handler(c, Arrived);
      var (p, stage) := Advance(s.proxy, h, e.env);
      assert c in p.affinity && p.affinity[c].0 == m;
      assert h.client == c ==> !stage.Choosing? && !stage.Storing?;
      assert h.client == c && stage.Refreshing? ==> stage.member == m;
      assert h.client == c && Given(h.(stage := stage)) && i >= n ==> stage.member == m;
    }
  }

  lemma {:induction false} RunBound(s: State, es: seq<Event>, c: string, m: Member, n: nat)
    requires Bound(s, c, m, n) && Visits(s, es, c, m)
    ensures Bound(Run(s, es), c, m, n)
    decreases |es|
  {
    hide Bound, Step, Recent, LooksUp;
    if es != [] {
      StepBound(s, es[0], c, m, n);
      RunBound(Step(s, es[0]), es[1..], c, m, n);
    }
  }

  /** A first visit that nothing of the same client overlaps binds the client. */
  lemma FirstVisitBinds(s: State, i: nat, e: Env, c: string, m: Member, now: real)
    requires i < |s.handlers| && s.handlers[i] == Handler(c, Storing(m, now))
    requires forall k :: 0 <= k < |s.handlers| && k != i && s.handlers[k].client == c ==>
      !s.handlers[k].stage.Choosing? && !s.handlers[k].stage.Storing? && !s.handlers[k].stage.Refreshing?
    ensures Bound(Step(s, Move(i, e)), c, m, |s.handlers|) && |Step(s, Move(i, e)).handlers| == |s.handlers|
  {}

  /** Source-address persistence: once a client's member is stored and none of its connections is
      still choosing, every later connection of the client that has a member has that one, in every
      interleaving with other clients, as long as the member is healthy and no pause between two
      visits exceeds the timeout. */
  lemma ClientStays(s: State, es: seq<Event>, c: string, m: Member, i: nat)
    requires Bound(s, c, m, |s.handlers|) && Visits(s, es, c, m)
    requires var s' := Run(s, es);
      |s.handlers| <= i < |s'.handlers| && s'.handlers[i].client == c && Given(s'.handlers[i])
    ensures Run(s, es).handlers[i].stage.member == m
  {
    hide Run, Visits;
    RunBound(s, es, c, m, |s.handlers|);
  }

  // ---------- the proxy object ----------

  /** select_member by a handler that nothing interleaves with. */
  function SelectAlone(p: Proxy, client: string, e: Env): (Proxy, Option<Member>) {
    var h := Handler(client, LookUp(p, client, e));
    if h.stage.Closed? then (p, None)
    else
      var (p1, stage) := Advance(p, h, e);
      if stage.Storing? then (Advance(p1, Handler(client, stage), e).0, Some(stage.member))
      else if stage.Selected? then (p1, Some(stage.member))
      else (p1, None)
  }

  /** It is what the interleaved sections do when they follow each other without interruption. */
  lemma AloneIsUninterrupted(s: State, i: nat, e: Env)
    requires i < |s.handlers| && s.handlers[i].stage.Arrived?
    ensures var c, (p, r), m := s.handlers[i].client, SelectAlone(s.proxy, s.handlers[i].client, e), Move(i, e);
      if r.None? then Step(s, m) == State(p, s.handlers[i := Handler(c, Closed)])
      else var s' := State(p, s.handlers[i := Handler(c, Selected(r.value))]);
        Step(Step(s, m), m) == s' || Step(Step(Step(s, m), m), m) == s'
  {
    hide Choose, Remembered, Persists;
    var c, m := s.handlers[i].client, Move(i, e);
    var s1 := Step(s, m);
    var s2 := Step(s1, m);
    var s3 := Step(s2, m);
    assert s1.handlers == s.handlers[i := s1.handlers[i]];
    assert s2.handlers == s.handlers[i := s2.handlers[i]];
    assert s3.handlers == s.handlers[i := s3.handlers[i]];
  }

  // ---------- when the stored member is answered ----------

  /** Persistence applies to the client: it has an address and the profile a timeout other than 0. */
  predicate IsSticky(client: string, e: Env) { client != "" && e.timeout != None && e.timeout != Some(0) }

  /** The client's stored member is healthy and was seen no longer ago than the timeout. */
  predicate InForce(affinity: map<string, (Member, real)>, client: string, e: Env) {
    IsSticky(client, e) && client in affinity
    && var (m, seen) := affinity[client]; m in e.members && e.now <= seen + e.timeout.value as real
  }

  /** A member with the fewest connections, and the first of them. */
  ghost predicate FirstLeast(conns: map<Member, int>, pool: seq<Member>, m: Member) {
    exists i :: 0 <= i < |pool| && pool[i] == m
      && (forall j :: 0 <= j < |pool| ==> Active(conns, m) <= Active(conns, pool[j]))
      && (forall j :: 0 <= j < i ==> Active(conns, m) < Active(conns, pool[j]))
  }

  /** In every state a handler that looks up ends where no member is healthy, goes on with its
      client's stored member where that is in force, and is balanced over the healthy members
      otherwise. */
  lemma LookUpExactly(s: State, i: nat, e: Env)
    requires i < |s.handlers| && s.handlers[i].stage.Arrived?
    ensures var c, s' := s.handlers[i].client, Step(s, Move(i, e));
      s'.proxy == s.proxy && |s'.handlers| == |s.handlers|
      && s'.handlers[i] == Handler(c,
           if e.members == [] then Closed
           else if InForce(s.proxy.affinity, c, e) then Refreshing(s.proxy.affinity[c].0, e.now)
           else Choosing(e.members, IsSticky(c, e), e.now))
  {
    var c := s.handlers[i].client;
    assert IsSticky(c, e) == Persists(e, c);
    assert InForce(s.proxy.affinity, c, e) ==> Remembered(s.proxy, c, e) == Some(s.proxy.affinity[c].0);
    assert !InForce(s.proxy.affinity, c, e) ==> Remembered(s.proxy, c, e) == None;
  }

  /** In every state a balanced handler gets the next member in turn or the first least loaded one,
      and keeps it to be stored where persistence applies. */
  lemma ChoiceExactly(s: State, i: nat, e: Env) returns (m: Member)
    requires i < |s.handlers| && s.handlers[i].stage.Choosing?
    ensures var s', h := Step(s, Move(i, e)), s.handlers[i];
      s'.handlers == s.handlers[i := Handler(h.client, if h.stage.sticky then Storing(m, h.stage.now) else Selected(m))]
      && s'.proxy.affinity == s.proxy.affinity && s'.proxy.activeConns == s.proxy.activeConns
      && if e.mode == RoundRobin then
           s'.proxy.rrIndex == (s.proxy.rrIndex + 1) % |h.stage.pool| && m == h.stage.pool[s'.proxy.rrIndex]
         else s'.proxy.rrIndex == s.proxy.rrIndex && FirstLeast(s.proxy.activeConns, h.stage.pool, m)
  {
    hide LeastLoaded;
    var pool := s.handlers[i].stage.pool;
    m := Choose(s.proxy, pool, e.mode).1;
    assert pool[LeastLoaded(s.proxy.activeConns, pool)] in pool;
  }

  class VirtualServerProxy {
    var rrIndex: int
    var activeConns: map<Member, int>
    var affinity: map<string, (Member, real)>

    ghost function View(): Proxy
      reads this
    {
      Proxy(rrIndex, activeConns, affinity)
    }

    constructor ()
      ensures View() == FRESH
    {
      rrIndex, activeConns, affinity := -1, map[], map[];
    }

    method SelectMember(client: string, e: Env) returns (r: Option<Member>)
      modifies this
      ensures (View(), r) == SelectAlone(old(View()), client, e)
      ensures r.None? <==> e.members == []
      ensures activeConns == old(activeConns)
      ensures r.Some? && InForce(old(affinity), client, e) ==> r.value == old(affinity)[client].0 && rrIndex == old(rrIndex)
      ensures r.Some? && !InForce(old(affinity), client, e) ==>
        if e.mode == RoundRobin then rrIndex == (old(rrIndex) + 1) % |e.members| && r.value == e.members[rrIndex]
        else rrIndex == old(rrIndex) && FirstLeast(activeConns, e.members, r.value)
      ensures affinity == if r.Some? && IsSticky(client, e) then old(affinity)[client := (r.value, e.now)] else old(affinity)
    {
      if e.members == [] { return None; }
      var sticky := e.timeout.Some? && e.timeout.value != 0 && client != "";
      if sticky && client in affinity {
        var (m, seen) := affinity[client];
        if m in e.members && e.now - seen <= e.timeout.value as real {
          affinity := affinity[client := (m, e.now)];
          return Some(m);
        }
      }
      var member: Member;
      if e.mode == LeastConnections {
        member := e.members[LeastLoaded(activeConns, e.members)];
      } else {
        rrIndex := (rrIndex + 1) % |e.members|;
        member := e.members[rrIndex];
      }
      if sticky { affinity := affinity[client := (member, e.now)]; }
      return Some(member);
    }

    /** The two counter sections of _handle. */
    method Opened(m: Member)
      modifies this`activeConns
      ensures View() == Counting(old(View()), m, 1)
    {
      activeConns := activeConns[m := Active(activeConns, m) + 1];
    }

    method Ended(m: Member)
      requires m in activeConns
      modifies this`activeConns
      ensures View() == Counting(old(View()), m, -1)
    {
      activeConns := activeConns[m := activeConns[m] - 1];
    }
  }
}
