/** The migration lock as a timed protocol: any number of clients, one Redis key with an
    expiry, a real-valued clock, calls that take time, fail, or reach Redis late, and one
    renewing heartbeat per holder. */
module LockTiming {
  type Token = nat

  /** latency bounds every Redis call of acquire and of the heartbeat; at most maxFailures
      renewals of one holder fail in a row. */
  datatype Params = Params(ttl: real, interval: real, latency: real, maxFailures: nat) {
    predicate Valid() {
      ttl > 0.0 && interval > 0.0 && latency >= 0.0
    }

    /** Redis takes the lifetime in whole milliseconds, rounded down. */
    function Lifetime(): real {
      (ttl * 1000.0).Floor as real / 1000.0
    }

    /** The time that n failed renewals can cost. */
    function Slack(n: nat): real {
      if n == 0 then 0.0 else interval + latency + Slack(n - 1)
    }

    /** The longest time between two effective renewals stays below the key's lifetime. */
    predicate Timely() {
      interval + 2.0 * latency + Slack(maxFailures) < Lifetime()
    }
  }

  const MIN_RENEW_INTERVAL := 0.1
  const RENEW_DIVISOR := 3.0

  function DefaultInterval(ttl: real): real {
    if ttl / RENEW_DIVISOR > MIN_RENEW_INTERVAL then ttl / RENEW_DIVISOR else MIN_RENEW_INTERVAL
  }

  datatype Lease = Free | Lease(token: Token, expiry: real)

  /** A call's fate at Redis, as far as the caller can learn it from the reply. */
  datatype Reply = Pending | Accepted | Rejected

  datatype Beat = Waiting(wakeAt: real) | Renewing(started: real, reply: Reply) | Stopped

  datatype Client =
    | Idle
    | Acquiring(token: Token, started: real, reply: Reply)
    | Holding(token: Token, beat: Beat, failures: nat)

  datatype Command = SetNx(token: Token) | Extend(token: Token) | Delete(token: Token)

  predicate IsLive(lease: Lease, now: real) {
    lease.Lease? && now < lease.expiry
  }

  /** late: commands whose caller has moved on; each may still run, any number of times. */
  datatype State = State(now: real, lease: Lease, clients: seq<Client>, late: set<Command>, nextToken: Token) {
    predicate Live() {
      IsLive(lease, now)
    }
  }

  datatype Step =
    | Tick(dt: real)
    | Request(c: nat)
    | Retry(c: nat)
    | RunSet(c: nat)
    | AcquireReturns(c: nat)
    | GiveUp(c: nat)
    | Wake(c: nat)
    | RunRenew(c: nat)
    | RenewReturns(c: nat)
    | RenewFails(c: nat)
    | Release(c: nat)
    | RunLate(command: Command)

  function Init(clients: nat): State {
    State(0.0, Free, seq(clients, _ => Idle), {}, 0)
  }

  // --- Steps ----------------------------------------------------------------

  /** The latest time this client lets the clock reach before it must act itself. */
  predicate MayWaitUntil(p: Params, client: Client, t: real) {
    match client
    case Idle => true
    case Acquiring(_, started, reply) => reply == Rejected || t <= started + p.latency
    case Holding(_, Waiting(wakeAt), _) => t <= wakeAt
    case Holding(_, Renewing(started, _), _) => t <= started + p.latency
    case Holding(_, Stopped, _) => true
  }

  predicate IsRenewing(client: Client) {
    client.Holding? && client.beat.Renewing?
  }

  predicate Enabled(p: Params, s: State, step: Step) {
    match step
    case Tick(dt) => dt >= 0.0 && forall c :: 0 <= c < |s.clients| ==> MayWaitUntil(p, s.clients[c], s.now + dt)
    case Request(c) => c < |s.clients| && s.clients[c].Idle?
    case Retry(c) => c < |s.clients| && s.clients[c].Acquiring? && s.clients[c].reply == Rejected
    case RunSet(c) => c < |s.clients| && s.clients[c].Acquiring? && s.clients[c].reply == Pending
    case AcquireReturns(c) => c < |s.clients| && s.clients[c].Acquiring? && s.clients[c].reply == Accepted
    case GiveUp(c) => c < |s.clients| && s.clients[c].Acquiring?
    case Wake(c) =>
      c < |s.clients| && s.clients[c].Holding? && s.clients[c].beat.Waiting? && s.now >= s.clients[c].beat.wakeAt
    case RunRenew(c) => c < |s.clients| && IsRenewing(s.clients[c]) && s.clients[c].beat.reply == Pending
    case RenewReturns(c) => c < |s.clients| && IsRenewing(s.clients[c]) && s.clients[c].beat.reply != Pending
    case RenewFails(c) => c < |s.clients| && IsRenewing(s.clients[c]) && s.clients[c].failures < p.maxFailures
    case Release(c) => c < |s.clients| && s.clients[c].Holding?
    case RunLate(command) => command in s.late
  }

  /** What Redis does with a command: SET NX PX, or the token-checked scripts. */
  function Execute(lease: Lease, now: real, lifetime: real, command: Command): Lease {
    match command
    case SetNx(t) => if IsLive(lease, now) then lease else Lease(t, now + lifetime)
    case Extend(t) => if IsLive(lease, now) && lease.token == t then Lease(t, now + lifetime) else lease
    case Delete(t) => if IsLive(lease, now) && lease.token == t then Free else lease
  }

  function Apply(p: Params, s: State, command: Command): Lease {
    Execute(s.lease, s.now, p.Lifetime(), command)
  }

  function Become(s: State, c: nat, client: Client): State
    requires c < |s.clients|
  {
    s.(clients := s.clients[c := client])
  }

  function Do(p: Params, s: State, step: Step): State
    requires Enabled(p, s, step)
  {
    match step
    case Tick(dt) => s.(now := s.now + dt)
    case Request(c) => Become(s, c, Acquiring(s.nextToken, s.now, Pending)).(nextToken := s.nextToken + 1)
    case Retry(c) => Become(s, c, Acquiring(s.clients[c].token, s.now, Pending))
    case RunSet(c) =>
      var reply := if s.Live() then Rejected else Accepted;
      Become(s, c, s.clients[c].(reply := reply)).(lease := Apply(p, s, SetNx(s.clients[c].token)))
    case AcquireReturns(c) => Become(s, c, Holding(s.clients[c].token, Waiting(s.now + p.interval), 0))
    case GiveUp(c) => Become(s, c, Idle).(late := s.late + {SetNx(s.clients[c].token)})
    case Wake(c) => Become(s, c, s.clients[c].(beat := Renewing(s.now, Pending)))
    case RunRenew(c) =>
      var t := s.clients[c].token;
      var reply := if s.Live() && s.lease.token == t then Accepted else Rejected;
      Become(s, c, s.clients[c].(beat := s.clients[c].beat.(reply := reply))).(lease := Apply(p, s, Extend(t)))
    case RenewReturns(c) =>
      if s.clients[c].beat.reply == Accepted then
        Become(s, c, s.clients[c].(beat := Waiting(s.now + p.interval), failures := 0))
      else
        Become(s, c, s.clients[c].(beat := Stopped))
    case RenewFails(c) =>
      var client := s.clients[c];
      Become(s, c, client.(beat := Waiting(s.now + p.interval), failures := client.failures + 1))
      .(late := s.late + {Extend(client.token)})
    case Release(c) =>
      var t := s.clients[c].token;
      Become(s, c, Idle).(late := s.late + {Delete(t)} + if IsRenewing(s.clients[c]) then {Extend(t)} else {})
    case RunLate(command) => s.(lease := Apply(p, s, command))
  }

  /** The states that some run reaches, run by run. */
  ghost predicate Run(p: Params, s: State, steps: seq<Step>, end: State)
    decreases |steps|
  {
    if steps == [] then s == end
    else Enabled(p, s, steps[0]) && Run(p, Do(p, s, steps[0]), steps[1..], end)
  }

  ghost predicate Reachable(p: Params, clients: nat, s: State) {
    exists steps :: Run(p, Init(clients), steps, s)
  }

  lemma {:induction false} RunExtends(p: Params, s: State, steps: seq<Step>, mid: State, step: Step)
    requires Run(p, s, steps, mid) && Enabled(p, mid, step)
    ensures Run(p, s, steps + [step], Do(p, mid, step))
    decreases |steps|
  {
    if steps == [] {
      assert ([step])[1..] == [];
    } else {
      RunExtends(p, Do(p, s, steps[0]), steps[1..], mid, step);
      assert (steps + [step])[1..] == steps[1..] + [step];
    }
  }

  lemma ReachableStep(p: Params, clients: nat, s: State, step: Step)
    requires Reachable(p, clients, s) && Enabled(p, s, step)
    ensures Reachable(p, clients, Do(p, s, step))
  {
    var steps :| Run(p, Init(clients), steps, s);
    RunExtends(p, Init(clients), steps, s, step);
  }

  // --- Safety ---------------------------------------------------------------

  /** From the moment Redis grants the key to the call of release_safely. */
  predicate Holds(client: Client) {
    client.Holding? || (client.Acquiring? && client.reply == Accepted)
  }

  ghost predicate Exclusive(s: State) {
    forall c, d :: 0 <= c < |s.clients| && 0 <= d < |s.clients| && Holds(s.clients[c]) && Holds(s.clients[d]) ==> c == d
  }

  /** The key is there, unexpired, and under the holder's own token. */
  ghost predicate KeyHeldFor(s: State, client: Client)
    requires !client.Idle?
  {
    s.Live() && s.lease.token == client.token
  }

  /** How far the lease of a holder must still reach. */
  ghost predicate Covered(p: Params, s: State, client: Client)
    requires Holds(client) && s.lease.Lease?
  {
    match client
    case Acquiring(_, started, _) => s.lease.expiry >= started + p.Lifetime()
    case Holding(_, Waiting(wakeAt), f) =>
      f <= p.maxFailures && wakeAt + p.latency + p.Slack(p.maxFailures - f) < s.lease.expiry
    case Holding(_, Renewing(started, reply), f) =>
      && f <= p.maxFailures && started + p.latency + p.Slack(p.maxFailures - f) < s.lease.expiry
      && started <= s.now && reply != Rejected
      && (reply == Accepted ==> s.lease.expiry >= started + p.Lifetime())
    case Holding(_, Stopped, _) => false
  }

  ghost predicate ClientOk(p: Params, s: State, client: Client) {
    && MayWaitUntil(p, client, s.now)
    && (client.Acquiring? ==> client.started <= s.now)
    && (!client.Idle? ==>
          client.token < s.nextToken && SetNx(client.token) !in s.late && Delete(client.token) !in s.late)
    && (Holds(client) ==> s.lease.Lease? && s.lease.token == client.token && Covered(p, s, client))
  }

  ghost predicate Inv(p: Params, s: State) {
    && (forall command :: command in s.late ==> command.token < s.nextToken)
    && (s.lease.Lease? ==> s.lease.expiry <= s.now + p.Lifetime())
    && (forall c :: 0 <= c < |s.clients| ==> ClientOk(p, s, s.clients[c]))
    && (forall c, d :: 0 <= c < d < |s.clients| && !s.clients[c].Idle? && !s.clients[d].Idle? ==>
          s.clients[c].token != s.clients[d].token)
  }

  lemma {:induction false} SlackNonNegative(p: Params, n: nat)
    requires p.Valid()
    ensures p.Slack(n) >= 0.0
  {
    if n == 0 {
    } else {
      SlackNonNegative(p, n - 1);
    }
  }

  /** A covered holder's key is live. */
  lemma CoveredIsLive(p: Params, s: State, client: Client)
    requires p.Valid() && p.Timely() && ClientOk(p, s, client) && Holds(client)
    ensures KeyHeldFor(s, client)
  {
    SlackNonNegative(p, p.maxFailures);
    if client.Holding? { SlackNonNegative(p, p.maxFailures - client.failures); }
  }

  /** No command moves or shortens a lease held under another token, and a late extension
      under the same token only lengthens it. */
  lemma ExecuteKeepsLease(p: Params, s: State, command: Command)
    requires s.Live() && s.lease.expiry <= s.now + p.Lifetime()
    requires command.Delete? ==> command.token != s.lease.token
    ensures var lease := Apply(p, s, command);
            lease.Lease? && lease.token == s.lease.token && lease.expiry >= s.lease.expiry
  {
  }

  lemma LeaseGrows(p: Params, s: State, lease: Lease, client: Client)
    requires ClientOk(p, s, client)
    requires Holds(client) ==>
               lease.Lease? && lease.token == s.lease.token && lease.expiry >= s.lease.expiry
    ensures ClientOk(p, s.(lease := lease), client)
  {
  }

  lemma OthersStayOk(p: Params, s: State, command: Command, c: nat)
    requires p.Valid() && p.Timely() && Inv(p, s) && c < |s.clients|
    requires command.Delete? ==> command in s.late
    ensures ClientOk(p, s.(lease := Apply(p, s, command)), s.clients[c])
  {
    if Holds(s.clients[c]) {
      CoveredIsLive(p, s, s.clients[c]);
      ExecuteKeepsLease(p, s, command);
    }
    LeaseGrows(p, s, Apply(p, s, command), s.clients[c]);
  }

  /** The client that a step moves keeps its own invariant. */
  lemma MoverStaysOk(p: Params, s: State, step: Step)
    requires p.Valid() && p.Timely() && Inv(p, s) && Enabled(p, s, step)
    requires !step.Tick? && !step.RunLate?
    ensures step.c < |s.clients| && ClientOk(p, Do(p, s, step), Do(p, s, step).clients[step.c])
  {
    var c := step.c;
    assert ClientOk(p, s, s.clients[c]);
    if Holds(s.clients[c]) {
      CoveredIsLive(p, s, s.clients[c]);
    }
    SlackNonNegative(p, p.maxFailures);
  }

  lemma BystanderStaysOk(p: Params, s: State, step: Step, c: nat)
    requires p.Valid() && p.Timely() && Inv(p, s) && Enabled(p, s, step) && c < |s.clients|
    requires step.Tick? || step.RunLate? || step.c != c
    ensures c < |Do(p, s, step).clients| && ClientOk(p, Do(p, s, step), Do(p, s, step).clients[c])
  {
    assert ClientOk(p, s, s.clients[c]);
    match step
    case RunLate(command) => OthersStayOk(p, s, command, c);
    case RunSet(d) => OthersStayOk(p, s, SetNx(s.clients[d].token), c);
    case RunRenew(d) => OthersStayOk(p, s, Extend(s.clients[d].token), c);
    case _ =>
  }

  lemma TokensStayDistinct(p: Params, s: State, step: Step)
    requires Inv(p, s) && Enabled(p, s, step)
    ensures var s' := Do(p, s, step);
            forall c, d :: 0 <= c < d < |s'.clients| && !s'.clients[c].Idle? && !s'.clients[d].Idle? ==>
              s'.clients[c].token != s'.clients[d].token
  {
    var s' := Do(p, s, step);
    forall c, d | 0 <= c < d < |s'.clients| && !s'.clients[c].Idle? && !s'.clients[d].Idle?
      ensures s'.clients[c].token != s'.clients[d].token
    {
      assert ClientOk(p, s, s.clients[c]) && ClientOk(p, s, s.clients[d]);
    }
  }

  lemma LateAndLease(p: Params, s: State, step: Step)
    requires p.Valid() && Inv(p, s) && Enabled(p, s, step)
    ensures var s' := Do(p, s, step);
            && (forall command :: command in s'.late ==> command.token < s'.nextToken)
            && (s'.lease.Lease? ==> s'.lease.expiry <= s'.now + p.Lifetime())
  {
    if !step.Tick? && !step.RunLate? {
      assert ClientOk(p, s, s.clients[step.c]);
    }
  }

  lemma StepPreservesInv(p: Params, s: State, step: Step)
    requires p.Valid() && p.Timely() && Inv(p, s) && Enabled(p, s, step)
    ensures Inv(p, Do(p, s, step))
  {
    var s' := Do(p, s, step);
    forall c | 0 <= c < |s'.clients| ensures ClientOk(p, s', s'.clients[c]) {
      if !step.Tick? && !step.RunLate? && step.c == c {
        MoverStaysOk(p, s, step);
      } else {
        BystanderStaysOk(p, s, step, c);
      }
    }
    TokensStayDistinct(p, s, step);
    LateAndLease(p, s, step);
  }

  lemma {:induction false} RunPreservesInv(p: Params, s: State, steps: seq<Step>, end: State)
    requires p.Valid() && p.Timely() && Inv(p, s) && Run(p, s, steps, end)
    ensures Inv(p, end)
    decreases |steps|
  {
    if steps == [] {
    } else {
      StepPreservesInv(p, s, steps[0]);
      RunPreservesInv(p, Do(p, s, steps[0]), steps[1..], end);
    }
  }

  /** In every run the key of a holder is live and its own until it calls release, so no two
      clients hold the lock. */
  lemma MutualExclusion(p: Params, clients: nat, s: State)
    requires p.Valid() && p.Timely() && Reachable(p, clients, s)
    ensures Exclusive(s)
    ensures forall c :: 0 <= c < |s.clients| && Holds(s.clients[c]) ==> KeyHeldFor(s, s.clients[c])
  {
    var steps :| Run(p, Init(clients), steps, s);
    RunPreservesInv(p, Init(clients), steps, s);
    forall c | 0 <= c < |s.clients| && Holds(s.clients[c]) ensures KeyHeldFor(s, s.clients[c]) {
      CoveredIsLive(p, s, s.clients[c]);
    }
  }

  // --- The bound is exact ---------------------------------------------------

  /** The slowest honest holder after f failed renewals: granted at time zero, every call as
      slow as allowed, nothing renewed. */
  ghost predicate Worst(p: Params, s: State, f: nat) {
    && |s.clients| >= 2 && s.clients[0] == Holding(0, Waiting(s.now + p.interval), f)
    && (forall c :: 1 <= c < |s.clients| ==> s.clients[c].Idle?)
    && s.lease == Lease(0, p.Lifetime()) && s.now == p.latency + p.Slack(f)
  }

  lemma Advance(p: Params, clients: nat, s: State, step: Step) returns (s': State)
    requires Reachable(p, clients, s) && Enabled(p, s, step)
    ensures s' == Do(p, s, step) && Reachable(p, clients, s')
  {
    s' := Do(p, s, step);
    ReachableStep(p, clients, s, step);
  }

  lemma WorstStart(p: Params, clients: nat) returns (s: State)
    requires p.Valid() && clients >= 2
    ensures Reachable(p, clients, s) && Worst(p, s, 0)
  {
    s := Init(clients);
    assert Run(p, s, [], s);
    s := Advance(p, clients, s, Request(0));
    s := Advance(p, clients, s, RunSet(0));
    s := Advance(p, clients, s, Tick(p.latency));
    s := Advance(p, clients, s, AcquireReturns(0));
  }

  lemma SlowRenewal(p: Params, clients: nat, s: State, f: nat) returns (s': State)
    requires p.Valid() && Reachable(p, clients, s) && Worst(p, s, f)
    ensures Reachable(p, clients, s')
    ensures s'.now == s.now + p.interval + p.latency && s'.lease == s.lease && |s'.clients| == |s.clients|
    ensures s'.clients[0] == Holding(0, Renewing(s.now + p.interval, Pending), f)
    ensures forall c :: 1 <= c < |s'.clients| ==> s'.clients[c].Idle?
  {
    s' := Advance(p, clients, s, Tick(p.interval));
    s' := Advance(p, clients, s', Wake(0));
    s' := Advance(p, clients, s', Tick(p.latency));
  }

  lemma {:induction false} WorstAfter(p: Params, clients: nat, f: nat) returns (s: State)
    requires p.Valid() && clients >= 2 && f <= p.maxFailures
    ensures Reachable(p, clients, s) && Worst(p, s, f)
  {
    if f == 0 {
      s := WorstStart(p, clients);
    } else {
      s := WorstAfter(p, clients, f - 1);
      s := SlowRenewal(p, clients, s, f - 1);
      s := Advance(p, clients, s, RenewFails(0));
    }
  }

  lemma UntimelyBreaks(p: Params, clients: nat) returns (s: State)
    requires p.Valid() && !p.Timely() && clients >= 2
    ensures Reachable(p, clients, s) && !Exclusive(s)
  {
    s := WorstAfter(p, clients, p.maxFailures);
    s := SlowRenewal(p, clients, s, p.maxFailures);
    s := Advance(p, clients, s, Request(1));
    s := Advance(p, clients, s, RunSet(1));
    assert Holds(s.clients[0]) && Holds(s.clients[1]);
  }

  /** The lock excludes in every run of two or more clients exactly when the worst renewal
      gap is below the key's lifetime. */
  lemma ExclusiveIffTimely(p: Params, clients: nat)
    requires p.Valid() && clients >= 2
    ensures (forall s :: Reachable(p, clients, s) ==> Exclusive(s)) <==> p.Timely()
  {
    if p.Timely() {
      forall s | Reachable(p, clients, s) ensures Exclusive(s) {
        MutualExclusion(p, clients, s);
      }
    } else {
      var s := UntimelyBreaks(p, clients);
    }
  }

  lemma {:induction false} SlackClosedForm(p: Params, n: nat)
    ensures p.Slack(n) == n as real * (p.interval + p.latency)
  {
    if n == 0 {
    } else {
      SlackClosedForm(p, n - 1);
    }
  }

  /** The condition in closed form: one more interval and two more calls than failures. */
  lemma TimelyClosedForm(p: Params)
    ensures var m := p.maxFailures as real;
            p.Timely() <==> (m + 1.0) * p.interval + (m + 2.0) * p.latency < p.Lifetime()
  {
    SlackClosedForm(p, p.maxFailures);
    var m := p.maxFailures as real;
    assert m * (p.interval + p.latency) == m * p.interval + m * p.latency;
    assert (m + 1.0) * p.interval == m * p.interval + p.interval;
    assert (m + 2.0) * p.latency == m * p.latency + 2.0 * p.latency;
  }

  /** With the default interval and single failures, the condition is one about the latency alone:
      from 0.3 s on, nine calls must fit in the time to live, less three times what rounding to
      milliseconds takes away; below, the interval is 0.1 s, two of them and three calls must fit,
      and so 0.2 s are never enough. */
  lemma DefaultTimely(ttl: real, latency: real)
    ensures var p := Params(ttl, DefaultInterval(ttl), latency, 1);
            && (ttl >= 0.3 ==> (p.Timely() <==> 9.0 * latency < ttl - 3.0 * (ttl - p.Lifetime())))
            && (ttl < 0.3 ==> (p.Timely() <==> 3.0 * latency < p.Lifetime() - 0.2))
            && 0.0 <= ttl - p.Lifetime() < 0.001
  {
    var p := Params(ttl, DefaultInterval(ttl), latency, 1);
    assert p.Slack(1) == p.interval + p.latency + p.Slack(0);
  }

  // --- Progress -------------------------------------------------------------

  /** A release frees the key, and the next client gets it at once: from any state in which a
      client holds a live key of its own, without any time going by. */
  lemma HandOver(p: Params, s: State, c: nat, d: nat) returns (steps: seq<Step>, end: State)
    requires c < |s.clients| && d < |s.clients| && s.clients[c].Holding? && s.clients[d].Idle?
    requires s.lease.Lease? && s.lease.token == s.clients[c].token && s.now < s.lease.expiry
    ensures Run(p, s, steps, end) && end.now == s.now && |end.clients| == |s.clients|
    ensures end.clients[c] == Idle && end.clients[d] == Holding(s.nextToken, Waiting(s.now + p.interval), 0)
    ensures end.lease == Lease(s.nextToken, s.now + p.Lifetime())
  {
    var delete := Delete(s.clients[c].token);
    var released := Do(p, s, Release(c));
    var freed := Do(p, released, RunLate(delete));
    var asked := Do(p, freed, Request(d));
    var granted := Do(p, asked, RunSet(d));
    end := Do(p, granted, AcquireReturns(d));
    RunExtends(p, s, [], s, Release(c));
    RunExtends(p, s, [] + [Release(c)], released, RunLate(delete));
    RunExtends(p, s, [] + [Release(c)] + [RunLate(delete)], freed, Request(d));
    RunExtends(p, s, [] + [Release(c)] + [RunLate(delete)] + [Request(d)], asked, RunSet(d));
    steps := [] + [Release(c)] + [RunLate(delete)] + [Request(d)] + [RunSet(d)];
    RunExtends(p, s, steps, granted, AcquireReturns(d));
    steps := steps + [AcquireReturns(d)];
  }

  /** Whoever moves on while a call is on its way, by giving up, by a renewal that fails, or by a
      release, leaves the call behind, and Redis may still run it. */
  lemma LateCalls(p: Params, s: State, step: Step)
    requires Enabled(p, s, step)
    ensures step.GiveUp? ==> Enabled(p, Do(p, s, step), RunLate(SetNx(s.clients[step.c].token)))
    ensures step.RenewFails? ==> Enabled(p, Do(p, s, step), RunLate(Extend(s.clients[step.c].token)))
    ensures step.Release? ==> Enabled(p, Do(p, s, step), RunLate(Delete(s.clients[step.c].token)))
    ensures step.Release? && s.clients[step.c].beat.Renewing? ==>
              Enabled(p, Do(p, s, step), RunLate(Extend(s.clients[step.c].token)))
    ensures forall command :: Enabled(p, s, RunLate(command)) ==> Enabled(p, Do(p, s, step), RunLate(command))
  {
  }

  /** Only calls on their way and heartbeats that are due bound how long time may go by. */
  lemma TimeMayPass(p: Params, s: State, dt: real)
    requires dt >= 0.0
    requires forall c :: 0 <= c < |s.clients| ==>
               || s.clients[c].Idle?
               || (s.clients[c].Acquiring? && s.clients[c].reply == Rejected)
               || (s.clients[c].Holding? && s.clients[c].beat.Stopped?)
               || (s.clients[c].Holding? && s.clients[c].beat.Waiting? && s.now + dt <= s.clients[c].beat.wakeAt)
    ensures Enabled(p, s, Tick(dt)) && Do(p, s, Tick(dt)) == s.(now := s.now + dt)
  {
  }
}
