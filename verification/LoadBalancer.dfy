/** Round-robin choice among model credentials: LBModelManager and the retry loop of
    ModelInstance. Other callers share the counter in Redis, so what they do to it between
    two increments of this caller is a parameter. */
module LoadBalancer {
  import opened NumberTheory
  import opened Wrappers

  type Credentials = map<string, string>

  datatype Config = Config(id: string, name: string, credentials: Credentials, credentialId: Option<string>)

  const INHERIT := "__inherit__"
  const RESET := 10_000_000

  // --- Choosing a slot ------------------------------------------------------

  /** The value an increment yields, after the wrap at RESET. */
  function Draw(counter: nat): (v: nat)
    ensures 1 <= v < RESET
  {
    if counter + 1 >= RESET then 1 else counter + 1
  }

  /** The list position the code computes from a drawn value, Python's negative index included. */
  function Slot(v: nat, n: nat): (s: nat)
    requires n > 0 && v >= 1
    ensures s < n
  {
    var current := if v > n then v % n else v;
    var realIndex := current - 1;
    var index := if realIndex > n then 0 else realIndex;
    if index < 0 then n + index else index
  }

  /** The guard against an index beyond the list is dead, and the pick is plain round robin. */
  lemma SlotIsRoundRobin(v: nat, n: nat)
    requires n > 0 && v >= 1
    ensures (if v > n then v % n else v) - 1 <= n
    ensures Slot(v, n) == (v - 1) % n
  {
    if v <= n {
      CongruentReflexive(v - 1, n);
      ResidueUnique(v - 1, v - 1, n);
    } else {
      var q, r := v / n, v % n;
      assert v == n * q + r;
      if r == 0 {
        assert v - 1 - (n - 1) == n * (q - 1);
        ResidueUnique(v - 1, n - 1, n);
      } else {
        assert v - 1 - (r - 1) == n * q;
        ResidueUnique(v - 1, r - 1, n);
      }
    }
  }

  /** What other callers do to the counter before this caller's i-th increment. */
  type Meddling = (nat, nat) -> nat

  function Undisturbed(): Meddling {
    (i, counter) => counter
  }

  /** The search from its i-th increment on: the slot found, and the counter it leaves. */
  function Scan(usable: seq<bool>, meddle: Meddling, counter: nat, i: nat): (Option<nat>, nat)
    requires 0 < |usable| && i <= |usable|
    decreases |usable| - i
  {
    if i == |usable| then (None, counter)
    else
      var v := Draw(meddle(i, counter));
      var s := Slot(v, |usable|);
      if usable[s] then (Some(s), v) else Scan(usable, meddle, v, i + 1)
  }

  // --- Coverage -------------------------------------------------------------

  /** The value of this caller's i-th draw when nobody else draws. */
  function Drawn(counter: nat, i: nat): (v: nat)
    ensures 1 <= v < RESET
  {
    if i == 0 then Draw(counter) else Draw(Drawn(counter, i - 1))
  }

  ghost predicate Visits(counter: nat, n: nat, s: nat)
    requires n > 0
  {
    exists i :: 0 <= i < n && Slot(Drawn(counter, i), n) == s
  }

  lemma {:induction false} DrawnShift(counter: nat, i: nat)
    ensures Drawn(counter, i + 1) == Drawn(Draw(counter), i)
  {
    if i == 0 {
    } else {
      DrawnShift(counter, i - 1);
    }
  }

  /** The first m slots visited from counter on are all unusable. */
  predicate Misses(usable: seq<bool>, counter: nat, m: nat)
    requires usable != []
    decreases m
  {
    m == 0 || (!usable[Slot(Draw(counter), |usable|)] && Misses(usable, Draw(counter), m - 1))
  }

  /** The j-th draw from counter meets an unusable slot. */
  predicate Blocked(usable: seq<bool>, counter: nat, j: nat)
    requires usable != []
  {
    !usable[Slot(Drawn(counter, j), |usable|)]
  }

  lemma {:induction false} MissesEach(usable: seq<bool>, counter: nat, m: nat)
    requires usable != []
    ensures Misses(usable, counter, m) <==> forall j :: 0 <= j < m ==> Blocked(usable, counter, j)
    decreases m
  {
    if m == 0 {
    } else {
      var c := Draw(counter);
      MissesEach(usable, c, m - 1);
      assert Drawn(counter, 0) == c;
      forall j | 0 <= j < m - 1 ensures Blocked(usable, counter, j + 1) <==> Blocked(usable, c, j) {
        DrawnShift(counter, j);
      }
      assert Misses(usable, counter, m) <==> Blocked(usable, counter, 0) && Misses(usable, c, m - 1);
      forall j | 1 <= j < m ensures Blocked(usable, counter, j) <==> Blocked(usable, c, j - 1) {
        assert Blocked(usable, counter, (j - 1) + 1) <==> Blocked(usable, c, j - 1);
      }
    }
  }

  /** Undisturbed, the search fails exactly when every slot it visits is unusable. */
  lemma {:induction false} ScanFails(usable: seq<bool>, counter: nat, i: nat)
    requires 0 < |usable| && i <= |usable|
    ensures Scan(usable, Undisturbed(), counter, i).0 == None <==> Misses(usable, counter, |usable| - i)
    decreases |usable| - i
  {
    if i == |usable| {
    } else {
      ScanFails(usable, Draw(counter), i + 1);
    }
  }

  /** What a caller can check beforehand: the counter does not wrap within n draws, or wraps
      at the first, or wraps where a round of n ends anyway. */
  predicate CleanStart(counter: nat, n: nat)
    requires n > 0
  {
    || counter + n < RESET
    || (counter >= RESET - 1 && n < RESET)
    || (RESET - 1) % n == 0
  }

  /** Draws before the wrap. */
  function BeforeWrap(counter: nat): nat {
    if counter >= RESET - 1 then 0 else RESET - 1 - counter
  }

  lemma {:induction false} DrawnClosedForm(counter: nat, i: nat)
    requires i < BeforeWrap(counter) + RESET - 1
    ensures var a := BeforeWrap(counter);
            Drawn(counter, i) == if i < a then counter + i + 1 else i - a + 1
  {
    if i == 0 {
    } else {
      DrawnClosedForm(counter, i - 1);
    }
  }

  lemma VisitAt(counter: nat, n: nat, s: nat, i: nat)
    requires i < n && (Drawn(counter, i) - 1) % n == s
    ensures Visits(counter, n, s)
  {
    SlotIsRoundRobin(Drawn(counter, i), n);
  }

  /** n values without a wrap: one of them falls on s. */
  lemma VisitsWithoutWrap(counter: nat, n: nat, s: nat)
    requires 0 < n <= BeforeWrap(counter) && s < n
    ensures Visits(counter, n, s)
  {
    var q, i := (s - counter) / n, (s - counter) % n;
    assert s - counter == n * q + i;
    assert counter + i - s == n * -q;
    ResidueUnique(counter + i, s, n);
    DrawnClosedForm(counter, i);
    VisitAt(counter, n, s, i);
  }

  lemma VisitsAfterWrap(counter: nat, n: nat, s: nat)
    requires BeforeWrap(counter) + s < n < RESET
    ensures Visits(counter, n, s)
  {
    var i := BeforeWrap(counter) + s;
    DrawnClosedForm(counter, i);
    CongruentReflexive(s, n);
    ResidueUnique(s, s, n);
    VisitAt(counter, n, s, i);
  }

  lemma VisitsBeforeWrap(counter: nat, n: nat, s: nat)
    requires 0 < BeforeWrap(counter) < n && n - BeforeWrap(counter) <= s < n && (RESET - 1) % n == 0
    ensures Visits(counter, n, s)
  {
    var i, q := s - (n - BeforeWrap(counter)), (RESET - 1) / n;
    assert RESET - 1 == n * q;
    assert counter + i - s == n * (q - 1);
    ResidueUnique(counter + i, s, n);
    DrawnClosedForm(counter, i);
    VisitAt(counter, n, s, i);
  }

  lemma FactorAtMost(n: nat)
    requires n > 0
    ensures (RESET - 1) % n == 0 ==> n < RESET
  {
    if n >= RESET {
      CongruentReflexive(RESET - 1, n);
      ResidueUnique(RESET - 1, RESET - 1, n);
    }
  }

  lemma CleanStartVisits(counter: nat, n: nat, s: nat)
    requires n > 0 && CleanStart(counter, n) && s < n
    ensures Visits(counter, n, s)
  {
    FactorAtMost(n);
    if BeforeWrap(counter) >= n {
      VisitsWithoutWrap(counter, n, s);
    } else if s < n - BeforeWrap(counter) {
      VisitsAfterWrap(counter, n, s);
    } else {
      VisitsBeforeWrap(counter, n, s);
    }
  }

  lemma MissedBeforeWrap(n: nat, a: nat, r: nat, q: int, s: nat, i: nat)
    requires 0 < r < n && i < a < n && s == if r >= n - a then r else n - a
    ensures (n * q + r - a + i) % n != s
  {
    var x := n * q + r - a + i;
    var t := x / n - q;
    if x % n == s {
      assert x == n * (x / n) + s;
      assert n * t == r - a + i - s;
      SmallMultiple(n, t);
      assert n * (t + 1) == n * t + n;
      SmallMultiple(n, t + 1);
    }
  }

  lemma OtherwiseMisses(counter: nat, n: nat) returns (s: nat)
    requires n > 0 && !CleanStart(counter, n)
    ensures s < n && !Visits(counter, n, s)
  {
    if n >= RESET {
      s := n - 1;
      forall i | 0 <= i < n ensures Slot(Drawn(counter, i), n) != s {
        var v := Drawn(counter, i);
        SlotIsRoundRobin(v, n);
        CongruentReflexive(v - 1, n);
        ResidueUnique(v - 1, v - 1, n);
      }
    } else {
      var a, r, q := BeforeWrap(counter), (RESET - 1) % n, (RESET - 1) / n;
      assert RESET - 1 == n * q + r;
      s := if r >= n - a then r else n - a;
      forall i | 0 <= i < n ensures Slot(Drawn(counter, i), n) != s {
        DrawnClosedForm(counter, i);
        SlotIsRoundRobin(Drawn(counter, i), n);
        if i < a {
          MissedBeforeWrap(n, a, r, q, s, i);
        } else {
          CongruentReflexive(i - a, n);
          ResidueUnique(i - a, i - a, n);
        }
      }
    }
  }

  ghost predicate FailsOnlyWhenNoneUsable(counter: nat, n: nat)
    requires n > 0
  {
    forall usable: seq<bool> :: |usable| == n ==>
      (Scan(usable, Undisturbed(), counter, 0).0 == None <==> forall s :: 0 <= s < n ==> !usable[s])
  }

  lemma VisitedIsUnusable(usable: seq<bool>, counter: nat, s: nat)
    requires s < |usable| && Visits(counter, |usable|, s)
    requires forall j :: 0 <= j < |usable| ==> Blocked(usable, counter, j)
    ensures !usable[s]
  {
    var i :| 0 <= i < |usable| && Slot(Drawn(counter, i), |usable|) == s;
    assert Blocked(usable, counter, i);
  }

  lemma CleanSearch(usable: seq<bool>, counter: nat)
    requires usable != [] && forall s :: 0 <= s < |usable| ==> Visits(counter, |usable|, s)
    ensures Scan(usable, Undisturbed(), counter, 0).0 == None <==> forall s :: 0 <= s < |usable| ==> !usable[s]
  {
    ScanFails(usable, counter, 0);
    MissesEach(usable, counter, |usable|);
    if Misses(usable, counter, |usable|) {
      forall s | 0 <= s < |usable| ensures !usable[s] {
        VisitedIsUnusable(usable, counter, s);
      }
    } else {
      var j :| 0 <= j < |usable| && !Blocked(usable, counter, j);
      assert usable[Slot(Drawn(counter, j), |usable|)];
    }
  }

  lemma UncleanSearch(counter: nat, n: nat)
    requires n > 0 && !CleanStart(counter, n)
    ensures !FailsOnlyWhenNoneUsable(counter, n)
  {
    var missed := OtherwiseMisses(counter, n);
    var usable := seq(n, s => s == missed);
    ScanFails(usable, counter, 0);
    MissesEach(usable, counter, n);
    forall j | 0 <= j < n ensures Blocked(usable, counter, j) {
      assert Slot(Drawn(counter, j), n) != missed;
    }
    assert usable[missed] && |usable| == n;
    assert Scan(usable, Undisturbed(), counter, 0).0 == None;
  }

  /** Run alone, the search reports that no configuration is left exactly when that is so,
      if and only if it starts clean; around the counter's wrap it can miss a usable one. */
  lemma ExhaustionIsExact(counter: nat, n: nat)
    requires n > 0
    ensures FailsOnlyWhenNoneUsable(counter, n) <==> CleanStart(counter, n)
  {
    if CleanStart(counter, n) {
      forall usable: seq<bool> | |usable| == n
        ensures Scan(usable, Undisturbed(), counter, 0).0 == None <==> forall s :: 0 <= s < n ==> !usable[s]
      {
        forall s | 0 <= s < n ensures Visits(counter, n, s) {
          CleanStartVisits(counter, n, s);
        }
        CleanSearch(usable, counter);
      }
    } else {
      UncleanSearch(counter, n);
    }
  }

  /** However the others meddle, the search ends within n draws on a usable slot or on none. */
  /** Such a search in the flesh: of two configurations the first is unusable, both draws fall on it
      because the counter is reset between them, and the second is never looked at. */
  lemma WrapMissesUsable()
    ensures Scan([false, true], Undisturbed(), 9_999_998, 0) == (None, 1)
    ensures Scan([false, true], Undisturbed(), 9_999_997, 0).0 == Some(1)
  {
    assert Draw(9_999_998) == 9_999_999 && Draw(9_999_999) == 1 && Draw(9_999_997) == 9_999_998;
    SlotIsRoundRobin(9_999_999, 2);
    SlotIsRoundRobin(9_999_998, 2);
    SlotIsRoundRobin(1, 2);
    assert Scan([false, true], Undisturbed(), 1, 2) == (None, 1);
    assert Scan([false, true], Undisturbed(), 9_999_999, 1) == (None, 1);
  }

  lemma {:induction false} ScanSound(usable: seq<bool>, meddle: Meddling, counter: nat, i: nat)
    requires 0 < |usable| && i <= |usable|
    ensures var r := Scan(usable, meddle, counter, i).0;
            && (r.Some? ==> r.value < |usable| && usable[r.value])
            && ((forall s :: 0 <= s < |usable| ==> !usable[s]) ==> r == None)
            && (i < |usable| && (forall s :: 0 <= s < |usable| ==> usable[s]) ==> r.Some?)
    decreases |usable| - i
  {
    if i == |usable| {
    } else {
      ScanSound(usable, meddle, Draw(meddle(i, counter)), i + 1);
    }
  }

  // --- Fairness -------------------------------------------------------------

  /** How many of m successive draws, by whichever callers, fall on slot s. */
  function Picks(counter: nat, m: nat, n: nat, s: nat): nat
    requires n > 0
  {
    if m == 0 then 0
    else Picks(counter, m - 1, n, s) + if Slot(Drawn(counter, m - 1), n) == s then 1 else 0
  }

  /** How many numbers below x fall on slot s. */
  function Below(x: nat, n: nat, s: nat): int
    requires n > 0
  {
    (x + n - 1 - s) / n
  }

  lemma BelowNext(x: nat, n: nat, s: nat)
    requires n > 0 && s < n
    ensures Below(x + 1, n, s) == Below(x, n, s) + if x % n == s then 1 else 0
  {
    var q, r := x / n, x % n;
    assert x == n * q + r;
    var below, here := if r > s then 1 else 0, if r >= s then 1 else 0;
    QuotientUnique(x + n - 1 - s, n, q + below, r - s - 1 + n - n * below);
    QuotientUnique(x + n - s, n, q + here, r - s + n - n * here);
  }

  lemma {:induction false} PicksClosedForm(counter: nat, m: nat, n: nat, s: nat)
    requires n > 0 && s < n && counter + m < RESET
    ensures Picks(counter, m, n, s) == Below(counter + m, n, s) - Below(counter, n, s)
  {
    if m == 0 {
    } else {
      PicksClosedForm(counter, m - 1, n, s);
      DrawnClosedForm(counter, m - 1);
      assert Drawn(counter, m - 1) == counter + m;
      SlotIsRoundRobin(counter + m, n);
      BelowNext(counter + m - 1, n, s);
    }
  }

  lemma QuotientCarries(x: nat, m: nat, n: nat)
    requires n > 0
    ensures (x + m) / n == x / n + m / n + if x % n + m % n >= n then 1 else 0
  {
    var q, r, k, t := x / n, x % n, m / n, m % n;
    var carry := if r + t >= n then 1 else 0;
    assert n * (q + k + carry) == n * q + n * k + n * carry;
    QuotientUnique(x + m, n, q + k + carry, r + t - n * carry);
  }

  lemma QuotientRoundsUp(m: nat, n: nat)
    requires n > 0
    ensures (m + n - 1) / n == m / n + if m % n > 0 then 1 else 0
  {
    var k, t := m / n, m % n;
    var up := if t > 0 then 1 else 0;
    assert n * (k + up) == n * k + n * up;
    QuotientUnique(m + n - 1, n, k + up, t - 1 + n - n * up);
  }

  lemma QuotientOfSum(x: nat, m: nat, n: nat)
    requires n > 0
    ensures m / n <= (x + m) / n - x / n <= (m + n - 1) / n
  {
    QuotientCarries(x, m, n);
    QuotientRoundsUp(m, n);
  }

  /** Below the wrap, any m successive draws give every slot its floor or ceiling share. */
  lemma Fairness(counter: nat, m: nat, n: nat, s: nat)
    requires n > 0 && s < n && counter + m < RESET
    ensures m / n <= Picks(counter, m, n, s) <= (m + n - 1) / n
  {
    PicksClosedForm(counter, m, n, s);
    QuotientOfSum(counter + n - 1 - s, m, n);
  }

  // --- The manager ----------------------------------------------------------

  predicate Cooling(cooldownUntil: map<string, real>, id: string, now: real) {
    id in cooldownUntil && now < cooldownUntil[id]
  }

  class Redis {
    var counter: nat
    var cooldownUntil: map<string, real>

    predicate InCooldown(id: string, now: real)
      reads this
    {
      Cooling(cooldownUntil, id, now)
    }
  }

  /** The policy service's answer for a credential; it may change from round to round. */
  type Policy = (nat, string) -> bool

  predicate Compliant(config: Config, policy: Policy, round: nat) {
    config.credentialId == None || config.credentialId == Some("") || policy(round, config.credentialId.value)
  }

  /** Which configurations may be picked. A missing or empty credential id is not checked. */
  predicate Usable(config: Config, cooldownUntil: map<string, real>, now: real, policy: Policy, round: nat) {
    !Cooling(cooldownUntil, config.id, now) && Compliant(config, policy, round)
  }

  function UsableSlots(configs: seq<Config>, cooldownUntil: map<string, real>, now: real,
                       policy: Policy, round: nat): (r: seq<bool>)
    ensures |r| == |configs|
    ensures forall s :: 0 <= s < |r| ==> r[s] == Usable(configs[s], cooldownUntil, now, policy, round)
  {
    seq(|configs|, s requires 0 <= s < |configs| => Usable(configs[s], cooldownUntil, now, policy, round))
  }

  /** What one search finds, and the counter it leaves. */
  function Search(configs: seq<Config>, cooldownUntil: map<string, real>, now: real, policy: Policy, round: nat,
                  meddle: Meddling, counter: nat): (r: (Option<Config>, nat))
    requires configs != []
    ensures r.0.Some? ==> r.0.value in configs && Usable(r.0.value, cooldownUntil, now, policy, round)
  {
    var usable := UsableSlots(configs, cooldownUntil, now, policy, round);
    ScanSound(usable, meddle, counter, 0);
    var found := Scan(usable, meddle, counter, 0);
    (if found.0.Some? then Some(configs[found.0.value]) else None, found.1)
  }

  /** A search only picks what does not cool down and what the policy lets through: an entry without
      a credential id, or with an empty one, or one whose id is accepted in this round. */
  lemma PickedIsAllowed(configs: seq<Config>, cooling: map<string, real>, now: real, policy: Policy, round: nat,
                        meddle: Meddling, counter: nat)
    requires configs != [] && Search(configs, cooling, now, policy, round, meddle, counter).0.Some?
    ensures var config := Search(configs, cooling, now, policy, round, meddle, counter).0.value;
            && config in configs
            && !(config.id in cooling && now < cooling[config.id])
            && (config.credentialId.Some? && config.credentialId.value != ""
                ==> policy(round, config.credentialId.value))
  {
  }

  /** The list after construction: entries that inherit get the managed credentials, or go. */
  function Prepared(configs: seq<Config>, managed: Credentials): seq<Config> {
    if configs == [] then []
    else
      var before, config := Prepared(configs[..|configs| - 1], managed), configs[|configs| - 1];
      if config.name != INHERIT then before + [config]
      else if managed == map[] then before
      else before + [config.(credentials := managed)]
  }

  /** Nothing that is kept still waits for inherited credentials. */
  lemma {:induction false} PreparedHasCredentials(configs: seq<Config>, managed: Credentials)
    ensures forall c :: c in Prepared(configs, managed) && c.name == "__inherit__" ==>
              managed != map[] && c.credentials == managed
    ensures forall c :: c in configs && c.name != "__inherit__" ==> c in Prepared(configs, managed)
  {
    if configs == [] {
    } else {
      PreparedHasCredentials(configs[..|configs| - 1], managed);
    }
  }

  /** The list is shared: an entry that one manager dropped for want of credentials is gone for
      every later one, and later credentials replace earlier ones. */
  lemma {:induction false} PreparedTwice(configs: seq<Config>, first: Credentials, second: Credentials)
    ensures Prepared(Prepared(configs, first), second) == Prepared(configs, if first == map[] then map[] else second)
  {
    if configs == [] {
    } else {
      var init, last := configs[..|configs| - 1], configs[|configs| - 1];
      PreparedTwice(init, first, second);
      var before := Prepared(init, first);
      assert Prepared(configs, first) == before || Prepared(configs, first)[..|before|] == before;
    }
  }

  /** The entries that a list refers to. */
  function Values(items: seq<nat>, at: nat -> Config): (r: seq<Config>)
    ensures |r| == |items|
  {
    seq(|items|, i requires 0 <= i < |items| => at(items[i]))
  }

  /** list.remove: entries are compared by value. */
  function RemoveFirst(items: seq<nat>, at: nat -> Config, x: nat): seq<nat> {
    if items == [] then []
    else if at(items[0]) == at(x) then items[1..]
    else [items[0]] + RemoveFirst(items[1..], at, x)
  }

  lemma {:induction false} RemoveFirstAfter(before: seq<nat>, x: nat, after: seq<nat>, at: nat -> Config)
    requires forall i :: 0 <= i < |before| ==> at(before[i]) != at(x)
    ensures RemoveFirst(before + [x] + after, at, x) == before + after
  {
    var s := before + [x] + after;
    if before == [] {
      assert s[1..] == before + after;
    } else {
      RemoveFirstAfter(before[1..], x, after, at);
      assert s[1..] == before[1..] + [x] + after;
      assert before + after == [before[0]] + (before[1..] + after);
    }
  }

  /** What remains of the list without managed credentials. */
  function Kept(items: seq<nat>, at: nat -> Config): (r: seq<nat>)
    ensures forall i :: 0 <= i < |r| ==> at(r[i]).name != INHERIT
  {
    if items == [] then []
    else
      var before, last := Kept(items[..|items| - 1], at), items[|items| - 1];
      if at(last).name != INHERIT then before + [last] else before
  }

  /** What an entry becomes when the loop has come to it with managed credentials. */
  function Given(config: Config, reached: bool, managed: Credentials): Config {
    if reached && config.name == INHERIT && managed != map[] then config.(credentials := managed) else config
  }

  lemma {:induction false} KeptArePrepared(items: seq<nat>, at: nat -> Config)
    ensures Values(Kept(items, at), at) == Prepared(Values(items, at), map[])
  {
    if items == [] {
    } else {
      var init, last := items[..|items| - 1], items[|items| - 1];
      KeptArePrepared(init, at);
      assert Values(items, at)[..|init|] == Values(init, at);
      assert Values(Kept(init, at) + [last], at) == Values(Kept(init, at), at) + [at(last)];
    }
  }

  lemma {:induction false} GivenArePrepared(items: seq<nat>, at: nat -> Config, managed: Credentials,
                                            at': nat -> Config)
    requires managed != map[] && forall i :: 0 <= i < |items| ==> at'(items[i]) == Given(at(items[i]), true, managed)
    ensures Values(items, at') == Prepared(Values(items, at), managed)
  {
    if items == [] {
    } else {
      var init, last := items[..|items| - 1], items[|items| - 1];
      GivenArePrepared(init, at, managed, at');
      assert Values(items, at)[..|init|] == Values(init, at);
      assert Values(items, at') == Values(init, at') + [at'(last)];
    }
  }

  function Updated(at: nat -> Config, entry: nat, config: Config): nat -> Config {
    (e: nat) => if e == entry then config else at(e)
  }

  /** The entries after the loop has come to some of them with managed credentials. */
  function GivenTo(items: seq<nat>, at: nat -> Config, managed: Credentials): nat -> Config {
    if items == [] then at
    else
      var before, last := GivenTo(items[..|items| - 1], at, managed), items[|items| - 1];
      if at(last).name == INHERIT then Updated(before, last, before(last).(credentials := managed)) else before
  }

  lemma {:induction false} GivenToEach(items: seq<nat>, at: nat -> Config, managed: Credentials, e: nat)
    requires managed != map[]
    ensures GivenTo(items, at, managed)(e) == Given(at(e), e in items, managed)
  {
    if items == [] {
    } else {
      GivenToEach(items[..|items| - 1], at, managed, e);
    }
  }

  /** The list and the entries while the loop is at the i-th of the given ones. */
  ghost predicate PartlyPrepared(given: seq<nat>, at0: nat -> Config, i: nat, managed: Credentials,
                                 items: seq<nat>, at: nat -> Config)
    requires i <= |given|
  {
    if managed == map[] then items == Kept(given[..i], at0) + given[i..] && at == at0
    else items == given && at == GivenTo(given[..i], at0, managed)
  }

  /** One pass of the loop: an entry that inherits is dropped or gets its credentials. */
  lemma PartlyPreparedStep(given: seq<nat>, at0: nat -> Config, i: nat, managed: Credentials,
                           items: seq<nat>, at: nat -> Config)
    requires i < |given| && PartlyPrepared(given, at0, i, managed, items, at)
    ensures var entry, next := given[i], i + 1;
            if at(entry).name != INHERIT then PartlyPrepared(given, at0, next, managed, items, at)
            else if managed == map[] then
              PartlyPrepared(given, at0, next, managed, RemoveFirst(items, at, entry), at)
            else
              PartlyPrepared(given, at0, next, managed, items,
                             Updated(at, entry, at(entry).(credentials := managed)))
  {
    var before := Kept(given[..i], at0);
    assert given[..i + 1][..i] == given[..i];
    if managed != map[] {
      GivenToEach(given[..i], at0, managed, given[i]);
    } else {
      assert given[i..] == [given[i]] + given[i + 1..];
      assert before + given[i..] == before + [given[i]] + given[i + 1..];
      if at(given[i]).name == INHERIT {
        RemoveFirstAfter(before, given[i], given[i + 1..], at);
      }
    }
  }

  /** When the loop is through, the list refers to the prepared entries. */
  lemma AllPrepared(given: seq<nat>, at0: nat -> Config, managed: Credentials, items: seq<nat>, at: nat -> Config)
    requires PartlyPrepared(given, at0, |given|, managed, items, at)
    ensures items == if managed == map[] then Kept(given, at0) else given
    ensures forall e: nat :: at(e) == Given(at0(e), e in given, managed)
    ensures Values(items, at) == Prepared(Values(given, at0), managed)
  {
    assert given[..|given|] == given;
    if managed == map[] {
      KeptArePrepared(given, at0);
    } else {
      forall e: nat ensures at(e) == Given(at0(e), e in given, managed) {
        GivenToEach(given, at0, managed, e);
      }
      GivenArePrepared(given, at0, managed, at);
    }
  }

  /** The entries themselves, which others may hold too, by reference. */
  class Entries {
    var at: nat -> Config
  }

  /** The caller's list of references to entries, which the manager keeps and edits in place. */
  class ConfigList {
    var items: seq<nat>
  }

  datatype Fetched = Picked(config: Config) | NoneAvailable | DividedByZero

  class LBModelManager {
    const redis: Redis
    const list: ConfigList
    const entries: Entries

    function Configs(): seq<Config>
      reads list, entries
    {
      Values(list.items, entries.at)
    }

    /** managed is empty when no managed credentials are given. Every holder of an entry sees the
        credentials that it got, and every holder of the list what was dropped. */
    constructor (redis: Redis, list: ConfigList, entries: Entries, managed: Credentials)
      modifies list, entries
      ensures this.redis == redis && this.list == list && this.entries == entries
      ensures Configs() == Prepared(Values(old(list.items), old(entries.at)), managed)
      ensures list.items == if managed == map[] then Kept(old(list.items), old(entries.at)) else old(list.items)
      ensures forall e :: entries.at(e) == Given(old(entries.at)(e), e in old(list.items), managed)
    {
      this.redis, this.list, this.entries := redis, list, entries;
      new;
      var given := list.items;
      ghost var at0 := entries.at;
      for i := 0 to |given|
        invariant PartlyPrepared(given, at0, i, managed, list.items, entries.at)
      {
        var entry := given[i];
        PartlyPreparedStep(given, at0, i, managed, list.items, entries.at);
        if entries.at(entry).name == INHERIT {
          if managed == map[] {
            list.items := RemoveFirst(list.items, entries.at, entry);
          } else {
            entries.at := Updated(entries.at, entry, entries.at(entry).(credentials := managed));
          }
        }
      }
      AllPrepared(given, at0, managed, list.items, entries.at);
    }

    method FetchNext(now: real, policy: Policy, round: nat, meddle: Meddling) returns (r: Fetched)
      modifies redis
      ensures redis.cooldownUntil == old(redis.cooldownUntil)
      ensures r == DividedByZero <==> Configs() == []
      ensures Configs() != [] ==>
        var found := Search(Configs(), redis.cooldownUntil, now, policy, round, meddle, old(redis.counter));
        && redis.counter == found.1
        && r == if found.0.Some? then Picked(found.0.value) else NoneAvailable
      ensures r.Picked? ==>
        && r.config in Configs()
        && !(r.config.id in redis.cooldownUntil && now < redis.cooldownUntil[r.config.id])
        && (r.config.credentialId.Some? && r.config.credentialId.value != ""
            ==> policy(round, r.config.credentialId.value))
    {
      var maxIndex := |list.items|;
      if maxIndex == 0 {
        redis.counter := Draw(meddle(0, redis.counter));
        return DividedByZero;
      }
      ghost var usable := UsableSlots(Configs(), redis.cooldownUntil, now, policy, round);
      ghost var c0 := redis.counter;
      var skipped := [];
      while |skipped| < maxIndex
        invariant |skipped| <= maxIndex && redis.cooldownUntil == old(redis.cooldownUntil)
        invariant Scan(usable, meddle, c0, 0) == Scan(usable, meddle, redis.counter, |skipped|)
      {
        redis.counter := meddle(|skipped|, redis.counter) + 1;
        var drawn := redis.counter;
        if drawn >= RESET {
          // whatever others draw before the reset is overwritten by it
          redis.counter := meddle(|skipped|, redis.counter);
          drawn := 1;
          redis.counter := drawn;
        }
        var config := entries.at(list.items[Slot(drawn, maxIndex)]);
        if redis.InCooldown(config.id, now) || !Compliant(config, policy, round) {
          skipped := skipped + [config];
        } else {
          return Picked(config);
        }
      }
      return NoneAvailable;
    }

    method Cooldown(config: Config, now: real, expire: nat)
      modifies redis
      ensures redis.counter == old(redis.counter)
      ensures redis.cooldownUntil == old(redis.cooldownUntil)[config.id := now + expire as real]
    {
      redis.cooldownUntil := redis.cooldownUntil[config.id := now + expire as real];
    }
  }

  // --- The retry loop -------------------------------------------------------

  /** What became of one attempt; only the middle two errors are remembered by the loop. */
  datatype CallResult<V, E> = Returned(value: V) | RateLimited(error: E) | Unreachable(error: E)
                         | Failed(error: E) | NotCompliant

  /** drawn is the counter value that the configuration was found at. */
  datatype Attempt<V, E> = Attempt(config: Config, drawn: nat, result: CallResult<V, E>)

  /** What one invocation meets: the list, and in the k-th round the time of the search and the time
      at which the round is done, the policy service at the fetch and again before the call, the
      provider, and the other callers. */
  datatype Setting<V, E> = Setting(configs: seq<Config>, at: nat -> real, done: nat -> real,
                                   policy: Policy, recheck: Policy,
                                   call: (nat, Config) -> CallResult<V, E>, meddle: nat -> Meddling)

  datatype Outcome<V, E> = Value(value: V) | Raised(error: E) | NotInitialized | ZeroDivision

  predicate Retries<V, E>(result: CallResult<V, E>) {
    result.RateLimited? || result.Unreachable? || result.NotCompliant?
  }

  /** The error of the last attempt that left one. */
  function LastError<V, E>(attempts: seq<Attempt<V, E>>): Option<E> {
    if attempts == [] then None
    else
      var last := attempts[|attempts| - 1].result;
      if last.RateLimited? || last.Unreachable? then Some(last.error)
      else LastError(attempts[..|attempts| - 1])
  }

  function CooldownSeconds<V, E>(result: CallResult<V, E>): nat {
    if result.Unreachable? then 10 else 60
  }

  /** The cooldowns that a series of attempts leaves; each starts when its round is done. */
  function CooledBy<V, E>(cooldownUntil: map<string, real>, attempts: seq<Attempt<V, E>>,
                          done: nat -> real): map<string, real>
  {
    if attempts == [] then cooldownUntil
    else
      var k := |attempts| - 1;
      var before, last := CooledBy(cooldownUntil, attempts[..k], done), attempts[k];
      if Retries(last.result) then before[last.config.id := done(k) + CooldownSeconds(last.result) as real] else before
  }

  /** The k-th round's answer for a configuration. */
  function Answer<V, E>(env: Setting<V, E>, k: nat, config: Config): CallResult<V, E> {
    if Compliant(config, env.recheck, k) then env.call(k, config) else NotCompliant
  }

  function CounterAfter<V, E>(attempts: seq<Attempt<V, E>>, counter0: nat): nat {
    if attempts == [] then counter0 else attempts[|attempts| - 1].drawn
  }

  /** The search of the round after these attempts. */
  function NextSearch<V, E>(env: Setting<V, E>, attempts: seq<Attempt<V, E>>, cooling0: map<string, real>,
                            counter0: nat): (r: (Option<Config>, nat))
    requires env.configs != []
  {
    var k := |attempts|;
    Search(env.configs, CooledBy(cooling0, attempts, env.done), env.at(k), env.policy, k, env.meddle(k),
           CounterAfter(attempts, counter0))
  }

  ghost predicate FollowedAt<V(!new), E(!new)>(env: Setting<V, E>, attempts: seq<Attempt<V, E>>, k: nat,
                                               cooling0: map<string, real>, counter0: nat)
    requires env.configs != [] && k < |attempts|
  {
    && NextSearch(env, attempts[..k], cooling0, counter0) == (Some(attempts[k].config), attempts[k].drawn)
    && attempts[k].result == Answer(env, k, attempts[k].config)
  }

  /** Every attempt is on what its round's search found, and has its round's answer. */
  ghost predicate Followed<V(!new), E(!new)>(env: Setting<V, E>, attempts: seq<Attempt<V, E>>,
                                             cooling0: map<string, real>, counter0: nat)
    requires env.configs != []
  {
    forall k :: 0 <= k < |attempts| ==> FollowedAt(env, attempts, k, cooling0, counter0)
  }

  /** The next search finds nothing. */
  ghost predicate Exhausted<V(!new), E(!new)>(env: Setting<V, E>, attempts: seq<Attempt<V, E>>,
                                              cooling0: map<string, real>, counter0: nat)
  {
    env.configs != [] && NextSearch(env, attempts, cooling0, counter0).0 == None
  }

  ghost predicate AllRetry<V, E>(attempts: seq<Attempt<V, E>>) {
    forall k :: 0 <= k < |attempts| ==> Retries(attempts[k].result)
  }

  /** How the loop ends: by its last attempt, or by running out. */
  function Ending<V, E>(attempts: seq<Attempt<V, E>>): Outcome<V, E> {
    if attempts != [] && attempts[|attempts| - 1].result.Returned? then Value(attempts[|attempts| - 1].result.value)
    else if attempts != [] && attempts[|attempts| - 1].result.Failed? then Raised(attempts[|attempts| - 1].result.error)
    else match LastError(attempts)
      case Some(e) => Raised(e)
      case None => NotInitialized
  }

  lemma Appended<V, E>(attempts: seq<Attempt<V, E>>, attempt: Attempt<V, E>, cooling0: map<string, real>,
                       done: nat -> real)
    ensures var attempts', cooling, result := attempts + [attempt], CooledBy(cooling0, attempts, done), attempt.result;
            && attempts'[..|attempts|] == attempts
            && CooledBy(cooling0, attempts', done) ==
                 (if Retries(result)
                  then cooling[attempt.config.id := done(|attempts|) + CooldownSeconds(result) as real] else cooling)
            && Ending(attempts') ==
                 (if result.Returned? then Value(result.value)
                  else if result.Failed? || result.RateLimited? || result.Unreachable? then Raised(result.error)
                  else match LastError(attempts) case Some(e) => Raised(e) case None => NotInitialized)
            && (Retries(result) ==>
                  LastError(attempts') == if result.NotCompliant? then LastError(attempts) else Some(result.error))
  {
    assert (attempts + [attempt])[..|attempts|] == attempts;
  }

  lemma StillRetry<V, E>(attempts: seq<Attempt<V, E>>, attempt: Attempt<V, E>)
    requires AllRetry(attempts) && Retries(attempt.result)
    ensures AllRetry(attempts + [attempt])
  {
  }

  lemma StillFollowed<V(!new), E(!new)>(env: Setting<V, E>, attempts: seq<Attempt<V, E>>, attempt: Attempt<V, E>,
                                        cooling0: map<string, real>, counter0: nat)
    requires env.configs != [] && Followed(env, attempts, cooling0, counter0)
    requires NextSearch(env, attempts, cooling0, counter0) == (Some(attempt.config), attempt.drawn)
    requires attempt.result == Answer(env, |attempts|, attempt.config)
    ensures Followed(env, attempts + [attempt], cooling0, counter0)
  {
    var more := attempts + [attempt];
    assert more[..|attempts|] == attempts;
    forall k | 0 <= k < |attempts| ensures FollowedAt(env, more, k, cooling0, counter0) {
      assert FollowedAt(env, attempts, k, cooling0, counter0) && more[..k] == attempts[..k];
    }
  }

  /** The state of the loop before a round. */
  ghost predicate AtRound<V(!new), E(!new)>(env: Setting<V, E>, attempts: seq<Attempt<V, E>>,
                                            cooling0: map<string, real>, counter0: nat,
                                            cooling: map<string, real>, counter: nat, last: Option<E>)
  {
    && last == LastError(attempts)
    && (env.configs == [] ==> attempts == [])
    && (env.configs != [] ==>
          && AllRetry(attempts) && Followed(env, attempts, cooling0, counter0)
          && cooling == CooledBy(cooling0, attempts, env.done)
          && counter == CounterAfter(attempts, counter0))
  }

  /** All but the last attempt are retried. */
  ghost predicate RetriedSoFar<V, E>(attempts: seq<Attempt<V, E>>) {
    attempts != [] ==> AllRetry(attempts[..|attempts| - 1])
  }

  /** What an invocation over a list does. The attempts follow the searches, one per round; all
      but the last are retried, and it gives up only when the next search finds nothing. */
  ghost predicate Invoked<V(!new), E(!new)>(env: Setting<V, E>, attempts: seq<Attempt<V, E>>,
                                            cooling0: map<string, real>,
                                            counter0: nat, cooling: map<string, real>, r: Outcome<V, E>)
    requires env.configs != []
  {
    && Followed(env, attempts, cooling0, counter0) && RetriedSoFar(attempts)
    && (AllRetry(attempts) ==> Exhausted(env, attempts, cooling0, counter0))
    && r == Ending(attempts)
    && cooling == CooledBy(cooling0, attempts, env.done)
  }

  /** What it has done while it is still at it. */
  ghost predicate Running<V(!new), E(!new)>(env: Setting<V, E>, attempts: seq<Attempt<V, E>>,
                                            cooling0: map<string, real>, counter0: nat)
    requires env.configs != []
  {
    Followed(env, attempts, cooling0, counter0) && AllRetry(attempts)
  }

  /** The result of an attempt that ends the loop. */
  function OutcomeOf<V, E>(result: CallResult<V, E>): Outcome<V, E>
    requires !Retries(result)
  {
    if result.Returned? then Value(result.value) else Raised(result.error)
  }

  function GivenUp<V, E>(last: Option<E>): Outcome<V, E> {
    match last case Some(e) => Raised(e) case None => NotInitialized
  }

  /** The exception that the loop remembers after a retried attempt. */
  function Remembered<V, E>(result: CallResult<V, E>, last: Option<E>): Option<E>
    requires Retries(result)
  {
    if result.NotCompliant? then last else Some(result.error)
  }

  /** How a pass of the loop ends: in a further attempt, or in the outcome of the invocation. */
  ghost predicate Passed<V(!new), E(!new)>(env: Setting<V, E>, attempts: seq<Attempt<V, E>>,
                                           cooling0: map<string, real>, counter0: nat,
                                           cooling: map<string, real>, counter: nat,
                                           end: Option<Outcome<V, E>>, attempts': seq<Attempt<V, E>>, last': Option<E>)
  {
    if end == None then
      && |attempts'| == |attempts| + 1 && env.configs != []
      && AtRound(env, attempts', cooling0, counter0, cooling, counter, last')
    else if env.configs == [] then end.value == ZeroDivision && attempts' == []
    else Invoked(env, attempts', cooling0, counter0, cooling, end.value)
  }

  lemma GivesUp<V(!new), E(!new)>(env: Setting<V, E>, attempts: seq<Attempt<V, E>>, cooling0: map<string, real>,
                                  counter0: nat, cooling: map<string, real>, counter: nat, last: Option<E>,
                                  counter': nat)
    requires env.configs != [] && AtRound(env, attempts, cooling0, counter0, cooling, counter, last)
    requires NextSearch(env, attempts, cooling0, counter0).0 == None
    ensures Passed(env, attempts, cooling0, counter0, cooling, counter', Some(GivenUp(last)), attempts, last)
  {
    if attempts != [] {
      assert Retries(attempts[|attempts| - 1].result);
    }
  }

  /** A round either ends the loop or leads to the next one. */
  lemma NextRound<V(!new), E(!new)>(env: Setting<V, E>, attempts: seq<Attempt<V, E>>, attempt: Attempt<V, E>,
                                    cooling0: map<string, real>, counter0: nat,
                                    cooling: map<string, real>, counter: nat, last: Option<E>)
    requires env.configs != [] && AtRound(env, attempts, cooling0, counter0, cooling, counter, last)
    requires NextSearch(env, attempts, cooling0, counter0) == (Some(attempt.config), attempt.drawn)
    requires attempt.result == Answer(env, |attempts|, attempt.config)
    ensures var attempts', result := attempts + [attempt], attempt.result;
            if Retries(result) then
              Passed(env, attempts, cooling0, counter0,
                     cooling[attempt.config.id := env.done(|attempts|) + CooldownSeconds(result) as real],
                     attempt.drawn, None, attempts', Remembered(result, last))
            else
              Passed(env, attempts, cooling0, counter0, cooling, attempt.drawn,
                     Some(OutcomeOf(result)), attempts', last)
  {
    Appended(attempts, attempt, cooling0, env.done);
    StillFollowed(env, attempts, attempt, cooling0, counter0);
    var attempts' := attempts + [attempt];
    assert attempts'[|attempts|] == attempt;
    if Retries(attempt.result) {
      StillRetry(attempts, attempt);
    }
  }

  // --- Cooldowns and retries --------------------------------------------------

  /** The clock goes forward, within a round and from round to round. */
  ghost predicate Clockwise<V(!new), E(!new)>(env: Setting<V, E>) {
    && (forall k: nat :: env.at(k) <= env.done(k))
    && (forall j: nat, k: nat :: j < k ==> env.done(j) <= env.at(k))
  }

  /** The end of the cooldown that the i-th attempt starts. */
  function Expiry<V, E>(env: Setting<V, E>, attempts: seq<Attempt<V, E>>, i: nat): real
    requires i < |attempts|
  {
    env.done(i) + CooldownSeconds(attempts[i].result) as real
  }

  /** An attempt on id has started a cooldown that lasts beyond time t. */
  ghost predicate StillCooling<V, E>(env: Setting<V, E>, attempts: seq<Attempt<V, E>>, id: string, t: real) {
    exists i :: 0 <= i < |attempts| && attempts[i].config.id == id && t < Expiry(env, attempts, i)
  }

  lemma StillCoolingAppends<V, E>(env: Setting<V, E>, attempts: seq<Attempt<V, E>>, id: string, t: real)
    requires attempts != []
    ensures var k := |attempts| - 1;
            StillCooling(env, attempts, id, t) <==>
            StillCooling(env, attempts[..k], id, t) || (attempts[k].config.id == id && t < Expiry(env, attempts, k))
  {
    var k := |attempts| - 1;
    var init := attempts[..k];
    if StillCooling(env, init, id, t) {
      var i :| 0 <= i < |init| && init[i].config.id == id && t < Expiry(env, init, i);
      assert attempts[i] == init[i] && t < Expiry(env, attempts, i);
    }
    if i :| 0 <= i < k && attempts[i].config.id == id && t < Expiry(env, attempts, i) {
      assert init[i] == attempts[i] && t < Expiry(env, init, i);
    }
  }

  lemma FollowedPrefix<V(!new), E(!new)>(env: Setting<V, E>, attempts: seq<Attempt<V, E>>, k: nat,
                                         cooling0: map<string, real>, counter0: nat)
    requires env.configs != [] && Followed(env, attempts, cooling0, counter0) && k <= |attempts|
    ensures Followed(env, attempts[..k], cooling0, counter0)
  {
    var init := attempts[..k];
    forall i | 0 <= i < k ensures FollowedAt(env, init, i, cooling0, counter0) {
      assert FollowedAt(env, attempts, i, cooling0, counter0) && init[..i] == attempts[..i];
    }
  }

  /** What cools down after some attempts: what did so from the start, and what they tried, each
      for its time. An attempt never cuts an earlier cooldown short. */
  lemma {:induction false} CooledExactly<V(!new), E(!new)>(env: Setting<V, E>, attempts: seq<Attempt<V, E>>,
                                                           cooling0: map<string, real>, counter0: nat,
                                                           id: string, t: real)
    requires env.configs != [] && Clockwise(env) && Running(env, attempts, cooling0, counter0)
    ensures Cooling(CooledBy(cooling0, attempts, env.done), id, t) <==>
            Cooling(cooling0, id, t) || StillCooling(env, attempts, id, t)
  {
    if attempts == [] {
    } else {
      var k := |attempts| - 1;
      FollowedPrefix(env, attempts, k, cooling0, counter0);
      CooledExactly(env, attempts[..k], cooling0, counter0, id, t);
      StillCoolingAppends(env, attempts, id, t);
      assert FollowedAt(env, attempts, k, cooling0, counter0) && Retries(attempts[k].result);
      assert env.at(k) <= env.done(k);
    }
  }

  /** No configuration is tried while it cools down, be it from the start or from an attempt. */
  lemma NeverTriedWhileCooling<V(!new), E(!new)>(env: Setting<V, E>, attempts: seq<Attempt<V, E>>, j: nat,
                                                 cooling0: map<string, real>, counter0: nat)
    requires env.configs != [] && Clockwise(env) && Followed(env, attempts, cooling0, counter0)
    requires RetriedSoFar(attempts) && j < |attempts|
    ensures attempts[j].config in env.configs && !Cooling(cooling0, attempts[j].config.id, env.at(j))
    ensures forall i :: 0 <= i < j && attempts[i].config.id == attempts[j].config.id ==>
              Expiry(env, attempts, i) <= env.at(j)
  {
    var earlier := attempts[..j];
    FollowedPrefix(env, attempts, j, cooling0, counter0);
    forall k | 0 <= k < j ensures Retries(earlier[k].result) {
      assert attempts[..|attempts| - 1][k] == earlier[k];
    }
    assert FollowedAt(env, attempts, j, cooling0, counter0);
    CooledExactly(env, earlier, cooling0, counter0, attempts[j].config.id, env.at(j));
    forall i | 0 <= i < j && attempts[i].config.id == attempts[j].config.id
      ensures Expiry(env, attempts, i) <= env.at(j)
    {
      assert earlier[i] == attempts[i] && !StillCooling(env, earlier, attempts[j].config.id, env.at(j));
      assert Expiry(env, earlier, i) == Expiry(env, attempts, i);
    }
  }

  /** Every attempt is on an entry that the policy let through at the search, and the provider is
      called for it exactly if the policy, asked again, lets it through as well. */
  lemma CalledOnlyIfAllowed<V(!new), E(!new)>(env: Setting<V, E>, attempts: seq<Attempt<V, E>>, k: nat,
                                              cooling0: map<string, real>, counter0: nat)
    requires env.configs != [] && Followed(env, attempts, cooling0, counter0) && k < |attempts|
    ensures var config := attempts[k].config;
            var checked := config.credentialId.Some? && config.credentialId.value != "";
            && (checked ==> env.policy(k, config.credentialId.value))
            && attempts[k].result ==
                 if checked && !env.recheck(k, config.credentialId.value) then NotCompliant else env.call(k, config)
  {
    assert FollowedAt(env, attempts, k, cooling0, counter0);
    PickedIsAllowed(env.configs, CooledBy(cooling0, attempts[..k], env.done), env.at(k), env.policy, k, env.meddle(k),
                    CounterAfter(attempts[..k], counter0));
  }

  /** The cooldowns an invocation leaves: for sixty seconds after a rate limit or a refusal by policy,
      for ten after any other retried error, and none after an answer or a raised error. */
  lemma {:induction false} CooldownsLeft<V, E>(cooling0: map<string, real>, attempts: seq<Attempt<V, E>>,
                                               done: nat -> real, i: nat)
    requires i < |attempts|
    requires forall j :: i < j < |attempts| ==> attempts[j].config.id != attempts[i].config.id
    ensures var id, after := attempts[i].config.id, CooledBy(cooling0, attempts, done);
            match attempts[i].result
            case RateLimited(_) => id in after && after[id] == done(i) + 60.0
            case NotCompliant => id in after && after[id] == done(i) + 60.0
            case Unreachable(_) => id in after && after[id] == done(i) + 10.0
            case _ =>
              var before := CooledBy(cooling0, attempts[..i], done);
              (id in after <==> id in before) && (id in after ==> after[id] == before[id])
  {
    var n := |attempts| - 1;
    if i == n {
    } else {
      assert attempts[..n][..i] == attempts[..i];
      CooldownsLeft(cooling0, attempts[..n], done, i);
    }
  }

  /** The i-th attempt is the last one that left an error to remember. */
  predicate LastRemembered<V, E>(attempts: seq<Attempt<V, E>>, i: nat)
    requires i < |attempts|
  {
    && (attempts[i].result.RateLimited? || attempts[i].result.Unreachable?)
    && (forall j :: i < j < |attempts| ==> attempts[j].result.NotCompliant?)
  }

  lemma {:induction false} LastErrorMeans<V, E>(attempts: seq<Attempt<V, E>>)
    requires AllRetry(attempts)
    ensures match LastError(attempts)
            case Some(e) =>
              exists i: nat :: i < |attempts| && LastRemembered(attempts, i) && attempts[i].result.error == e
            case None => forall i :: 0 <= i < |attempts| ==> attempts[i].result.NotCompliant?
  {
    if attempts == [] {
    } else {
      var n := |attempts| - 1;
      var init := attempts[..n];
      LastErrorMeans(init);
      if attempts[n].result.NotCompliant? && LastError(init).Some? {
        var i: nat :| i < |init| && LastRemembered(init, i) && init[i].result.error == LastError(init).value;
        assert forall j :: i < j < n ==> init[j] == attempts[j];
        assert LastRemembered(attempts, i);
      } else if !attempts[n].result.NotCompliant? {
        assert LastRemembered(attempts, n);
      }
    }
  }

  /** How an invocation ends: with the answer or the error of its last attempt, or, given up after
      attempts that were all rate limited, unreachable or refused, with the latest error among
      them, and as not initialized if there was none. */
  lemma OutcomeMeans<V(!new), E(!new)>(env: Setting<V, E>, attempts: seq<Attempt<V, E>>,
                                       cooling0: map<string, real>, counter0: nat,
                                       cooling: map<string, real>, r: Outcome<V, E>)
    requires env.configs != [] && Invoked(env, attempts, cooling0, counter0, cooling, r)
    ensures forall i :: 0 <= i < |attempts| - 1 ==>
              !attempts[i].result.Returned? && !attempts[i].result.Failed?
    ensures match r
            case Value(v) => attempts != [] && attempts[|attempts| - 1].result == Returned(v)
            case Raised(e) =>
              || (attempts != [] && attempts[|attempts| - 1].result == Failed(e))
              || (exists i: nat :: i < |attempts| && LastRemembered(attempts, i) && attempts[i].result.error == e)
            case NotInitialized => forall i :: 0 <= i < |attempts| ==> attempts[i].result.NotCompliant?
            case ZeroDivision => false
  {
    var n := |attempts| - 1;
    if attempts != [] {
      forall i | 0 <= i < n ensures Retries(attempts[i].result) {
        assert attempts[..n][i] == attempts[i];
      }
    }
    if attempts == [] || Retries(attempts[n].result) {
      LastErrorMeans(attempts);
    }
  }

  // --- How many attempts there can be -----------------------------------------

  function Ids(configs: seq<Config>): set<string> {
    set i | 0 <= i < |configs| :: configs[i].id
  }

  function Available(configs: seq<Config>, cooldownUntil: map<string, real>, now: real): set<string> {
    set id | id in Ids(configs) && !Cooling(cooldownUntil, id, now)
  }

  lemma {:induction false} DistinctWithin<T>(s: seq<T>, among: set<T>)
    requires forall i, j :: 0 <= i < j < |s| ==> s[i] != s[j]
    requires forall i :: 0 <= i < |s| ==> s[i] in among
    ensures |s| <= |among|
  {
    if s == [] {
    } else {
      var n := |s| - 1;
      DistinctWithin(s[..n], among - {s[n]});
    }
  }

  lemma {:induction false} SubsetAtMost(a: set<string>, b: set<string>)
    requires a <= b
    ensures |a| <= |b|
    decreases a
  {
    if a == {} {
    } else {
      var x :| x in a;
      SubsetAtMost(a - {x}, b - {x});
    }
  }

  lemma BoundGrows(a: nat, x: nat, b: nat, y: nat)
    requires a <= b && x <= y
    ensures a * x <= b * y
  {
    MulMonotone(x, a, b);
    MulMonotone(b, x, y);
  }

  /** In which ten seconds of the invocation the k-th round searches. */
  function Tens<V, E>(env: Setting<V, E>, k: nat): int {
    ((env.at(k) - env.at(0)) / 10.0).Floor
  }

  lemma TenLater<V, E>(env: Setting<V, E>, i: nat, j: nat)
    requires env.at(i) + 10.0 <= env.at(j)
    ensures Tens(env, i) < Tens(env, j)
  {
    assert (env.at(i) - env.at(0)) / 10.0 + 1.0 <= (env.at(j) - env.at(0)) / 10.0;
  }

  lemma NotEarlier<V(!new), E(!new)>(env: Setting<V, E>, i: nat, j: nat)
    requires Clockwise(env) && i <= j
    ensures env.at(i) <= env.at(j) && Tens(env, i) <= Tens(env, j)
  {
    if i < j {
      assert env.at(i) <= env.done(i) <= env.at(j);
    }
    assert (env.at(i) - env.at(0)) / 10.0 <= (env.at(j) - env.at(0)) / 10.0;
  }

  /** The first round in the same ten seconds. */
  lemma {:induction false} FirstOfTen<V(!new), E(!new)>(env: Setting<V, E>, k: nat) returns (p: nat)
    requires Clockwise(env)
    ensures p <= k && forall i :: p <= i <= k ==> Tens(env, i) == Tens(env, k)
    ensures p > 0 ==> Tens(env, p - 1) < Tens(env, k)
  {
    if k == 0 {
      p := 0;
    } else {
      NotEarlier(env, k - 1, k);
      if Tens(env, k - 1) < Tens(env, k) {
        p := k;
      } else {
        p := FirstOfTen(env, k - 1);
      }
    }
  }

  /** Attempts in the same ten seconds are on different configurations, available by then. */
  lemma SameTenDiffer<V(!new), E(!new)>(env: Setting<V, E>, attempts: seq<Attempt<V, E>>, p: nat,
                                        cooling0: map<string, real>, counter0: nat)
    requires env.configs != [] && Clockwise(env) && Followed(env, attempts, cooling0, counter0)
    requires RetriedSoFar(attempts) && p < |attempts|
    requires forall i :: p <= i < |attempts| ==> Tens(env, i) == Tens(env, |attempts| - 1)
    ensures |attempts| - p <= |Available(env.configs, cooling0, env.at(|attempts| - 1))|
  {
    var available := Available(env.configs, cooling0, env.at(|attempts| - 1));
    var late := seq(|attempts| - p, i requires 0 <= i < |attempts| - p => attempts[p + i].config.id);
    forall i | 0 <= i < |late| ensures late[i] in available {
      NeverTriedWhileCooling(env, attempts, p + i, cooling0, counter0);
      NotEarlier(env, p + i, |attempts| - 1);
      var c :| 0 <= c < |env.configs| && env.configs[c] == attempts[p + i].config;
      assert env.configs[c].id in Ids(env.configs);
    }
    forall i, j | 0 <= i < j < |late| ensures late[i] != late[j] {
      NeverTriedWhileCooling(env, attempts, p + j, cooling0, counter0);
      if late[i] == late[j] {
        assert env.at(p + i) <= env.done(p + i);
        TenLater(env, p + i, p + j);
      }
    }
    DistinctWithin(late, available);
  }

  /** Every ten seconds allow at most one more attempt on every configuration that is available by
      the end: a second attempt on one comes after its cooldown, and the shortest lasts ten. */
  lemma {:induction false} AttemptsAreBounded<V(!new), E(!new)>(env: Setting<V, E>, attempts: seq<Attempt<V, E>>,
                                                                cooling0: map<string, real>, counter0: nat)
    requires env.configs != [] && Clockwise(env) && Followed(env, attempts, cooling0, counter0)
    requires RetriedSoFar(attempts) && attempts != []
    ensures var end := |attempts| - 1;
            |attempts| <= |Available(env.configs, cooling0, env.at(end))| * (Tens(env, end) + 1)
    decreases |attempts|
  {
    var end := |attempts| - 1;
    var available := Available(env.configs, cooling0, env.at(end));
    var p := FirstOfTen(env, end);
    SameTenDiffer(env, attempts, p, cooling0, counter0);
    if p > 0 {
      var before := Available(env.configs, cooling0, env.at(p - 1));
      FollowedPrefix(env, attempts, p, cooling0, counter0);
      assert attempts[..p][..p - 1] == attempts[..end][..p - 1];
      AttemptsAreBounded(env, attempts[..p], cooling0, counter0);
      NotEarlier(env, 0, p - 1);
      NotEarlier(env, p - 1, end);
      SubsetAtMost(before, available);
      BoundGrows(|before|, Tens(env, p - 1) + 1, |available|, Tens(env, end));
    }
    assert |available| * (Tens(env, end) + 1) == |available| * Tens(env, end) + |available|;
  }

  /** Within ten seconds no configuration id is tried twice. */
  lemma BriefTriesOnce<V(!new), E(!new)>(env: Setting<V, E>, attempts: seq<Attempt<V, E>>,
                                         cooling0: map<string, real>, counter0: nat)
    requires env.configs != [] && Clockwise(env) && Followed(env, attempts, cooling0, counter0)
    requires RetriedSoFar(attempts) && attempts != [] && env.at(|attempts| - 1) < env.at(0) + 10.0
    ensures forall i, j :: 0 <= i < j < |attempts| ==> attempts[i].config.id != attempts[j].config.id
    ensures |attempts| <= |Available(env.configs, cooling0, env.at(|attempts| - 1))|
  {
    var end := |attempts| - 1;
    AttemptsAreBounded(env, attempts, cooling0, counter0);
    assert (env.at(end) - env.at(0)) / 10.0 < 1.0;
    assert Tens(env, end) <= 0;
    var available := |Available(env.configs, cooling0, env.at(end))|;
    MulMonotone(available, Tens(env, end) + 1, 1);
    forall i, j | 0 <= i < j < |attempts| ensures attempts[i].config.id != attempts[j].config.id {
      NeverTriedWhileCooling(env, attempts, j, cooling0, counter0);
      NotEarlier(env, 0, i);
      NotEarlier(env, j, end);
      assert env.at(i) <= env.done(i);
    }
  }

  // --- When the loop gives up -----------------------------------------------

  /** Nobody else touches the counter. */
  ghost predicate Alone<V(!new), E(!new)>(env: Setting<V, E>) {
    forall k: nat, i: nat, counter: nat :: env.meddle(k)(i, counter) == counter
  }

  lemma {:induction false} ScanAlone(usable: seq<bool>, meddle: Meddling, counter: nat, i: nat)
    requires 0 < |usable| && i <= |usable| && forall j: nat, c: nat :: meddle(j, c) == c
    ensures Scan(usable, meddle, counter, i) == Scan(usable, Undisturbed(), counter, i)
    ensures counter + |usable| - i < RESET ==> Scan(usable, meddle, counter, i).1 <= counter + |usable| - i
    decreases |usable| - i
  {
    if i == |usable| {
    } else {
      ScanAlone(usable, meddle, Draw(counter), i + 1);
    }
  }

  lemma SearchAlone(configs: seq<Config>, cooling: map<string, real>, now: real, policy: Policy, round: nat,
                    meddle: Meddling, counter: nat)
    requires configs != [] && counter + |configs| < RESET && forall j: nat, c: nat :: meddle(j, c) == c
    ensures var r := Search(configs, cooling, now, policy, round, meddle, counter);
            && (r.0 == None <==> forall c :: c in configs ==> !Usable(c, cooling, now, policy, round))
            && r.1 <= counter + |configs|
  {
    var usable := UsableSlots(configs, cooling, now, policy, round);
    ScanAlone(usable, meddle, counter, 0);
    ExhaustionIsExact(counter, |configs|);
    assert Scan(usable, Undisturbed(), counter, 0).0 == None <==> forall s :: 0 <= s < |usable| ==> !usable[s];
    if forall s :: 0 <= s < |usable| ==> !usable[s] {
      forall c | c in configs ensures !Usable(c, cooling, now, policy, round) {
        var s :| 0 <= s < |configs| && configs[s] == c;
        assert !usable[s];
      }
    }
  }

  /** Alone and away from the wrap, it finds nothing exactly when every entry cools down or has a
      credential id that the policy refuses in this round. */
  lemma NothingPickedExactly(configs: seq<Config>, cooling: map<string, real>, now: real, policy: Policy, round: nat,
                             counter: nat)
    requires configs != [] && counter + |configs| < RESET
    ensures Search(configs, cooling, now, policy, round, Undisturbed(), counter).0 == None <==>
            forall c :: c in configs ==>
              || (c.id in cooling && now < cooling[c.id])
              || (c.credentialId.Some? && c.credentialId.value != "" && !policy(round, c.credentialId.value))
  {
    SearchAlone(configs, cooling, now, policy, round, Undisturbed(), counter);
    forall c | c in configs
      ensures !Usable(c, cooling, now, policy, round) <==>
              || (c.id in cooling && now < cooling[c.id])
              || (c.credentialId.Some? && c.credentialId.value != "" && !policy(round, c.credentialId.value))
    {}
  }

  /** In the round after these attempts the configuration cools down or is refused. */
  ghost predicate CannotBeTried<V(!new), E(!new)>(env: Setting<V, E>, attempts: seq<Attempt<V, E>>,
                                                  cooling0: map<string, real>, c: Config)
  {
    var k := |attempts|;
    Cooling(cooling0, c.id, env.at(k)) || StillCooling(env, attempts, c.id, env.at(k))
      || !Compliant(c, env.policy, k)
  }

  /** Every round moves the counter by at most one pass over the list. */
  lemma {:induction false} CounterStaysLow<V(!new), E(!new)>(env: Setting<V, E>, attempts: seq<Attempt<V, E>>, k: nat,
                                                             cooling0: map<string, real>, counter0: nat)
    requires env.configs != [] && Alone(env) && Followed(env, attempts, cooling0, counter0) && k <= |attempts|
    requires counter0 + |env.configs| * k < RESET
    ensures CounterAfter(attempts[..k], counter0) <= counter0 + |env.configs| * k
  {
    if k == 0 {
    } else {
      var n := |env.configs|;
      assert n * k == n * (k - 1) + n;
      CounterStaysLow(env, attempts, k - 1, cooling0, counter0);
      assert FollowedAt(env, attempts, k - 1, cooling0, counter0);
      var init := attempts[..k - 1];
      SearchAlone(env.configs, CooledBy(cooling0, init, env.done), env.at(k - 1), env.policy, k - 1,
                  env.meddle(k - 1), CounterAfter(init, counter0));
      assert attempts[..k][k - 1] == attempts[k - 1];
    }
  }

  /** Alone and away from the counter's wrap, the loop gives up after these attempts exactly when
      every configuration cools down, from the start or from an attempt, or is refused by policy. */
  lemma GivesUpExactly<V(!new), E(!new)>(env: Setting<V, E>, attempts: seq<Attempt<V, E>>,
                                         cooling0: map<string, real>, counter0: nat)
    requires env.configs != [] && Alone(env) && Clockwise(env) && Running(env, attempts, cooling0, counter0)
    requires counter0 + |env.configs| * (|attempts| + 1) < RESET
    ensures Exhausted(env, attempts, cooling0, counter0) <==>
            forall c :: c in env.configs ==> CannotBeTried(env, attempts, cooling0, c)
  {
    var n, k := |env.configs|, |attempts|;
    assert n * (k + 1) == n * k + n;
    CounterStaysLow(env, attempts, k, cooling0, counter0);
    assert attempts[..k] == attempts;
    SearchAlone(env.configs, CooledBy(cooling0, attempts, env.done), env.at(k), env.policy, k, env.meddle(k),
                CounterAfter(attempts, counter0));
    forall c | c in env.configs
      ensures CannotBeTried(env, attempts, cooling0, c) <==>
              !Usable(c, CooledBy(cooling0, attempts, env.done), env.at(k), env.policy, k)
    {
      CooledExactly(env, attempts, cooling0, counter0, c.id, env.at(k));
    }
  }

  lemma {:induction false} AvailableAtMost(configs: seq<Config>, cooling: map<string, real>, now: real)
    ensures |Available(configs, cooling, now)| <= |configs|
  {
    if configs == [] {
      assert Available(configs, cooling, now) == {};
    } else {
      var init, last := configs[..|configs| - 1], configs[|configs| - 1];
      AvailableAtMost(init, cooling, now);
      assert forall i :: 0 <= i < |configs| ==> configs[i].id in Ids(init) || configs[i].id == last.id by {
        assert forall i :: 0 <= i < |init| ==> configs[i] == init[i] && init[i].id in Ids(init);
      }
      assert Available(configs, cooling, now) <= Available(init, cooling, now) + {last.id};
      SubsetAtMost(Available(configs, cooling, now), Available(init, cooling, now) + {last.id});
    }
  }

  /** In every ten seconds a list of n configurations sees at most n attempts. */
  lemma AtMostOnePassPerTen<V(!new), E(!new)>(env: Setting<V, E>, attempts: seq<Attempt<V, E>>,
                                              cooling0: map<string, real>, counter0: nat)
    requires env.configs != [] && Clockwise(env) && Followed(env, attempts, cooling0, counter0)
    requires RetriedSoFar(attempts) && attempts != []
    ensures 0 <= Tens(env, |attempts| - 1) && |attempts| <= |env.configs| * (Tens(env, |attempts| - 1) + 1)
  {
    var end := |attempts| - 1;
    var available := |Available(env.configs, cooling0, env.at(end))|;
    NotEarlier(env, 0, end);
    AttemptsAreBounded(env, attempts, cooling0, counter0);
    AvailableAtMost(env.configs, cooling0, env.at(end));
    MulMonotone(Tens(env, end) + 1, available, |env.configs|);
  }

  /** So a loop that is still running after n passes for every ten seconds has taken that long: a
      loop whose calls are quick ends. */
  lemma PassesTakeTime<V(!new), E(!new)>(env: Setting<V, E>, attempts: seq<Attempt<V, E>>,
                                         cooling0: map<string, real>, counter0: nat, d: nat)
    requires env.configs != [] && Clockwise(env) && Running(env, attempts, cooling0, counter0)
    requires |attempts| > |env.configs| * d
    ensures env.at(|attempts| - 1) >= env.at(0) + 10.0 * d as real
  {
    var end := |attempts| - 1;
    AtMostOnePassPerTen(env, attempts, cooling0, counter0);
    if Tens(env, end) + 1 <= d {
      MulMonotone(|env.configs|, Tens(env, end) + 1, d);
    }
    assert (env.at(end) - env.at(0)) / 10.0 >= d as real;
  }

  /** The most attempts that an invocation of these attempts' length in time can have made. */
  function MostAttempts<V, E>(env: Setting<V, E>, attempts: seq<Attempt<V, E>>): int {
    if attempts == [] then 0 else |env.configs| * (Tens(env, |attempts| - 1) + 1)
  }

  /** An invocation that is given up, with draws enough left before the wrap for the time that it
      took, has left no configuration out that it could have tried. */
  lemma GivingUpLeavesNothing<V(!new), E(!new)>(env: Setting<V, E>, attempts: seq<Attempt<V, E>>,
                                                cooling0: map<string, real>, counter0: nat,
                                                cooling: map<string, real>, r: Outcome<V, E>)
    requires env.configs != [] && Alone(env) && Clockwise(env)
    requires counter0 + |env.configs| * (MostAttempts(env, attempts) + 1) < RESET
    requires Invoked(env, attempts, cooling0, counter0, cooling, r) && AllRetry(attempts)
    ensures forall c :: c in env.configs ==> CannotBeTried(env, attempts, cooling0, c)
  {
    if attempts != [] {
      AtMostOnePassPerTen(env, attempts, cooling0, counter0);
    }
    MulMonotone(|env.configs|, |attempts| + 1, MostAttempts(env, attempts) + 1);
    GivesUpExactly(env, attempts, cooling0, counter0);
  }

  /** However the others meddle, an invocation that finds every configuration usable makes an
      attempt, and no invocation gives up while all are usable. */
  lemma AllUsableIsTried<V(!new), E(!new)>(env: Setting<V, E>, attempts: seq<Attempt<V, E>>,
                                           cooling0: map<string, real>, counter0: nat,
                                           cooling: map<string, real>, r: Outcome<V, E>)
    requires env.configs != [] && Invoked(env, attempts, cooling0, counter0, cooling, r)
    ensures AllRetry(attempts) ==>
              exists c :: c in env.configs && !Usable(c, cooling, env.at(|attempts|), env.policy, |attempts|)
    ensures (forall c :: c in env.configs ==> Usable(c, cooling0, env.at(0), env.policy, 0)) ==> attempts != []
  {
    if AllRetry(attempts) {
      var k := |attempts|;
      var usable := UsableSlots(env.configs, cooling, env.at(k), env.policy, k);
      ScanSound(usable, env.meddle(k), CounterAfter(attempts, counter0), 0);
      var s :| 0 <= s < |usable| && !usable[s];
      assert env.configs[s] in env.configs;
    }
  }

  lemma {:induction false} SamePrefix<V(!new), E(!new)>(env: Setting<V, E>, a: seq<Attempt<V, E>>,
                                                        b: seq<Attempt<V, E>>,
                                                        k: nat, cooling0: map<string, real>, counter0: nat)
    requires env.configs != [] && k <= |a| && k <= |b|
    requires Followed(env, a, cooling0, counter0) && Followed(env, b, cooling0, counter0)
    ensures a[..k] == b[..k]
  {
    if k == 0 {
    } else {
      SamePrefix(env, a, b, k - 1, cooling0, counter0);
      assert FollowedAt(env, a, k - 1, cooling0, counter0) && FollowedAt(env, b, k - 1, cooling0, counter0);
      assert a[..k] == a[..k - 1] + [a[k - 1]] && b[..k] == b[..k - 1] + [b[k - 1]];
    }
  }

  lemma NotExhaustedYet<V(!new), E(!new)>(env: Setting<V, E>, attempts: seq<Attempt<V, E>>, k: nat,
                                          cooling0: map<string, real>, counter0: nat)
    requires env.configs != [] && k < |attempts| && Followed(env, attempts, cooling0, counter0)
    requires AllRetry(attempts[..|attempts| - 1])
    ensures !Exhausted(env, attempts[..k], cooling0, counter0) && AllRetry(attempts[..k])
  {
    assert FollowedAt(env, attempts, k, cooling0, counter0);
    assert forall i :: 0 <= i < k ==> attempts[..k][i] == attempts[..|attempts| - 1][i];
  }

  /** What Invoked says leaves no choice: one setting, one series of attempts. */
  lemma {:induction false} OneSeriesOnly<V(!new), E(!new)>(env: Setting<V, E>, a: seq<Attempt<V, E>>,
                                                           b: seq<Attempt<V, E>>,
                                                           cooling0: map<string, real>, counter0: nat,
                                                           coolingA: map<string, real>, ra: Outcome<V, E>,
                                                           coolingB: map<string, real>, rb: Outcome<V, E>)
    requires env.configs != [] && |a| <= |b|
    requires Invoked(env, a, cooling0, counter0, coolingA, ra) && Invoked(env, b, cooling0, counter0, coolingB, rb)
    ensures a == b && coolingA == coolingB && ra == rb
  {
    SamePrefix(env, a, b, |a|, cooling0, counter0);
    assert a == a[..|a|];
    forall k: nat | k < |b| ensures !Exhausted(env, b[..k], cooling0, counter0) && AllRetry(b[..k]) {
      NotExhaustedYet(env, b, k, cooling0, counter0);
    }
    assert b == b[..|b|];
  }

  // --- Exactly when the loop does not end --------------------------------------

  function Elapsed(delay: real, k: nat): real {
    delay * k as real
  }

  /** Every call takes so long to find its provider unreachable; nothing else takes time, nothing
      else goes wrong, and nobody else moves the counter. */
  function SlowSetting<V, E>(configs: seq<Config>, error: E, delay: real): Setting<V, E> {
    Setting(configs, (k: nat) => Elapsed(delay, k), (k: nat) => Elapsed(delay, k + 1),
            (k, id) => true, (k, id) => true, (k, config) => Unreachable(error), k => Undisturbed())
  }

  function SlowAttempt<V, E>(configs: seq<Config>, error: E, k: nat): Attempt<V, E>
    requires configs != []
  {
    Attempt(configs[k % |configs|], k + 1, Unreachable(error))
  }

  function SlowAttempts<V, E>(configs: seq<Config>, error: E, m: nat): seq<Attempt<V, E>>
    requires configs != []
  {
    seq(m, (k: nat) => SlowAttempt(configs, error, k))
  }

  lemma SlowAppends<V, E>(configs: seq<Config>, error: E, m: nat)
    requires configs != [] && m > 0
    ensures SlowAttempts<V, E>(configs, error, m) ==
            SlowAttempts<V, E>(configs, error, m - 1) + [SlowAttempt<V, E>(configs, error, m - 1)]
  {
  }

  predicate DistinctIds(configs: seq<Config>) {
    forall i, j :: 0 <= i < j < |configs| ==> configs[i].id != configs[j].id
  }

  /** A call to each of the other configurations takes the cooldown of ten seconds together. */
  predicate SlowEnough(n: nat, delay: real) {
    delay * (n - 1) as real >= 10.0
  }

  lemma ElapsedMonotone(delay: real, j: nat, k: nat)
    requires delay >= 0.0 && j <= k
    ensures Elapsed(delay, j) <= Elapsed(delay, k)
  {
    assert Elapsed(delay, k) - Elapsed(delay, j) == delay * (k - j) as real;
  }

  lemma SlowClock<V(!new), E(!new)>(configs: seq<Config>, error: E, delay: real)
    requires delay >= 0.0
    ensures Clockwise(SlowSetting<V, E>(configs, error, delay))
  {
    var env := SlowSetting<V, E>(configs, error, delay);
    forall k: nat ensures env.at(k) <= env.done(k) {
      ElapsedMonotone(delay, k, k + 1);
    }
    forall j: nat, k: nat | j < k ensures env.done(j) <= env.at(k) {
      ElapsedMonotone(delay, j + 1, k);
    }
  }

  lemma SameSlot(n: nat, i: nat, k: nat)
    requires n >= 1 && i < k && i % n == k % n
    ensures i + n <= k
  {
    var q := k / n - i / n;
    assert k - i == n * q;
    if q >= 1 {
      MulMonotone(n, 1, q);
    } else {
      MulMonotone(n, q, 0);
    }
  }

  lemma WaitedLongEnough(delay: real, n: nat, i: nat, k: nat)
    requires delay >= 0.0 && n >= 1 && SlowEnough(n, delay) && i + n <= k
    ensures Elapsed(delay, i + 1) + 10.0 <= Elapsed(delay, k)
  {
    ElapsedMonotone(delay, i + n, k);
    assert Elapsed(delay, i + n) - Elapsed(delay, i + 1) == delay * (n - 1) as real;
  }

  /** When calls are slow enough, or in the first pass over the list, the next one is available. */
  lemma NextIsOver<V(!new), E(!new)>(configs: seq<Config>, error: E, delay: real, k: nat)
    requires configs != [] && DistinctIds(configs) && delay >= 0.0
    requires k < |configs| || SlowEnough(|configs|, delay)
    ensures var env := SlowSetting<V, E>(configs, error, delay);
            !StillCooling(env, SlowAttempts<V, E>(configs, error, k), configs[k % |configs|].id, env.at(k))
  {
    var env, attempts := SlowSetting<V, E>(configs, error, delay), SlowAttempts<V, E>(configs, error, k);
    forall i | 0 <= i < k && attempts[i].config.id == configs[k % |configs|].id
      ensures Expiry(env, attempts, i) <= env.at(k)
    {
      SameSlot(|configs|, i, k);
      WaitedLongEnough(delay, |configs|, i, k);
    }
  }

  lemma SlowRound<V(!new), E(!new)>(configs: seq<Config>, error: E, delay: real, k: nat)
    requires configs != [] && DistinctIds(configs) && delay >= 0.0
    requires k < |configs| || SlowEnough(|configs|, delay)
    requires k + 1 < RESET
    requires Running(SlowSetting<V, E>(configs, error, delay), SlowAttempts<V, E>(configs, error, k), map[], 0)
    ensures var env, attempt := SlowSetting<V, E>(configs, error, delay), SlowAttempt<V, E>(configs, error, k);
            && NextSearch(env, SlowAttempts<V, E>(configs, error, k), map[], 0) ==
                 (Some(attempt.config), attempt.drawn)
            && attempt.result == Answer(env, k, attempt.config) && Retries(attempt.result)
  {
    var env, attempts := SlowSetting<V, E>(configs, error, delay), SlowAttempts<V, E>(configs, error, k);
    var next := configs[k % |configs|];
    assert !Cooling(CooledBy(map[], attempts, env.done), next.id, env.at(k)) by {
      SlowClock<V, E>(configs, error, delay);
      NextIsOver<V, E>(configs, error, delay, k);
      CooledExactly(env, attempts, map[], 0, next.id, env.at(k));
    }
    SlotIsRoundRobin(k + 1, |configs|);
    assert UsableSlots(configs, CooledBy(map[], attempts, env.done), env.at(k), env.policy, k)[k % |configs|];
  }

  lemma StillRunning<V(!new), E(!new)>(env: Setting<V, E>, attempts: seq<Attempt<V, E>>, attempt: Attempt<V, E>,
                                       cooling0: map<string, real>, counter0: nat)
    requires env.configs != [] && Running(env, attempts, cooling0, counter0)
    requires NextSearch(env, attempts, cooling0, counter0) == (Some(attempt.config), attempt.drawn)
    requires attempt.result == Answer(env, |attempts|, attempt.config) && Retries(attempt.result)
    ensures Running(env, attempts + [attempt], cooling0, counter0)
  {
    StillFollowed(env, attempts, attempt, cooling0, counter0);
    StillRetry(attempts, attempt);
  }

  /** With calls that are slow enough, the cooldown of a configuration is over whenever the loop
      comes round to it: it is still running after as many passes as the counter has values. */
  lemma {:induction false} SlowCallsNeverEnd<V(!new), E(!new)>(configs: seq<Config>, error: E, delay: real, m: nat)
    requires configs != [] && DistinctIds(configs) && delay >= 0.0
    requires m <= |configs| || SlowEnough(|configs|, delay)
    requires m < RESET
    ensures Running(SlowSetting<V, E>(configs, error, delay), SlowAttempts<V, E>(configs, error, m), map[], 0)
  {
    if m == 0 {
    } else {
      var env, attempts := SlowSetting<V, E>(configs, error, delay), SlowAttempts<V, E>(configs, error, m - 1);
      var attempt := SlowAttempt<V, E>(configs, error, m - 1);
      SlowCallsNeverEnd<V, E>(configs, error, delay, m - 1);
      SlowRound<V, E>(configs, error, delay, m - 1);
      SlowAppends<V, E>(configs, error, m);
      StillRunning(env, attempts, attempt, map[], 0);
    }
  }

  /** After one pass over the list every configuration still cools down if calls are quicker. */
  lemma AllStillCool<V(!new), E(!new)>(configs: seq<Config>, error: E, delay: real, s: nat)
    requires s < |configs| && delay >= 0.0 && !SlowEnough(|configs|, delay)
    ensures var env := SlowSetting<V, E>(configs, error, delay);
            StillCooling(env, SlowAttempts<V, E>(configs, error, |configs|), configs[s].id, env.at(|configs|))
  {
    var n := |configs|;
    var env, attempts := SlowSetting<V, E>(configs, error, delay), SlowAttempts<V, E>(configs, error, n);
    CongruentReflexive(s, n);
    ResidueUnique(s, s, n);
    ElapsedMonotone(delay, 1, s + 1);
    assert Elapsed(delay, n) - Elapsed(delay, 1) == delay * (n - 1) as real;
    assert attempts[s] == SlowAttempt<V, E>(configs, error, s);
    assert env.at(n) < Expiry(env, attempts, s);
  }

  /** So when all providers are unreachable the loop gives up after one pass over the list exactly
      if calls to all but one of them take less than the cooldown together, and else never. */
  lemma UnreachableEndsExactly<V(!new), E(!new)>(configs: seq<Config>, error: E, delay: real)
    requires configs != [] && DistinctIds(configs) && delay >= 0.0 && |configs| + 1 < RESET
    ensures var env, attempts := SlowSetting<V, E>(configs, error, delay),
                                 SlowAttempts<V, E>(configs, error, |configs|);
            && Running(env, attempts, map[], 0)
            && (Exhausted(env, attempts, map[], 0) <==> !SlowEnough(|configs|, delay))
  {
    var n := |configs|;
    var env, attempts := SlowSetting<V, E>(configs, error, delay), SlowAttempts<V, E>(configs, error, n);
    SlowCallsNeverEnd<V, E>(configs, error, delay, n);
    if SlowEnough(n, delay) {
      SlowRound<V, E>(configs, error, delay, n);
    } else {
      var cooling := CooledBy(map[], attempts, env.done);
      var usable := UsableSlots(configs, cooling, env.at(n), env.policy, n);
      forall s | 0 <= s < n ensures !usable[s] {
        SlowClock<V, E>(configs, error, delay);
        AllStillCool<V, E>(configs, error, delay, s);
        CooledExactly(env, attempts, map[], 0, configs[s].id, env.at(n));
      }
      ScanSound(usable, env.meddle(n), CounterAfter(attempts, 0), 0);
    }
  }

  class ModelInstance {
    const manager: LBModelManager?

    /** direct is what the function does without a manager. The loop is watched for so many rounds;
        there is no outcome if it is still running then. */
    method RoundRobinInvoke<V(!new), E(!new)>(direct: Outcome<V, E>, call: (nat, Config) -> CallResult<V, E>,
                                              policy: Policy, recheck: Policy, meddle: nat -> Meddling,
                                              at: nat -> real, done: nat -> real, rounds: nat)
      returns (r: Option<Outcome<V, E>>, attempts: seq<Attempt<V, E>>)
      modifies if manager == null then {} else {manager.redis}
      ensures manager == null ==> r == Some(direct) && attempts == []
      ensures manager != null && manager.Configs() == [] ==>
        attempts == [] && r == if rounds == 0 then None else Some(ZeroDivision)
      ensures manager != null && manager.Configs() != [] ==>
        var env := Setting(manager.Configs(), at, done, policy, recheck, call, meddle);
        var cooling0, counter0 := old(manager.redis.cooldownUntil), old(manager.redis.counter);
        if r.Some? then Invoked(env, attempts, cooling0, counter0, manager.redis.cooldownUntil, r.value)
        else |attempts| == rounds && Running(env, attempts, cooling0, counter0)
    {
      attempts := [];
      if manager == null {
        return Some(direct), attempts;
      }
      var lastException: Option<E> := None;
      ghost var env := Setting(manager.Configs(), at, done, policy, recheck, call, meddle);
      ghost var cooling0, counter0 := manager.redis.cooldownUntil, manager.redis.counter;
      while |attempts| < rounds
        invariant manager.Configs() == env.configs && |attempts| <= rounds
        invariant AtRound(env, attempts, cooling0, counter0,
                          manager.redis.cooldownUntil, manager.redis.counter, lastException)
      {
        var end;
        end, attempts, lastException := Round(call, policy, recheck, meddle, at, done, attempts, lastException,
                                              env, cooling0, counter0);
        if end.Some? {
          return end, attempts;
        }
      }
      return None, attempts;
    }

    /** One pass of the loop: the outcome if it ends the loop, the attempts, the last exception. */
    method Round<V(!new), E(!new)>(call: (nat, Config) -> CallResult<V, E>, policy: Policy, recheck: Policy,
                                   meddle: nat -> Meddling, at: nat -> real, done: nat -> real,
                                   attempts: seq<Attempt<V, E>>, last: Option<E>,
                                   ghost env: Setting<V, E>, ghost cooling0: map<string, real>, ghost counter0: nat)
      returns (end: Option<Outcome<V, E>>, attempts': seq<Attempt<V, E>>, last': Option<E>)
      requires manager != null && env == Setting(manager.Configs(), at, done, policy, recheck, call, meddle)
      requires AtRound(env, attempts, cooling0, counter0, manager.redis.cooldownUntil, manager.redis.counter, last)
      modifies manager.redis
      ensures Passed(env, attempts, cooling0, counter0, manager.redis.cooldownUntil, manager.redis.counter,
                     end, attempts', last')
    {
      var k := |attempts|;
      ghost var cooling, counter := manager.redis.cooldownUntil, manager.redis.counter;
      var fetched := manager.FetchNext(at(k), policy, k, meddle(k));
      if fetched.DividedByZero? {
        return Some(ZeroDivision), attempts, last;
      }
      if fetched.NoneAvailable? {
        GivesUp(env, attempts, cooling0, counter0, cooling, counter, last, manager.redis.counter);
        return Some(GivenUp(last)), attempts, last;
      }
      var config := fetched.config;
      var result := if Compliant(config, recheck, k) then call(k, config) else NotCompliant;
      var attempt := Attempt(config, manager.redis.counter, result);
      NextRound(env, attempts, attempt, cooling0, counter0, cooling, counter, last);
      attempts' := attempts + [attempt];
      if !Retries(result) {
        return Some(OutcomeOf(result)), attempts', last;
      }
      manager.Cooldown(config, done(k), CooldownSeconds(result));
      return None, attempts', Remembered(result, last);
    }
  }
}
