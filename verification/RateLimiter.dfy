/** The sliding-window rate limiter over a Redis sorted set. The set is pruned on every check
    and its key expires, so it never holds the full history; it must answer as if it did. */
module RateLimiter {
  import opened Wrappers

  /** A sorted set and the time at which its key goes away. */
  datatype ZSet = ZSet(scores: map<string, int>, expiry: Option<real>)

  function View(stored: Option<ZSet>, now: real): map<string, int> {
    if stored.Some? && (stored.value.expiry == None || now < stored.value.expiry.value)
    then stored.value.scores else map[]
  }

  function Lookup(sets: map<string, ZSet>, key: string): Option<ZSet> {
    if key in sets then Some(sets[key]) else None
  }

  datatype Attempt = Attempt(member: string, at: real)

  /** What a set that is never pruned and never expires would hold. */
  function Unpruned(history: seq<Attempt>): map<string, int> {
    if history == [] then map[]
    else
      var last := history[|history| - 1];
      Unpruned(history[..|history| - 1])[last.member := last.at.Floor]
  }

  /** The members scored after bound. */
  function After(scores: map<string, int>, bound: int): set<string> {
    set m | m in scores && scores[m] > bound
  }

  /** What removing the scores up to bound leaves. */
  function Since(scores: map<string, int>, bound: int): map<string, int> {
    map m | m in scores && scores[m] > bound :: scores[m]
  }

  // --- The representation invariant -----------------------------------------

  /** At time now the view holds nothing foreign and misses nothing in the window. */
  ghost predicate Agrees(view: map<string, int>, full: map<string, int>, now: real, window: int) {
    && (forall m :: m in view ==> m in full && full[m] == view[m])
    && (forall m :: m in full && full[m] > now.Floor - window ==> m in view)
  }

  ghost predicate Faithful(stored: Option<ZSet>, full: map<string, int>, clock: real, window: int) {
    && (forall m :: m in full ==> full[m] <= clock.Floor)
    && (forall t: real {:trigger View(stored, t)} :: t >= clock ==> Agrees(View(stored, t), full, t, window))
  }

  lemma FloorMonotone(x: real, y: real, n: int)
    requires x + n as real <= y
    ensures x.Floor + n <= y.Floor
  {
  }

  lemma PruneIsFaithful(stored: Option<ZSet>, full: map<string, int>, clock: real, now: real, window: int,
                        kept: Option<ZSet>)
    requires Faithful(stored, full, clock, window) && now >= clock
    requires kept.Some? ==> stored.Some? && kept.value.expiry == stored.value.expiry
    requires kept.Some? ==> kept.value.scores == Since(View(stored, now), now.Floor - window)
    requires kept == None ==> After(View(stored, now), now.Floor - window) == {}
    ensures Faithful(kept, full, now, window)
  {
    forall t: real | t >= now ensures Agrees(View(kept, t), full, t, window) {
      assert Agrees(View(stored, t), full, t, window) && Agrees(View(stored, now), full, now, window);
      FloorMonotone(now, t, 0);
      if kept == None {
        forall m | m in full ensures full[m] <= t.Floor - window {
          assert m !in After(View(stored, now), now.Floor - window);
        }
      }
    }
    FloorMonotone(clock, now, 0);
  }

  /** The set an increment leaves: the live members, the new one, and an expiry. */
  function AfterIncrement(stored: Option<ZSet>, member: string, now: real, window: int): Option<ZSet> {
    if window > 0 then Some(ZSet(View(stored, now)[member := now.Floor], Some(now + (window * 2) as real))) else None
  }

  lemma IncrementIsFaithful(stored: Option<ZSet>, full: map<string, int>, clock: real, now: real, window: int,
                            member: string)
    requires Faithful(stored, full, clock, window) && now >= clock
    ensures Faithful(AfterIncrement(stored, member, now, window), full[member := now.Floor], now, window)
  {
    var full' := full[member := now.Floor];
    var stored' := AfterIncrement(stored, member, now, window);
    FloorMonotone(clock, now, 0);
    forall t: real | t >= now ensures Agrees(View(stored', t), full', t, window) {
      assert Agrees(View(stored, now), full, now, window);
      FloorMonotone(now, t, 0);
      if window > 0 && t >= now + (window * 2) as real {
        FloorMonotone(now, t, window * 2);
      }
    }
  }

  // --- The limiter ----------------------------------------------------------

  function KeyOf(prefix: string, email: string): string {
    prefix + ":" + email
  }

  function PastOf(history: map<string, seq<Attempt>>, email: string): seq<Attempt> {
    if email in history then history[email] else []
  }

  ghost predicate Represents(sets: map<string, ZSet>, history: map<string, seq<Attempt>>, prefix: string,
                             clock: real, window: int)
  {
    forall email: string {:trigger PastOf(history, email)} ::
      Faithful(Lookup(sets, KeyOf(prefix, email)), Unpruned(PastOf(history, email)), clock, window)
  }

  /** Neither addresses nor limiters share a key, if the limiters' prefixes have no colon. */
  lemma KeysApart(p: string, q: string, email: string, other: string)
    requires ':' !in p && ':' !in q && KeyOf(p, email) == KeyOf(q, other)
    ensures p == q && email == other
  {
    var key := KeyOf(p, email);
    assert key[|p|] == ':' && key[|q|] == ':';
    assert forall i :: 0 <= i < |p| ==> key[i] == p[i] && p[i] in p;
    assert forall i :: 0 <= i < |q| ==> key[i] == q[i] && q[i] in q;
    assert p == key[..|p|] && q == key[..|q|];
    assert email == key[|p| + 1..] && other == key[|q| + 1..];
  }

  /** A call for one address leaves the others as they were, only later. */
  lemma OneAddressChanges(sets: map<string, ZSet>, history: map<string, seq<Attempt>>, prefix: string, clock: real,
                          window: int, email: string, sets': map<string, ZSet>, history': map<string, seq<Attempt>>,
                              now: real)
    requires Represents(sets, history, prefix, clock, window) && now >= clock
    requires forall key :: key != KeyOf(prefix, email) ==> Lookup(sets', key) == Lookup(sets, key)
    requires forall other :: other != email ==> PastOf(history', other) == PastOf(history, other)
    requires Faithful(Lookup(sets', KeyOf(prefix, email)), Unpruned(PastOf(history', email)), now, window)
    ensures Represents(sets', history', prefix, now, window)
  {
    forall other: string {:trigger PastOf(history', other)}
      ensures Faithful(Lookup(sets', KeyOf(prefix, other)), Unpruned(PastOf(history', other)), now, window)
    {
      if other != email {
        assert KeyOf(prefix, other)[|prefix| + 1..] == other && KeyOf(prefix, email)[|prefix| + 1..] == email;
        assert PastOf(history', other) == PastOf(history, other);
        FloorMonotone(clock, now, 0);
      }
    }
  }

  lemma CheckKeeps(sets: map<string, ZSet>, history: map<string, seq<Attempt>>, prefix: string, clock: real,
                   window: int, email: string, sets': map<string, ZSet>, now: real, kept: map<string, int>)
    requires Represents(sets, history, prefix, clock, window) && now >= clock
    requires forall key :: key != KeyOf(prefix, email) ==> Lookup(sets', key) == Lookup(sets, key)
    requires kept == Since(View(Lookup(sets, KeyOf(prefix, email)), now), now.Floor - window)
    requires Lookup(sets', KeyOf(prefix, email)) ==
             if kept == map[] then None
             else Some(ZSet(kept, Lookup(sets, KeyOf(prefix, email)).value.expiry))
    ensures Represents(sets', history, prefix, now, window)
    ensures |kept| == |After(Unpruned(PastOf(history, email)), now.Floor - window)|
  {
    var stored, full := Lookup(sets, KeyOf(prefix, email)), Unpruned(PastOf(history, email));
    var view := View(stored, now);
    assert Faithful(stored, full, clock, window) && Agrees(view, full, now, window);
    assert kept.Keys == After(full, now.Floor - window);
    assert |kept| == |kept.Keys|;
    assert kept == map[] ==> After(view, now.Floor - window) == {} by {
      assert After(view, now.Floor - window) == kept.Keys;
    }
    PruneIsFaithful(stored, full, clock, now, window, Lookup(sets', KeyOf(prefix, email)));
    OneAddressChanges(sets, history, prefix, clock, window, email, sets', history, now);
  }

  lemma IncrementKeeps(sets: map<string, ZSet>, history: map<string, seq<Attempt>>, prefix: string, clock: real,
                       window: int, email: string, member: string, sets': map<string, ZSet>, now: real)
    requires Represents(sets, history, prefix, clock, window) && now >= clock
    requires forall key :: key != KeyOf(prefix, email) ==> Lookup(sets', key) == Lookup(sets, key)
    requires Lookup(sets', KeyOf(prefix, email)) ==
             AfterIncrement(Lookup(sets, KeyOf(prefix, email)), member, now, window)
    ensures Represents(sets', history[email := PastOf(history, email) + [Attempt(member, now)]], prefix, now, window)
  {
    var attempts, last := PastOf(history, email), Attempt(member, now);
    var history' := history[email := attempts + [last]];
    var stored := Lookup(sets, KeyOf(prefix, email));
    assert Faithful(stored, Unpruned(attempts), clock, window);
    IncrementIsFaithful(stored, Unpruned(attempts), clock, now, window, member);
    assert Unpruned(attempts + [last]) == Unpruned(attempts)[member := now.Floor] by {
      assert (attempts + [last])[..|attempts|] == attempts;
    }
    OneAddressChanges(sets, history, prefix, clock, window, email, sets', history', now);
  }

  /** Limited means that the full history has max members in the window, and at least one: a
      limit of zero or less limits nobody who made no attempt. */
  ghost predicate Limited(history: seq<Attempt>, now: real, window: int, max: int) {
    var recent := |After(Unpruned(history), now.Floor - window)|;
    recent >= max && recent > 0
  }

  class RateLimiter {
    const prefix: string
    const maxAttempts: int
    const timeWindow: int
    var sets: map<string, ZSet>

    /** Every increment so far, per address, and the time of the last call. */
    ghost var history: map<string, seq<Attempt>>
    ghost var clock: real

    ghost predicate Valid()
      reads this
    {
      Represents(sets, history, prefix, clock, timeWindow)
    }

    constructor (prefix: string, maxAttempts: int, timeWindow: int, now: real)
      ensures Valid() && history == map[] && clock == now
      ensures this.prefix == prefix && this.maxAttempts == maxAttempts && this.timeWindow == timeWindow
    {
      this.prefix, this.maxAttempts, this.timeWindow := prefix, maxAttempts, timeWindow;
      sets, history, clock := map[], map[], now;
    }

    /** The pruned, expiring set gives the answer of the full history. */
    method IsRateLimited(email: string, now: real) returns (limited: bool)
      requires Valid() && now >= clock
      modifies this
      ensures Valid() && history == old(history) && clock == now
      ensures limited <==> Limited(PastOf(history, email), now, timeWindow, maxAttempts)
      // what is too old is removed, the rest keeps its expiry
      ensures var key, live := KeyOf(prefix, email), View(Lookup(old(sets), KeyOf(prefix, email)), now);
              var kept := map m | m in live && live[m] > now.Floor - timeWindow :: live[m];
              && (kept == map[] ==> key !in sets)
              && (kept != map[] ==>
                    key in sets && key in old(sets) && sets[key] == ZSet(kept, old(sets)[key].expiry))
              && (forall other :: other != key ==> Lookup(sets, other) == Lookup(old(sets), other))
    {
      var key, start := KeyOf(prefix, email), now.Floor - timeWindow;
      var stored := Lookup(sets, key);
      var kept := Since(View(stored, now), start);
      // removing the last member removes the key
      var sets' := if kept == map[] then sets - {key} else sets[key := ZSet(kept, stored.value.expiry)];
      CheckKeeps(sets, history, prefix, clock, timeWindow, email, sets', now, kept);
      sets, clock := sets', now;
      var attempts := |kept|;
      limited := attempts != 0 && attempts >= maxAttempts;
    }

    method IncrementRateLimit(email: string, member: string, now: real)
      requires Valid() && now >= clock
      modifies this
      ensures Valid() && clock == now
      ensures history == old(history)[email := PastOf(old(history), email) + [Attempt(member, now)]]
      // the key then lives for two windows; with a window of zero or less it is deleted
      ensures var key, live := KeyOf(prefix, email), View(Lookup(old(sets), KeyOf(prefix, email)), now);
              && (timeWindow <= 0 ==> key !in sets)
              && (timeWindow > 0 ==>
                    key in sets && sets[key] == ZSet(live[member := now.Floor], Some(now + 2.0 * timeWindow as real)))
              && (forall other :: other != key ==> Lookup(sets, other) == Lookup(old(sets), other))
    {
      var key := KeyOf(prefix, email);
      var stored := Lookup(sets, key);
      // the set gets the member; then an expiry, and one of zero or less deletes the key
      var added := ZSet(View(stored, now)[member := now.Floor], None);
      var sets' := sets[key := added];
      sets' := if timeWindow * 2 > 0
        then sets'[key := added.(expiry := Some(now + (timeWindow * 2) as real))] else sets' - {key};
      IncrementKeeps(sets, history, prefix, clock, timeWindow, email, member, sets', now);
      history := history[email := PastOf(history, email) + [Attempt(member, now)]];
      sets, clock := sets', now;
    }
  }

  // --- What the answers mean ------------------------------------------------

  /** The number of attempts scored after bound. */
  function CountAfter(times: seq<int>, bound: int): nat {
    if times == [] then 0
    else CountAfter(times[..|times| - 1], bound) + if times[|times| - 1] > bound then 1 else 0
  }

  function Scores(history: seq<Attempt>): (r: seq<int>)
    ensures |r| == |history|
  {
    seq(|history|, i requires 0 <= i < |history| => history[i].at.Floor)
  }

  ghost predicate DistinctMembers(history: seq<Attempt>) {
    forall i, j :: 0 <= i < j < |history| ==> history[i].member != history[j].member
  }

  lemma {:induction false} UnprunedMembers(history: seq<Attempt>)
    ensures forall m :: m in Unpruned(history) <==> exists i :: 0 <= i < |history| && history[i].member == m
  {
    if history == [] {
    } else {
      var init, last := history[..|history| - 1], history[|history| - 1];
      UnprunedMembers(init);
      forall m | m in Unpruned(history) ensures exists i :: 0 <= i < |history| && history[i].member == m {
        if m in Unpruned(init) {
          var i :| 0 <= i < |init| && init[i].member == m;
          assert history[i].member == m;
        }
      }
      forall i | 0 <= i < |history| ensures history[i].member in Unpruned(history) {
        if i < |init| { assert init[i].member in Unpruned(init); }
      }
    }
  }

  lemma AfterOneMore(scores: map<string, int>, member: string, score: int, bound: int)
    requires member !in scores
    ensures |After(scores[member := score], bound)| == |After(scores, bound)| + if score > bound then 1 else 0
  {
    assert After(scores[member := score], bound) == After(scores, bound) + if score > bound then {member} else {};
  }

  /** With distinct members the members in the window are the attempts in the window. */
  lemma {:induction false} DistinctMembersCountAttempts(history: seq<Attempt>, bound: int)
    requires DistinctMembers(history)
    ensures |After(Unpruned(history), bound)| == CountAfter(Scores(history), bound)
  {
    if history != [] {
      var init, last := history[..|history| - 1], history[|history| - 1];
      DistinctMembersCountAttempts(init, bound);
      UnprunedMembers(init);
      AfterOneMore(Unpruned(init), last.member, last.at.Floor, bound);
      assert Scores(history)[..|history| - 1] == Scores(init);
    } else {
      assert After(Unpruned(history), bound) == {};
    }
  }

  /** The limiter says no to an address with max attempts in the window, and, whatever the limit, to
      none without an attempt there: a limit of zero or less acts like a limit of one. */
  lemma LimitedExactly(history: seq<Attempt>, now: real, window: int, max: int)
    requires DistinctMembers(history)
    ensures Limited(history, now, window, max) <==>
            CountAfter(Scores(history), now.Floor - window) >= if max >= 1 then max else 1
  {
    DistinctMembersCountAttempts(history, now.Floor - window);
  }

  /** The number of attempts in the half-open window (from, to]. */
  function CountWithin(times: seq<int>, from: int, to: int): nat {
    if times == [] then 0
    else CountWithin(times[..|times| - 1], from, to) + if from < times[|times| - 1] <= to then 1 else 0
  }

  /** At its check the i-th attempt had fewer than max before it in the window. */
  predicate Allowed(times: seq<int>, checks: seq<int>, window: int, max: int, i: nat)
    requires i < |times| == |checks|
  {
    CountAfter(times[..i], checks[i] - window) < max
  }

  /** Every attempt was made after a check, at checks[i], that found fewer than max in the
      window; nothing was recorded between the check and the attempt. */
  ghost predicate Guarded(times: seq<int>, checks: seq<int>, window: int, max: int) {
    && |checks| == |times|
    && (forall i, j :: 0 <= i < j < |times| ==> times[i] <= times[j])
    && (forall i :: 0 <= i < |times| ==> checks[i] <= times[i])
    && (forall i :: 0 <= i < |times| ==> Allowed(times, checks, window, max, i))
  }

  lemma {:induction false} WithinIsAfter(times: seq<int>, from: int, to: int, bound: int)
    requires bound <= from
    ensures CountWithin(times, from, to) <= CountAfter(times, bound)
  {
    if times == [] {
    } else {
      WithinIsAfter(times[..|times| - 1], from, to, bound);
    }
  }

  lemma {:induction false} NoneWithin(times: seq<int>, from: int, to: int)
    requires forall i :: 0 <= i < |times| ==> times[i] <= from
    ensures CountWithin(times, from, to) == 0
  {
    if times == [] {
    } else {
      NoneWithin(times[..|times| - 1], from, to);
    }
  }

  lemma GuardedPrefix(times: seq<int>, checks: seq<int>, window: int, max: int)
    requires Guarded(times, checks, window, max) && times != []
    ensures Guarded(times[..|times| - 1], checks[..|times| - 1], window, max)
    ensures CountAfter(times[..|times| - 1], checks[|times| - 1] - window) < max
  {
    var n := |times| - 1;
    var init, earlier := times[..n], checks[..n];
    forall i | 0 <= i < n ensures init[i] == times[i] && earlier[i] == checks[i] {}
    forall i | 0 <= i < n ensures Allowed(init, earlier, window, max, i) {
      assert Allowed(times, checks, window, max, i);
      assert init[..i] == times[..i];
    }
    assert Allowed(times, checks, window, max, n);
  }

  /** A run that attempts only when not limited has at most max attempts in any window. */
  lemma {:induction false} GuardedRunIsBounded(times: seq<int>, checks: seq<int>, window: int, max: nat, from: int)
    requires Guarded(times, checks, window, max)
    ensures CountWithin(times, from, from + window) <= max
  {
    if times == [] {
    } else {
      var n := |times| - 1;
      GuardedPrefix(times, checks, window, max);
      if times[n] > from + window {
        GuardedRunIsBounded(times[..n], checks[..n], window, max, from);
      } else if times[n] <= from {
        NoneWithin(times, from, from + window);
      } else {
        WithinIsAfter(times[..n], from, from + window, checks[n] - window);
      }
    }
  }

  /** A run of distinct attempts in time order, each one recorded after the limiter said no. */
  ghost predicate RunUnderLimiter(history: seq<Attempt>, checks: seq<real>, window: int, max: int) {
    && DistinctMembers(history) && |checks| == |history|
    && (forall i, j :: 0 <= i < j < |history| ==> history[i].at <= history[j].at)
    && (forall i :: 0 <= i < |history| ==> checks[i] <= history[i].at)
    && (forall i :: 0 <= i < |history| ==> !Limited(history[..i], checks[i], window, max))
  }

  lemma NotLimitedCounts(history: seq<Attempt>, k: nat, check: real, window: int, max: nat)
    requires DistinctMembers(history) && k <= |history| && max >= 1
    ensures !Limited(history[..k], check, window, max) <==>
            CountAfter(Scores(history)[..k], check.Floor - window) < max
  {
    assert Scores(history[..k]) == Scores(history)[..k];
    DistinctMembersCountAttempts(history[..k], check.Floor - window);
  }

  /** Such a run never has more than max attempts recorded in any window of the configured number
      of whole seconds: the limiter records the second of an attempt, not its time. */
  lemma LimiterBoundsEveryWindow(history: seq<Attempt>, checks: seq<real>, window: int, max: nat, from: int)
    requires RunUnderLimiter(history, checks, window, max) && max >= 1
    ensures CountWithin(Scores(history), from, from + window) <= max
  {
    var times, checked := Scores(history), seq(|checks|, i requires 0 <= i < |checks| => checks[i].Floor);
    forall i | 0 <= i < |times| ensures checked[i] <= times[i] && Allowed(times, checked, window, max, i) {
      assert !Limited(history[..i], checks[i], window, max);
      NotLimitedCounts(history, i, checks[i], window, max);
      FloorMonotone(checks[i], history[i].at, 0);
    }
    forall i, j | 0 <= i < j < |times| ensures times[i] <= times[j] {
      FloorMonotone(history[i].at, history[j].at, 0);
    }
    GuardedRunIsBounded(times, checked, window, max, from);
  }

  // --- Callers that interleave ------------------------------------------------

  /** One caller's check that said no: what was on record then, and the time it took for now. */
  datatype Pass = Pass(caller: nat, seen: nat, at: int)

  predicate OneAtATime(passes: seq<Pass>, i: nat, j: nat)
    requires i < j < |passes|
  {
    passes[i].caller == passes[j].caller ==> i < passes[j].seen
  }

  /** The i-th attempt is one of the callers', and its check came before it. */
  predicate CheckedBefore(times: seq<int>, passes: seq<Pass>, callers: nat, i: nat)
    requires i < |times| == |passes|
  {
    passes[i].caller < callers && passes[i].seen <= i && passes[i].at <= times[i]
  }

  ghost predicate Passed(times: seq<int>, pass: Pass, window: int, max: int) {
    pass.seen <= |times| && CountAfter(times[..pass.seen], pass.at - window) < max
  }

  /** Attempts in the order in which they are recorded, each after a check that passed, maybe long
      before; every caller records its attempt before it checks again. */
  ghost predicate Interleaved(times: seq<int>, passes: seq<Pass>, window: int, max: int, callers: nat) {
    && |passes| == |times|
    && (forall i, j :: 0 <= i < j < |times| ==> times[i] <= times[j])
    && (forall i :: 0 <= i < |times| ==> CheckedBefore(times, passes, callers, i))
    && (forall i, j :: 0 <= i < j < |passes| ==> OneAtATime(passes, i, j))
    && (forall i :: 0 <= i < |times| ==> Passed(times, passes[i], window, max))
  }

  /** Of times in order, those in a window are next to each other. */
  lemma {:induction false} WindowIsRange(times: seq<int>, from: int, to: int) returns (lo: nat, hi: nat)
    requires from <= to && forall i, j :: 0 <= i < j < |times| ==> times[i] <= times[j]
    ensures lo <= hi <= |times| && CountWithin(times, from, to) == hi - lo
    ensures forall i :: 0 <= i < |times| ==> (from < times[i] <= to <==> lo <= i < hi)
    ensures forall i :: 0 <= i < |times| ==> (times[i] <= from <==> i < lo)
  {
    if times == [] {
      lo, hi := 0, 0;
    } else {
      var n := |times| - 1;
      lo, hi := WindowIsRange(times[..n], from, to);
      if times[n] <= from {
        lo, hi := n + 1, n + 1;
      } else if times[n] <= to {
        hi := n + 1;
      }
    }
  }

  lemma {:induction false} CountAtLeast(times: seq<int>, lo: nat, k: nat, bound: int)
    requires lo + k <= |times| && forall i :: lo <= i < lo + k ==> times[i] > bound
    ensures CountAfter(times, bound) >= k
  {
    if |times| == 0 || k == 0 {
    } else {
      var n := |times| - 1;
      CountAtLeast(times[..n], lo, if lo + k == |times| then k - 1 else k, bound);
    }
  }

  lemma {:induction false} DistinctAtMost(s: seq<nat>, c: nat)
    requires forall i, j :: 0 <= i < j < |s| ==> s[i] != s[j]
    requires forall i :: 0 <= i < |s| ==> s[i] < c
    ensures |s| <= c
  {
    assert s != [] ==> 0 <= s[0] < c;
    if c == 0 {
    } else if k :| 0 <= k < |s| && s[k] == c - 1 {
      var rest := s[..k] + s[k + 1..];
      assert forall i :: 0 <= i < |rest| ==> rest[i] == s[if i < k then i else i + 1];
      DistinctAtMost(rest, c - 1);
    } else {
      DistinctAtMost(s, c - 1);
    }
  }

  /** A check made when the window already held max attempts would not have passed. */
  lemma PassedBeforeFull(times: seq<int>, passes: seq<Pass>, window: int, max: nat, callers: nat,
                         from: int, lo: nat, hi: nat, i: nat)
    requires Interleaved(times, passes, window, max, callers) && lo <= i < hi <= |times|
    requires forall k :: lo <= k < hi ==> from < times[k] <= from + window
    ensures passes[i].seen < lo + max
  {
    assert Passed(times, passes[i], window, max) && CheckedBefore(times, passes, callers, i);
    var seen := passes[i].seen;
    if seen >= lo + max {
      CountAtLeast(times[..seen], lo, max, passes[i].at - window);
    }
  }

  /** From the attempt that fills the window on, no caller makes two. */
  lemma LateCallers(times: seq<int>, passes: seq<Pass>, window: nat, max: nat, callers: nat,
                    from: int, lo: nat, hi: nat) returns (late: seq<nat>)
    requires Interleaved(times, passes, window, max, callers) && max >= 1 && lo + max - 1 < hi <= |times|
    requires forall k :: lo <= k < hi ==> from < times[k] <= from + window
    ensures |late| == hi - (lo + max - 1) && forall i :: 0 <= i < |late| ==> late[i] < callers
    ensures forall i, j :: 0 <= i < j < |late| ==> late[i] != late[j]
  {
    var m := lo + max - 1;
    late := seq(hi - m, i requires 0 <= i < hi - m => passes[m + i].caller);
    forall i | 0 <= i < |late| ensures late[i] < callers {
      assert CheckedBefore(times, passes, callers, m + i);
    }
    forall i, j | 0 <= i < j < |late| ensures late[i] != late[j] {
      PassedBeforeFull(times, passes, window, max, callers, from, lo, hi, m + j);
      assert OneAtATime(passes, m + i, m + j);
    }
  }

  /** With callers whose checks and attempts interleave in any way, a window holds at most one
      attempt of each caller beyond what one caller alone could make. */
  lemma InterleavedIsBounded(times: seq<int>, passes: seq<Pass>, window: nat, max: nat, callers: nat, from: int)
    requires Interleaved(times, passes, window, max, callers) && max >= 1 && callers >= 1
    ensures CountWithin(times, from, from + window) <= max + callers - 1
  {
    var lo, hi := WindowIsRange(times, from, from + window);
    if lo + max - 1 < hi {
      var late := LateCallers(times, passes, window, max, callers, from, lo, hi);
      DistinctAtMost(late, callers);
    }
  }

  lemma {:induction false} CountOfEqual(n: nat, at: int, from: int, to: int)
    requires from < at <= to
    ensures CountAfter(seq(n, _ => at), from) == n && CountWithin(seq(n, _ => at), from, to) == n
  {
    if n == 0 {
    } else {
      assert seq(n, _ => at)[..n - 1] == seq(n - 1, _ => at);
      CountOfEqual(n - 1, at, from, to);
    }
  }

  function CrowdedPass(i: nat, max: nat, at: int): Pass
    requires max >= 1
  {
    if i < max - 1 then Pass(0, i, at) else Pass(i - (max - 1), max - 1, at)
  }

  lemma CrowdedPasses(n: nat, i: nat, window: nat, max: nat, at: int)
    requires window >= 1 && max >= 1 && i < n
    ensures Passed(seq(n, _ => at), CrowdedPass(i, max, at), window, max)
  {
    var seen := CrowdedPass(i, max, at).seen;
    assert seq(n, _ => at)[..seen] == seq(seen, _ => at);
    CountOfEqual(seen, at, at - window, at);
  }

  lemma CrowdTakesTurns(max: nat, at: int, i: nat, j: nat)
    requires max >= 1 && i < j
    ensures var earlier, later := CrowdedPass(i, max, at), CrowdedPass(j, max, at);
            earlier.caller == later.caller ==> i < later.seen
  {
  }

  /** The bound is met: one caller fills the window but for one attempt, then all check at once. */
  lemma InterleavedBoundIsMet(window: nat, max: nat, callers: nat, at: int)
      returns (times: seq<int>, passes: seq<Pass>)
    requires window >= 1 && max >= 1 && callers >= 1
    ensures Interleaved(times, passes, window, max, callers)
    ensures CountWithin(times, at - window, at) == max + callers - 1
  {
    var n := max + callers - 1;
    times := seq(n, _ => at);
    passes := seq(n, i requires 0 <= i < n => CrowdedPass(i, max, at));
    CountOfEqual(n, at, at - window, at);
    forall i, j | 0 <= i < j < n ensures OneAtATime(passes, i, j) {
      CrowdTakesTurns(max, at, i, j);
    }
    forall i | 0 <= i < n ensures CheckedBefore(times, passes, callers, i) {}
    forall i | 0 <= i < n ensures Passed(times, passes[i], window, max) {
      CrowdedPasses(n, i, window, max, at);
    }
  }

  /** The i-th attempt was made after a check at which the limiter said no. */
  ghost predicate LetThrough(history: seq<Attempt>, passes: seq<Pass>, checks: seq<real>, window: int, max: int,
                             callers: nat, i: nat)
    requires i < |history| == |passes| == |checks|
  {
    && passes[i].caller < callers && passes[i].seen <= i
    && checks[i] <= history[i].at && passes[i].at == checks[i].Floor
    && !Limited(history[..passes[i].seen], checks[i], window, max)
  }

  /** The same of the limiter's own answers. */
  ghost predicate InterleavedUnderLimiter(history: seq<Attempt>, passes: seq<Pass>, checks: seq<real>,
                                          window: int, max: int, callers: nat)
  {
    && DistinctMembers(history) && |checks| == |passes| == |history|
    && (forall i, j :: 0 <= i < j < |history| ==> history[i].at <= history[j].at)
    && (forall i :: 0 <= i < |history| ==> LetThrough(history, passes, checks, window, max, callers, i))
    && (forall i, j :: 0 <= i < j < |passes| ==> OneAtATime(passes, i, j))
  }

  lemma LimiterBoundsInterleavedCallers(history: seq<Attempt>, passes: seq<Pass>, checks: seq<real>,
                                        window: nat, max: nat, callers: nat, from: int)
    requires InterleavedUnderLimiter(history, passes, checks, window, max, callers) && max >= 1 && callers >= 1
    ensures CountWithin(Scores(history), from, from + window) <= max + callers - 1
  {
    var times := Scores(history);
    forall i, j | 0 <= i < j < |times| ensures times[i] <= times[j] {
      FloorMonotone(history[i].at, history[j].at, 0);
    }
    forall i | 0 <= i < |times|
      ensures CheckedBefore(times, passes, callers, i)
      ensures Passed(times, passes[i], window, max)
    {
      assert LetThrough(history, passes, checks, window, max, callers, i);
      FloorMonotone(checks[i], history[i].at, 0);
      NotLimitedCounts(history, passes[i].seen, checks[i], window, max);
    }
    InterleavedIsBounded(times, passes, window, max, callers, from);
  }

  // --- What this is in real time ----------------------------------------------

  /** The number of attempts made in the half-open interval (from, to] of the clock itself. */
  function CountBetween(history: seq<Attempt>, from: real, to: real): nat {
    if history == [] then 0
    else CountBetween(history[..|history| - 1], from, to) + if from < history[|history| - 1].at <= to then 1 else 0
  }

  lemma {:induction false} NoneBetween(history: seq<Attempt>, from: real, to: real)
    requires to <= from
    ensures CountBetween(history, from, to) == 0
  {
    if history == [] {
    } else {
      NoneBetween(history[..|history| - 1], from, to);
    }
  }

  lemma {:induction false} BetweenIsWithin(history: seq<Attempt>, from: real, to: real)
    ensures CountBetween(history, from, to) <= CountWithin(Scores(history), from.Floor - 1, to.Floor)
  {
    if history == [] {
    } else {
      var n := |history| - 1;
      BetweenIsWithin(history[..n], from, to);
      assert Scores(history)[..n] == Scores(history[..n]);
      if from < history[n].at <= to {
        FloorMonotone(from, history[n].at, 0);
        FloorMonotone(history[n].at, to, 0);
      }
    }
  }

  lemma {:induction false} WithinTwo(times: seq<int>, from: int, low: int, high: int, to: int)
    requires low <= high
    ensures CountWithin(times, from, to) <= CountWithin(times, from, high) + CountWithin(times, low, to)
  {
    if times == [] {
    } else {
      WithinTwo(times[..|times| - 1], from, low, high, to);
    }
  }

  /** An interval of real time reaches into two windows of whole seconds, and one that is a second
      shorter lies in a single one. */
  lemma IntervalMeetsTwoWindows(history: seq<Attempt>, window: int, most: nat, from: real)
    requires CountWithin(Scores(history), from.Floor - 1, from.Floor - 1 + window) <= most
    requires CountWithin(Scores(history), from.Floor, from.Floor + window) <= most
    ensures CountBetween(history, from, from + window as real) <= 2 * most
    ensures CountBetween(history, from, from + (window - 1) as real) <= most
  {
    var f := from.Floor;
    if window <= 0 {
      NoneBetween(history, from, from + window as real);
      NoneBetween(history, from, from + (window - 1) as real);
    } else {
      BetweenIsWithin(history, from, from + window as real);
      WithinTwo(Scores(history), f - 1, f, f - 1 + window, f + window);
      BetweenIsWithin(history, from, from + (window - 1) as real);
    }
  }

  /** On the clock, an interval of the configured length holds at most twice the limit; an interval
      a second shorter keeps to it. */
  lemma LimiterBoundsEveryInterval(history: seq<Attempt>, checks: seq<real>, window: int, max: nat, from: real)
    requires RunUnderLimiter(history, checks, window, max) && max >= 1
    ensures CountBetween(history, from, from + window as real) <= 2 * max
    ensures CountBetween(history, from, from + (window - 1) as real) <= max
  {
    LimiterBoundsEveryWindow(history, checks, window, max, from.Floor - 1);
    LimiterBoundsEveryWindow(history, checks, window, max, from.Floor);
    IntervalMeetsTwoWindows(history, window, max, from);
  }

  lemma LimiterBoundsInterleavedIntervals(history: seq<Attempt>, passes: seq<Pass>, checks: seq<real>,
                                          window: nat, max: nat, callers: nat, from: real)
    requires InterleavedUnderLimiter(history, passes, checks, window, max, callers) && max >= 1 && callers >= 1
    ensures CountBetween(history, from, from + window as real) <= 2 * (max + callers - 1)
    ensures CountBetween(history, from, from + (window - 1) as real) <= max + callers - 1
  {
    LimiterBoundsInterleavedCallers(history, passes, checks, window, max, callers, from.Floor - 1);
    LimiterBoundsInterleavedCallers(history, passes, checks, window, max, callers, from.Floor);
    IntervalMeetsTwoWindows(history, window, max + callers - 1, from);
  }

  function CrowdTime(n: nat, first: real, second: real, i: nat): real {
    if i < n then first else second
  }

  /** Two crowds of n attempts, all at one time and then all at another. */
  function TwoCrowds(n: nat, first: real, second: real): (r: seq<Attempt>)
    ensures |r| == n + n && DistinctMembers(r)
  {
    var r := seq(n + n, i requires 0 <= i < n + n => Attempt(seq(i, _ => 'a'), CrowdTime(n, first, second, i)));
    assert forall i :: 0 <= i < n + n ==> |r[i].member| == i;
    r
  }

  /** What the first k of them leave after a bound, and between two times. */
  lemma {:induction false} CrowdsCount(n: nat, first: real, second: real, k: nat, bound: int, from: real, to: real)
    requires k <= n + n && first.Floor <= bound < second.Floor && from < first <= second <= to
    ensures CountAfter(Scores(TwoCrowds(n, first, second))[..k], bound) == if k <= n then 0 else k - n
    ensures CountBetween(TwoCrowds(n, first, second)[..k], from, to) == k
  {
    if k == 0 {
    } else {
      CrowdsCount(n, first, second, k - 1, bound, from, to);
      var history := TwoCrowds(n, first, second);
      assert Scores(history)[..k][..k - 1] == Scores(history)[..k - 1];
      assert history[..k][..k - 1] == history[..k - 1];
    }
  }

  lemma {:induction false} FirstCrowdCounts(n: nat, first: real, second: real, k: nat, bound: int)
    requires k <= n
    ensures CountAfter(Scores(TwoCrowds(n, first, second))[..k], bound) <= k
  {
    if k == 0 {
    } else {
      FirstCrowdCounts(n, first, second, k - 1, bound);
      var history := TwoCrowds(n, first, second);
      assert Scores(history)[..k][..k - 1] == Scores(history)[..k - 1];
    }
  }

  lemma CrowdsBetween(n: nat, first: real, second: real, from: real)
    requires first.Floor < second.Floor && from < first <= second
    ensures CountBetween(TwoCrowds(n, first, second), from, second) == 2 * n
  {
    CrowdsCount(n, first, second, n + n, first.Floor, from, second);
    assert TwoCrowds(n, first, second)[..n + n] == TwoCrowds(n, first, second);
  }

  function TwoCrowdsPass(n: nat, max: nat, first: real, second: real, i: nat): Pass
    requires max >= 1
  {
    if i < n then CrowdedPass(i, max, first.Floor)
    else
      var pass := CrowdedPass(i - n, max, second.Floor);
      pass.(seen := n + pass.seen)
  }

  lemma OneCallerRunsInOrder(history: seq<Attempt>, passes: seq<Pass>, checks: seq<real>, window: int, max: int,
                             callers: nat)
    requires InterleavedUnderLimiter(history, passes, checks, window, max, callers)
    ensures callers == 1 ==> RunUnderLimiter(history, checks, window, max)
  {
    if callers == 1 {
      forall i | 0 <= i < |history|
        ensures checks[i] <= history[i].at && !Limited(history[..i], checks[i], window, max)
      {
        assert LetThrough(history, passes, checks, window, max, callers, i);
        if i > 0 {
          assert LetThrough(history, passes, checks, window, max, callers, i - 1);
          assert OneAtATime(passes, i - 1, i);
        }
        assert passes[i].seen == i;
      }
    }
  }

  /** The limiter lets an attempt of either crowd through when the second one meets a window
      without the first. */
  lemma CrowdPasses(n: nat, max: nat, window: int, first: real, second: real, i: nat)
    requires 1 <= max <= n && i < n + n && window >= 1 && first <= second && first.Floor + window == second.Floor
    ensures var pass := TwoCrowdsPass(n, max, first, second, i);
            && pass.seen <= i
            && !Limited(TwoCrowds(n, first, second)[..pass.seen], CrowdTime(n, first, second, i), window, max)
  {
    var seen := TwoCrowdsPass(n, max, first, second, i).seen;
    NotLimitedCounts(TwoCrowds(n, first, second), seen, CrowdTime(n, first, second, i), window, max);
    if i < n {
      FirstCrowdCounts(n, first, second, seen, first.Floor - window);
    } else {
      CrowdsCount(n, first, second, seen, first.Floor, first - 1.0, second);
    }
  }

  lemma CrowdsTakeTurns(n: nat, max: nat, first: real, second: real, i: nat, j: nat)
    requires max >= 1 && i < j
    ensures var earlier, later := TwoCrowdsPass(n, max, first, second, i), TwoCrowdsPass(n, max, first, second, j);
            earlier.caller == later.caller ==> i < later.seen
  {
  }

  lemma CrowdsPass(max: nat, callers: nat, window: int, first: real, second: real, from: real)
      returns (history: seq<Attempt>, passes: seq<Pass>, checks: seq<real>)
    requires max >= 1 && callers >= 1 && window >= 1
    requires from < first <= second && first.Floor + window == second.Floor
    ensures InterleavedUnderLimiter(history, passes, checks, window, max, callers)
    ensures CountBetween(history, from, second) == 2 * (max + callers - 1)
  {
    var n := max + callers - 1;
    history := TwoCrowds(n, first, second);
    CrowdsBetween(n, first, second, from);
    passes := seq(n + n, i requires 0 <= i < n + n => TwoCrowdsPass(n, max, first, second, i));
    checks := seq(n + n, i requires 0 <= i < n + n => CrowdTime(n, first, second, i));
    forall i | 0 <= i < n + n ensures LetThrough(history, passes, checks, window, max, callers, i) {
      CrowdPasses(n, max, window, first, second, i);
    }
    forall i, j | 0 <= i < j < n + n ensures OneAtATime(passes, i, j) {
      CrowdsTakeTurns(n, max, first, second, i, j);
    }
  }

  lemma Earlier(window: nat, length: real) returns (first: real, from: real)
    requires window >= 1 && length > (window - 1) as real
    ensures first.Floor == 0 && from < first <= from + length == window as real
  {
    var slack := length - window as real + 1.0;
    first, from := if slack < 1.0 then 1.0 - slack / 2.0 else 0.5, window as real - length;
  }

  /** Both are exact: for every interval longer than a second less than the window there is a run
      with twice as many attempts in it, and with one caller it is an ordinary run. */
  lemma IntervalBoundIsMet(window: nat, max: nat, callers: nat, length: real)
      returns (history: seq<Attempt>, passes: seq<Pass>, checks: seq<real>, from: real)
    requires window >= 1 && max >= 1 && callers >= 1 && length > (window - 1) as real
    ensures InterleavedUnderLimiter(history, passes, checks, window, max, callers)
    ensures callers == 1 ==> RunUnderLimiter(history, checks, window, max)
    ensures CountBetween(history, from, from + length) == 2 * (max + callers - 1)
  {
    var first;
    first, from := Earlier(window, length);
    history, passes, checks := CrowdsPass(max, callers, window, first, window as real, from);
    OneCallerRunsInOrder(history, passes, checks, window, max, callers);
  }
}
