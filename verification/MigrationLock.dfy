/** DbMigrationAutoRenewLock itself: the wrapper around one redis-py lock, with its fields
    updated in place. Redis answers and failures are parameters of each call. */
module MigrationLock {
  import opened LockTiming
  import opened Wrappers

  /** What happens to a call on its way: it arrives, its reply is lost, or it never arrives. */
  datatype Delivery = Delivered | ReplyLost | NotDelivered

  /** Commands of other clients, in time order, as Redis runs them between two of this one's. */
  type Others = seq<(Command, real)>

  function Meanwhile(lease: Lease, lifetime: real, others: Others): Lease {
    if others == [] then lease
    else
      var (command, at) := others[|others| - 1];
      Execute(Meanwhile(lease, lifetime, others[..|others| - 1]), at, lifetime, command)
  }

  /** One SET NX of an acquire. A blocking acquire tries again, under the same token, until its
      time is up; how many tries that makes is settled by its arguments. */
  datatype Try = Try(others: Others, now: real, delivery: Delivery)

  datatype AcquireOutcome = AlreadyAcquired | RedisFailure | Answer(acquired: bool)

  /** The key and the answer after the tries: the first one that gets through and finds the key
      free takes it, and the first one that fails raises. */
  function TryAll(lease: Lease, lifetime: real, token: Token, tries: seq<Try>): (Lease, AcquireOutcome)
    decreases |tries|
  {
    if tries == [] then (lease, Answer(false))
    else
      var t := tries[0];
      var found := Meanwhile(lease, lifetime, t.others);
      var after := if t.delivery == NotDelivered then found else Execute(found, t.now, lifetime, SetNx(token));
      if t.delivery != Delivered then (after, RedisFailure)
      else if !IsLive(found, t.now) then (after, Answer(true))
      else TryAll(after, lifetime, token, tries[1..])
  }

  /** An acquire that succeeds leaves the key under its token, live when it was set. */
  lemma {:induction false} TryAllMeans(lease: Lease, lifetime: real, token: Token, tries: seq<Try>)
    requires lifetime > 0.0
    ensures var (after, r) := TryAll(lease, lifetime, token, tries);
            && r != AlreadyAcquired
            && (r == Answer(true) ==> exists i :: 0 <= i < |tries| && after == Lease(token, tries[i].now + lifetime))
            && ((forall i :: 0 <= i < |tries| ==> tries[i].delivery == Delivered) ==> r.Answer?)
    decreases |tries|
  {
    if tries == [] {
    } else {
      TryAllMeans(Execute(Meanwhile(lease, lifetime, tries[0].others), tries[0].now, lifetime, SetNx(token)),
                  lifetime, token, tries[1..]);
      assert forall i :: 0 <= i < |tries[1..]| ==> tries[1..][i] == tries[i + 1];
      var (after, r) := TryAll(lease, lifetime, token, tries);
      if r == Answer(true) && tries[0].delivery == Delivered &&
          IsLive(Meanwhile(lease, lifetime, tries[0].others), tries[0].now) {
        var i :| 0 <= i < |tries[1..]| && after == Lease(token, tries[1..][i].now + lifetime);
        assert after == Lease(token, tries[i + 1].now + lifetime);
      } else if r == Answer(true) {
        assert after == Lease(token, tries[0].now + lifetime);
      }
    }
  }

  /** What the others alone make of the key until the i-th try. */
  function Untaken(lease: Lease, lifetime: real, tries: seq<Try>, i: nat): Lease
    requires i < |tries|
  {
    Meanwhile(if i == 0 then lease else Untaken(lease, lifetime, tries, i - 1), lifetime, tries[i].others)
  }

  /** The i-th try gets through and finds the key taken. */
  predicate Refused(lease: Lease, lifetime: real, tries: seq<Try>, i: nat)
    requires i < |tries|
  {
    var found := Untaken(lease, lifetime, tries, i);
    tries[i].delivery == Delivered && found.Lease? && tries[i].now < found.expiry
  }

  /** What an acquire comes to with the first try that is not refused. */
  function FirstNotRefused(lease: Lease, lifetime: real, token: Token, tries: seq<Try>, i: nat): (Lease, AcquireOutcome)
    requires i < |tries|
  {
    var found, t := Untaken(lease, lifetime, tries, i), tries[i];
    var taken := found.Lease? && t.now < found.expiry;
    (if t.delivery == NotDelivered || taken then found else Lease(token, t.now + lifetime),
     if t.delivery == Delivered then Answer(true) else RedisFailure)
  }

  lemma {:induction false} UntakenShifts(lease: Lease, lifetime: real, tries: seq<Try>, i: nat)
    requires i + 1 < |tries|
    ensures Untaken(lease, lifetime, tries, i + 1) ==
            Untaken(Untaken(lease, lifetime, tries, 0), lifetime, tries[1..], i)
  {
    if i == 0 {
    } else {
      UntakenShifts(lease, lifetime, tries, i - 1);
    }
  }

  /** An acquire is decided by its first try that is not refused: it takes the key if it gets
      through, and fails, perhaps with the key taken, if it does not. If all are refused the
      answer is no. */
  lemma {:induction false} TryAllExactly(lease: Lease, lifetime: real, token: Token, tries: seq<Try>, n: nat)
    requires n <= |tries| && forall i :: 0 <= i < n ==> Refused(lease, lifetime, tries, i)
    ensures n < |tries| && !Refused(lease, lifetime, tries, n) ==>
              TryAll(lease, lifetime, token, tries) == FirstNotRefused(lease, lifetime, token, tries, n)
    ensures n == |tries| ==>
              var left := if n == 0 then lease else Untaken(lease, lifetime, tries, n - 1);
              TryAll(lease, lifetime, token, tries) == (left, Answer(false))
    decreases n
  {
    if n == 0 {
    } else {
      assert Refused(lease, lifetime, tries, 0);
      var found, rest := Untaken(lease, lifetime, tries, 0), tries[1..];
      forall i | 0 <= i < |rest| ensures Untaken(lease, lifetime, tries, i + 1) == Untaken(found, lifetime, rest, i) {
        UntakenShifts(lease, lifetime, tries, i);
      }
      forall i | 0 <= i < n - 1 ensures Refused(found, lifetime, rest, i) {
        assert Refused(lease, lifetime, tries, i + 1);
      }
      TryAllExactly(found, lifetime, token, rest, n - 1);
    }
  }

  /** After a release that got through nobody is refused: whoever comes next has the key. */
  lemma FreeKeyIsGranted(lifetime: real, token: Token, tries: seq<Try>)
    requires tries != [] && tries[0].others == [] && tries[0].delivery == Delivered
    ensures TryAll(Free, lifetime, token, tries) == (Lease(token, tries[0].now + lifetime), Answer(true))
  {
    TryAllExactly(Free, lifetime, token, tries, 0);
  }

  /** The Redis key; every change to it is one of the three commands of LockTiming. */
  class RedisKey {
    const lifetime: real
    var lease: Lease

    constructor (lifetime: real)
      ensures lease == Free && this.lifetime == lifetime
    {
      this.lifetime := lifetime;
      lease := Free;
    }

    method Run(command: Command, now: real) returns (done: bool)
      modifies this
      ensures lease == Execute(old(lease), now, lifetime, command)
      ensures lease ==
        if !done then old(lease) else if command.Delete? then Free else Lease(command.token, now + lifetime)
      ensures done <==>
        var live := old(lease).Lease? && now < old(lease).expiry;
        if command.SetNx? then !live else live && old(lease).token == command.token
    {
      done := match command
        case SetNx(_) => !IsLive(lease, now)
        case Extend(t) => IsLive(lease, now) && lease.token == t
        case Delete(t) => IsLive(lease, now) && lease.token == t;
      lease := Execute(lease, now, lifetime, command);
    }

    method RunOthers(others: Others)
      modifies this
      ensures lease == Meanwhile(old(lease), lifetime, others)
    {
      for i := 0 to |others|
        invariant lease == Meanwhile(old(lease), lifetime, others[..i])
      {
        var (command, at) := others[i];
        assert others[..i + 1][..i] == others[..i];
        var _ := Run(command, at);
      }
      assert others[..|others|] == others;
    }

    /** The loop of redis-py's acquire. */
    method TryToSet(token: Token, tries: seq<Try>) returns (r: AcquireOutcome)
      modifies this
      ensures (lease, r) == TryAll(old(lease), lifetime, token, tries)
      ensures r != AlreadyAcquired
    {
      var i := 0;
      while i < |tries|
        invariant i <= |tries|
        invariant TryAll(old(lease), lifetime, token, tries) == TryAll(lease, lifetime, token, tries[i..])
      {
        var t := tries[i];
        assert tries[i..][0] == t && tries[i..][1..] == tries[i + 1..];
        RunOthers(t.others);
        var done := false;
        if t.delivery != NotDelivered {
          done := Run(SetNx(token), t.now);
        }
        if t.delivery != Delivered {
          return RedisFailure;
        }
        if done {
          return Answer(true);
        }
        i := i + 1;
      }
      return Answer(false);
    }
  }

  /** A redis-py lock: it remembers the token under which it was acquired. */
  class RedisLock {
    const key: RedisKey
    var token: Option<Token>

    constructor (key: RedisKey)
      ensures this.key == key && token == None
    {
      this.key := key;
      token := None;
    }
  }

  class StopEvent {
    var isSet: bool

    constructor ()
      ensures !isSet
    {
      isSet := false;
    }
  }

  /** The arguments a heartbeat thread was started with. */
  datatype Heartbeat = Heartbeat(lock: RedisLock, stop: StopEvent)

  class DbMigrationAutoRenewLock {
    const key: RedisKey
    var lock: RedisLock?
    var stopEvent: StopEvent?
    var thread: Option<Heartbeat>
    var acquired: bool

    /** The stop events of all heartbeats ever started by this wrapper. */
    ghost var started: set<StopEvent>

    ghost predicate Valid()
      reads this, started
    {
      && (acquired <==> stopEvent != null)
      && (acquired <==> thread.Some?)
      && (acquired ==> lock != null)
      && (acquired ==> thread == Some(Heartbeat(lock, stopEvent)) && stopEvent in started)
      && (lock != null ==> lock.key == key)
      // at most the current heartbeat is still allowed to renew
      && (forall e :: e in started ==> (e.isSet <==> e != stopEvent))
    }

    constructor (key: RedisKey)
      ensures Valid() && !acquired && lock == null && started == {} && this.key == key
    {
      this.key := key;
      lock, stopEvent, thread, acquired := null, null, None, false;
      started := {};
    }

    method StartHeartbeat()
      modifies this`stopEvent, this`thread, this`started
      ensures old(lock) == null || old(stopEvent) != null ==>
        stopEvent == old(stopEvent) && thread == old(thread) && started == old(started)
      ensures old(lock) != null && old(stopEvent) == null ==>
        && stopEvent != null && fresh(stopEvent) && !stopEvent.isSet
        && thread == Some(Heartbeat(lock, stopEvent))
        && started == old(started) + {stopEvent}
    {
      if lock == null {
        return;
      }
      if stopEvent != null {
        return;
      }
      var e := new StopEvent();
      stopEvent := e;
      thread := Some(Heartbeat(lock, e));
      started := started + {e};
    }

    method Acquire(freshToken: Token, tries: seq<Try>) returns (r: AcquireOutcome)
      requires Valid()
      modifies this, lock, key
      ensures Valid() && acquired == (old(acquired) || r == Answer(true))
      ensures old(acquired) <==> r == AlreadyAcquired
      ensures r == AlreadyAcquired ==>
        unchanged(this) && unchanged(key) && key.lease == old(key.lease) && lock.token == old(lock.token)
      ensures !old(acquired) ==> (key.lease, r) == TryAll(old(key.lease), key.lifetime, freshToken, tries)
      ensures r == Answer(true) ==> lock != null && lock.token == Some(freshToken)
      // an existing lock object is reused
      ensures old(lock) != null ==> lock == old(lock)
      ensures r == Answer(true) ==> started == old(started) + {stopEvent} && fresh(stopEvent)
      ensures r != Answer(true) ==> started == old(started)
    {
      if acquired {
        return AlreadyAcquired;
      }
      if lock == null {
        lock := new RedisLock(key);
      }
      r := key.TryToSet(freshToken, tries);
      if r == RedisFailure {
        return;
      }
      acquired := r.acquired;
      if acquired {
        lock.token := Some(freshToken);
        StartHeartbeat();
      }
    }

    method StopHeartbeat()
      modifies this`stopEvent, this`thread, stopEvent
      ensures stopEvent == null
      ensures old(stopEvent) != null ==> old(stopEvent).isSet && thread == None
      ensures old(stopEvent) == null ==> thread == old(thread)
    {
      if stopEvent != null {
        stopEvent.isSet := true;
        stopEvent := null;
        thread := None;
      }
    }

    /** Never fails; whatever Redis does, the wrapper ends up free for another acquire and no
        heartbeat of it may renew. Only a key under this lock's own token is deleted. */
    method ReleaseSafely(now: real, delivery: Delivery)
      requires Valid()
      modifies this, lock, stopEvent, key
      ensures Valid() && !acquired && lock == null && started == old(started)
      ensures forall e :: e in started ==> e.isSet
      // whether or not the reply gets through; an expired key, or another's, is left as it was
      ensures key.lease ==
        if old(lock) != null && delivery != NotDelivered && old(key.lease).Lease? && now < old(key.lease).expiry
           && old(lock.token) == Some(old(key.lease).token)
        then Free else old(key.lease)
      ensures old(lock) != null ==> old(lock).token == None
    {
      var current := lock;
      if current == null {
        return;
      }
      StopHeartbeat();
      if current.token.Some? {
        var token := current.token.value;
        current.token := None;
        if delivery != NotDelivered {
          var _ := key.Run(Delete(token), now);
        }
      }
      acquired := false;
      lock := null;
    }
  }

  /** Before a heartbeat wakes: what others run on the key, whether its stop event is set, whether a
      release withdraws the lock's token, and how its renewal fares, should it come to one. */
  datatype Wakeup = Wakeup(others: Others, stops: bool, withdrawn: bool, now: real, delivery: Delivery)

  /** What a heartbeat works on; it is running until it stops or finds the key lost. */
  datatype Beating = Beating(lease: Lease, token: Option<Token>, stopped: bool, running: bool)

  function BeatOnce(b: Beating, lifetime: real, w: Wakeup): Beating {
    var found := Meanwhile(b.lease, lifetime, w.others);
    var token := if w.withdrawn then None else b.token;
    var stopped := b.stopped || w.stops;
    if !b.running || stopped then Beating(found, token, stopped, false)
    else if token == None || w.delivery == NotDelivered then Beating(found, token, stopped, true)
    else
      var owned := IsLive(found, w.now) && found.token == token.value;
      Beating(Execute(found, w.now, lifetime, Extend(token.value)), token, stopped, owned || w.delivery != Delivered)
  }

  function Beat(b: Beating, lifetime: real, wakeups: seq<Wakeup>): Beating {
    if wakeups == [] then b
    else BeatOnce(Beat(b, lifetime, wakeups[..|wakeups| - 1]), lifetime, wakeups[|wakeups| - 1])
  }

  /** A heartbeat's life. It looks at its stop event on every wakeup and renews only while that is
      unset; it ends when the event is set or when it learns that the key is not its own, and a
      renewal that fails otherwise is tried again on the next wakeup. */
  method HeartbeatLoop(beat: Heartbeat, wakeups: seq<Wakeup>) returns (passes: nat, running: bool)
    modifies beat.lock, beat.lock.key, beat.stop
    ensures passes <= |wakeups| && (running ==> passes == |wakeups|)
    ensures Beating(beat.lock.key.lease, beat.lock.token, beat.stop.isSet, running) ==
            Beat(Beating(old(beat.lock.key.lease), old(beat.lock.token), old(beat.stop.isSet), true),
                 beat.lock.key.lifetime, wakeups[..passes])
  {
    var lock, key, stop := beat.lock, beat.lock.key, beat.stop;
    ghost var start := Beating(key.lease, lock.token, stop.isSet, true);
    passes, running := 0, true;
    while passes < |wakeups|
      invariant passes <= |wakeups| && running
      invariant Beating(key.lease, lock.token, stop.isSet, running) == Beat(start, key.lifetime, wakeups[..passes])
    {
      var w := wakeups[passes];
      assert wakeups[..passes + 1][..passes] == wakeups[..passes];
      key.RunOthers(w.others);
      if w.withdrawn {
        lock.token := None;
      }
      if w.stops {
        stop.isSet := true;
      }
      passes := passes + 1;
      if stop.isSet {
        running := false;
        return;
      }
      if lock.token.Some? && w.delivery != NotDelivered {
        var owned := key.Run(Extend(lock.token.value), w.now);
        if !owned && w.delivery == Delivered {
          running := false;
          return;
        }
      }
    }
  }

  /** What the others alone would have made of the key. */
  function WithoutHeartbeat(lease: Lease, lifetime: real, wakeups: seq<Wakeup>): Lease {
    if wakeups == [] then lease
    else Meanwhile(WithoutHeartbeat(lease, lifetime, wakeups[..|wakeups| - 1]), lifetime, wakeups[|wakeups| - 1].others)
  }

  /** Nobody sets the key under a token that was drawn for somebody else. */
  ghost predicate NeverSets(others: Others, t: Token) {
    forall i :: 0 <= i < |others| ==> others[i].0 != SetNx(t)
  }

  predicate HeldUnder(lease: Lease, t: Token) {
    lease.Lease? && lease.token == t
  }

  lemma {:induction false} MeanwhileNotHeld(lease: Lease, lifetime: real, others: Others, t: Token)
    requires !HeldUnder(lease, t) && NeverSets(others, t)
    ensures !HeldUnder(Meanwhile(lease, lifetime, others), t)
  {
    if others == [] {
    } else {
      var init := others[..|others| - 1];
      assert forall i :: 0 <= i < |init| ==> init[i] == others[i];
      MeanwhileNotHeld(lease, lifetime, init, t);
      assert others[|others| - 1].0 != SetNx(t);
    }
  }

  /** A stale heartbeat changes nothing at all: whatever others do, the key is as if the heartbeat
      were not there, once it is not held under the heartbeat's token. */
  lemma {:induction false} StaleHeartbeatIsHarmless(b: Beating, lifetime: real, wakeups: seq<Wakeup>)
    requires b.token.Some? ==> !HeldUnder(b.lease, b.token.value)
    requires b.token.Some? ==> forall i :: 0 <= i < |wakeups| ==> NeverSets(wakeups[i].others, b.token.value)
    ensures Beat(b, lifetime, wakeups).lease == WithoutHeartbeat(b.lease, lifetime, wakeups)
    ensures Beat(b, lifetime, wakeups).token in {b.token, None}
    ensures b.token.Some? ==> !HeldUnder(Beat(b, lifetime, wakeups).lease, b.token.value)
  {
    if wakeups == [] {
    } else {
      var init, w := wakeups[..|wakeups| - 1], wakeups[|wakeups| - 1];
      assert forall i :: 0 <= i < |init| ==> init[i] == wakeups[i];
      StaleHeartbeatIsHarmless(b, lifetime, init);
      if b.token.Some? {
        assert NeverSets(w.others, b.token.value);
        MeanwhileNotHeld(Beat(b, lifetime, init).lease, lifetime, w.others, b.token.value);
      }
    }
  }

  /** And so does one whose stop event is set, or that has ended. */
  lemma {:induction false} StoppedHeartbeatIsSilent(b: Beating, lifetime: real, wakeups: seq<Wakeup>)
    requires b.stopped || !b.running
    ensures Beat(b, lifetime, wakeups).lease == WithoutHeartbeat(b.lease, lifetime, wakeups)
    ensures Beat(b, lifetime, wakeups).stopped || !Beat(b, lifetime, wakeups).running
  {
    if wakeups == [] {
    } else {
      StoppedHeartbeatIsSilent(b, lifetime, wakeups[..|wakeups| - 1]);
    }
  }

  /** Nobody frees the key under a token that was drawn for somebody else. */
  ghost predicate NeverDeletes(others: Others, t: Token) {
    forall i :: 0 <= i < |others| ==> others[i].0 != Delete(t)
  }

  ghost predicate InTimeOrder(others: Others, since: real, until: real) {
    && since <= until
    && (forall i :: 0 <= i < |others| ==> since <= others[i].1 <= until)
    && (forall i, j :: 0 <= i < j < |others| ==> others[i].1 <= others[j].1)
  }

  /** A holder loses the key to others only when its lease has lapsed. */
  lemma {:induction false} MeanwhileHeld(lease: Lease, lifetime: real, others: Others, t: Token,
                                         since: real, until: real)
    requires HeldUnder(lease, t) && NeverDeletes(others, t) && InTimeOrder(others, since, until)
    requires lease.expiry <= since + lifetime
    ensures var after := Meanwhile(lease, lifetime, others);
            lease.expiry <= until || (HeldUnder(after, t) && lease.expiry <= after.expiry <= until + lifetime)
  {
    if others == [] {
    } else {
      var init, at := others[..|others| - 1], others[|others| - 1].1;
      assert forall i :: 0 <= i < |init| ==> init[i] == others[i];
      MeanwhileHeld(lease, lifetime, init, t, since, at);
      assert others[|others| - 1].0 != Delete(t);
    }
  }

  /** The time of the wakeup before the i-th. */
  function Before(wakeups: seq<Wakeup>, i: nat, start: real): real
    requires i <= |wakeups|
  {
    if i == 0 then start else wakeups[i - 1].now
  }

  /** What happens before the i-th wakeup happens after the one before it, and spares the token. */
  ghost predicate Proper(wakeups: seq<Wakeup>, i: nat, start: real, t: Token)
    requires i < |wakeups|
  {
    NeverDeletes(wakeups[i].others, t) && InTimeOrder(wakeups[i].others, Before(wakeups, i, start), wakeups[i].now)
  }

  /** At its i-th wakeup the heartbeat comes too late for the lease that the one before left. */
  predicate TooLate(b: Beating, lifetime: real, wakeups: seq<Wakeup>, i: nat)
    requires i < |wakeups| && b.lease.Lease?
  {
    var found := Beat(b, lifetime, wakeups[..i]).lease;
    HeldUnder(found, b.lease.token) && found.expiry <= wakeups[i].now
  }

  lemma ProperPrefix(wakeups: seq<Wakeup>, start: real, t: Token)
    requires wakeups != [] && forall i :: 0 <= i < |wakeups| ==> Proper(wakeups, i, start, t)
    ensures var init := wakeups[..|wakeups| - 1]; forall i :: 0 <= i < |init| ==> Proper(init, i, start, t)
  {
    var init := wakeups[..|wakeups| - 1];
    forall i | 0 <= i < |init| ensures Proper(init, i, start, t) {
      assert Proper(wakeups, i, start, t);
    }
  }

  lemma BeatKeepsHolder(b: Beating, lifetime: real, w: Wakeup, since: real, t: Token)
    requires HeldUnder(b.lease, t) && b.lease.expiry <= since + lifetime
    requires NeverDeletes(w.others, t) && InTimeOrder(w.others, since, w.now)
    requires w.others == [] || w.now < b.lease.expiry
    ensures var after := BeatOnce(b, lifetime, w).lease;
            HeldUnder(after, t) && b.lease.expiry <= after.expiry <= w.now + lifetime
  {
    MeanwhileHeld(b.lease, lifetime, w.others, t, since, w.now);
  }

  /** Even a live heartbeat never frees a key or changes its holder, and only ever lengthens its
      lease: whatever the others do, the holder stays until a lease lapses between two wakeups. */
  lemma {:induction false} HeartbeatKeepsHolder(b: Beating, lifetime: real, wakeups: seq<Wakeup>, start: real)
    requires b.lease.Lease? && b.lease.expiry <= start + lifetime
    requires forall i :: 0 <= i < |wakeups| ==> Proper(wakeups, i, start, b.lease.token)
    ensures var after := Beat(b, lifetime, wakeups).lease;
            || (exists i :: 0 <= i < |wakeups| && wakeups[i].others != [] && TooLate(b, lifetime, wakeups, i))
            || (HeldUnder(after, b.lease.token)
                && b.lease.expiry <= after.expiry <= Before(wakeups, |wakeups|, start) + lifetime)
  {
    if wakeups == [] {
    } else {
      var n := |wakeups| - 1;
      var init, w := wakeups[..n], wakeups[n];
      ProperPrefix(wakeups, start, b.lease.token);
      HeartbeatKeepsHolder(b, lifetime, init, start);
      if i :| 0 <= i < n && init[i].others != [] && TooLate(b, lifetime, init, i) {
        assert init[..i] == wakeups[..i];
        assert TooLate(b, lifetime, wakeups, i);
      } else if w.others == [] || !TooLate(b, lifetime, wakeups, n) {
        assert Proper(wakeups, n, start, b.lease.token);
        BeatKeepsHolder(Beat(b, lifetime, init), lifetime, w, Before(wakeups, n, start), b.lease.token);
      }
    }
  }

  /** The i-th renewal is sent, arrives, and comes while the lease before it is live. */
  predicate InTime(wakeups: seq<Wakeup>, i: nat, lifetime: real, expiry: real)
    requires i < |wakeups|
  {
    && !wakeups[i].stops && !wakeups[i].withdrawn && wakeups[i].delivery != NotDelivered
    && wakeups[i].now < if i == 0 then expiry else wakeups[i - 1].now + lifetime
  }

  /** A heartbeat whose renewals arrive in time holds the key against everybody. */
  lemma {:induction false} TimelyHeartbeatHolds(b: Beating, lifetime: real, wakeups: seq<Wakeup>, start: real)
    requires b.running && !b.stopped && b.lease.Lease? && b.token == Some(b.lease.token)
    requires b.lease.expiry <= start + lifetime
    requires forall i :: 0 <= i < |wakeups| ==>
               Proper(wakeups, i, start, b.lease.token) && InTime(wakeups, i, lifetime, b.lease.expiry)
    ensures var expiry := if wakeups == [] then b.lease.expiry else wakeups[|wakeups| - 1].now + lifetime;
            Beat(b, lifetime, wakeups) == b.(lease := Lease(b.lease.token, expiry))
  {
    if wakeups == [] {
    } else {
      var n := |wakeups| - 1;
      var init, w := wakeups[..n], wakeups[n];
      ProperPrefix(wakeups, start, b.lease.token);
      forall i | 0 <= i < n ensures InTime(init, i, lifetime, b.lease.expiry) {
        assert InTime(wakeups, i, lifetime, b.lease.expiry);
      }
      TimelyHeartbeatHolds(b, lifetime, init, start);
      assert Proper(wakeups, n, start, b.lease.token) && InTime(wakeups, n, lifetime, b.lease.expiry);
      MeanwhileHeld(Beat(b, lifetime, init).lease, lifetime, w.others, b.lease.token,
                    Before(wakeups, n, start), w.now);
    }
  }

  /** A wakeup at which the heartbeat is told that the key is not its own. */
  predicate LearnsLoss(before: Beating, lifetime: real, w: Wakeup) {
    var found := Meanwhile(before.lease, lifetime, w.others);
    && before.token.Some? && !w.withdrawn && w.delivery == Delivered
    && !(found.Lease? && w.now < found.expiry && found.token == before.token.value)
  }

  /** Its i-th wakeup does not end it. */
  predicate GoesOn(b: Beating, lifetime: real, wakeups: seq<Wakeup>, i: nat)
    requires i < |wakeups|
  {
    !wakeups[i].stops && !LearnsLoss(Beat(b, lifetime, wakeups[..i]), lifetime, wakeups[i])
  }

  lemma BeatEnds(b: Beating, lifetime: real, w: Wakeup)
    requires b.running ==> !b.stopped
    ensures var after := BeatOnce(b, lifetime, w);
            && (after.running ==> !after.stopped)
            && (after.running <==> b.running && !w.stops && !LearnsLoss(b, lifetime, w))
  {
  }

  /** A heartbeat goes on, whatever fails, until its event is set or it learns of the loss. */
  lemma {:induction false} HeartbeatEndsExactly(b: Beating, lifetime: real, wakeups: seq<Wakeup>)
    requires b.running && !b.stopped
    ensures var after := Beat(b, lifetime, wakeups);
            && (after.running ==> !after.stopped)
            && (after.running <==>
                  forall i :: 0 <= i < |wakeups| ==> GoesOn(b, lifetime, wakeups, i))
  {
    if wakeups == [] {
    } else {
      var n := |wakeups| - 1;
      var init := wakeups[..n];
      HeartbeatEndsExactly(b, lifetime, init);
      forall i | 0 <= i < n
        ensures GoesOn(b, lifetime, init, i) <==> GoesOn(b, lifetime, wakeups, i)
      {
        assert init[..i] == wakeups[..i];
      }
      assert (forall i :: 0 <= i < n ==> GoesOn(b, lifetime, init, i)) <==>
             (forall i :: 0 <= i < n ==> GoesOn(b, lifetime, wakeups, i));
      BeatEnds(Beat(b, lifetime, init), lifetime, wakeups[n]);
      assert GoesOn(b, lifetime, wakeups, n) <==>
             !wakeups[n].stops && !LearnsLoss(Beat(b, lifetime, init), lifetime, wakeups[n]);
    }
  }

  /** It never touches the token of its lock, which only a release withdraws. */
  lemma {:induction false} HeartbeatKeepsToken(b: Beating, lifetime: real, wakeups: seq<Wakeup>)
    ensures Beat(b, lifetime, wakeups).token ==
            if exists i :: 0 <= i < |wakeups| && wakeups[i].withdrawn then None else b.token
  {
    if wakeups == [] {
    } else {
      var n := |wakeups| - 1;
      HeartbeatKeepsToken(b, lifetime, wakeups[..n]);
      if i :| 0 <= i < n && wakeups[..n][i].withdrawn {
        assert wakeups[i].withdrawn;
      }
      if i :| 0 <= i < n && wakeups[i].withdrawn {
        assert wakeups[..n][i].withdrawn;
      }
    }
  }
}
