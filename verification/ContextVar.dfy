/** RecyclableContextVar: variables whose values die when a worker thread is recycled for the
    next request. All variables share one counter of recyclings. */
module ContextVar {
  import opened Wrappers

  /** What happens in one thread, in order. */
  datatype Event<T> = Increment | Get(name: nat) | Set(name: nat, value: T)

  /** The context variable itself and its hidden _updates companion. */
  datatype Var<T> = Var(value: Option<T>, updates: nat)

  datatype World<T> = World(recycles: Option<nat>, vars: map<nat, Var<T>>)

  /** _thread_recycles.get(0) */
  function Count(recycles: Option<nat>): nat {
    if recycles.Some? then recycles.value else 0
  }

  function Incremented(recycles: Option<nat>): Option<nat> {
    if recycles.Some? then Some(recycles.value + 1) else Some(0)
  }

  function VarOf<T>(w: World<T>, name: nat): Var<T> {
    if name in w.vars then w.vars[name] else Var(None, 0)
  }

  function CaughtUp<T>(v: Var<T>, count: nat): Var<T> {
    if count > v.updates then v.(updates := count) else v
  }

  function Written<T>(v: Var<T>, count: nat, value: T): Var<T> {
    var u := CaughtUp(v, count).updates;
    Var(Some(value), if u == count then u + 1 else u)
  }

  /** What get answers: None stands for LookupError, and for a default that was not given. */
  function Read<T>(v: Var<T>, count: nat, default: Option<T>): Option<T> {
    if count < v.updates then v.value else default
  }

  function Step<T>(w: World<T>, e: Event<T>): World<T> {
    match e
    case Increment => w.(recycles := Incremented(w.recycles))
    case Get(x) => w.(vars := w.vars[x := CaughtUp(VarOf(w, x), Count(w.recycles))])
    case Set(x, value) => w.(vars := w.vars[x := Written(VarOf(w, x), Count(w.recycles), value)])
  }

  function Run<T>(events: seq<Event<T>>): World<T> {
    if events == [] then World(None, map[])
    else Step(Run(events[..|events| - 1]), events[|events| - 1])
  }

  // --- What should be read, from the history alone ---------------------------

  function Increments<T>(events: seq<Event<T>>): nat {
    if events == [] then 0
    else
      var n := Increments(events[..|events| - 1]);
      if events[|events| - 1].Increment? then n + 1 else n
  }

  /** The last value x was ever set to. */
  function LastSet<T>(events: seq<Event<T>>, x: nat): Option<T> {
    if events == [] then None
    else
      var e := events[|events| - 1];
      if e.Set? && e.name == x then Some(e.value) else LastSet(events[..|events| - 1], x)
  }

  /** The last value x was set to since the latest increment. */
  function SetSinceIncrement<T>(events: seq<Event<T>>, x: nat): Option<T> {
    if events == [] then None
    else
      var e := events[|events| - 1];
      if e.Increment? then None
      else if e.Set? && e.name == x then Some(e.value)
      else SetSinceIncrement(events[..|events| - 1], x)
  }

  /** The value that is live: the very first increment does not end a generation. */
  function Live<T>(events: seq<Event<T>>, x: nat): Option<T> {
    if Increments(events) <= 1 then LastSet(events, x) else SetSinceIncrement(events, x)
  }

  lemma {:induction false} SinceIsLast<T>(events: seq<Event<T>>, x: nat)
    ensures SetSinceIncrement(events, x).Some? ==> LastSet(events, x) == SetSinceIncrement(events, x)
    ensures Increments(events) == 0 ==> LastSet(events, x) == SetSinceIncrement(events, x)
  {
    if events == [] {
    } else {
      SinceIsLast(events[..|events| - 1], x);
    }
  }

  /** The invariant of every run and every variable: updates is at most one ahead of the
      counter, and it is ahead exactly while a value is live, which then is the stored one. */
  lemma {:induction false} UpdatesTrackGenerations<T>(events: seq<Event<T>>, x: nat)
    ensures
      var w := Run(events);
      var v := VarOf(w, x);
      && w.recycles == (if Increments(events) == 0 then None else Some(Increments(events) - 1))
      && v.updates <= Count(w.recycles) + 1
      && (v.updates == Count(w.recycles) + 1 <==> Live(events, x).Some?)
      && (Live(events, x).Some? ==> v.value == Live(events, x))
  {
    if events == [] {
    } else {
      UpdatesTrackGenerations(events[..|events| - 1], x);
      SinceIsLast(events[..|events| - 1], x);
    }
  }

  /** In every run get answers the live value, and the default when there is none. */
  lemma ReadIsLive<T>(events: seq<Event<T>>, x: nat, default: Option<T>)
    ensures Read(VarOf(Run(events), x), Count(Run(events).recycles), default)
         == if Live(events, x).Some? then Live(events, x) else default
  {
    UpdatesTrackGenerations(events, x);
  }

  lemma {:induction false} StartsWithIncrement<T>(events: seq<Event<T>>, x: nat)
    requires events != [] && events[0].Increment?
    ensures Increments(events) >= 1
    ensures Increments(events) == 1 ==> LastSet(events, x) == SetSinceIncrement(events, x)
  {
    var init := events[..|events| - 1];
    if init == [] {
    } else {
      StartsWithIncrement(init, x);
    }
  }

  /** What the class promises: in a run that begins with an increment, get answers the last
      value set since the latest increment and otherwise the default. */
  lemma ReadsThisGeneration<T>(events: seq<Event<T>>, x: nat, default: Option<T>)
    requires events != [] && events[0].Increment?
    ensures Read(VarOf(Run(events), x), Count(Run(events).recycles), default)
         == if SetSinceIncrement(events, x).Some? then SetSinceIncrement(events, x) else default
  {
    ReadIsLive(events, x, default);
    StartsWithIncrement(events, x);
  }

  /** In any run at all: a value of an earlier generation is read exactly when the only
      increment so far came after the value and nothing has replaced it since. */
  lemma LeaksExactlyAcrossFirstIncrement<T>(events: seq<Event<T>>, x: nat)
    ensures Read(VarOf(Run(events), x), Count(Run(events).recycles), None) != SetSinceIncrement(events, x)
       <==> Increments(events) == 1 && LastSet(events, x).Some? && SetSinceIncrement(events, x).None?
  {
    ReadIsLive(events, x, None);
    SinceIsLast(events, x);
  }

  predicate Unused<T>(events: seq<Event<T>>, x: nat) {
    forall i :: 0 <= i < |events| ==> events[i].Increment? || events[i].name != x
  }

  // --- The class ------------------------------------------------------------

  lemma {:induction false} Untouched<T>(events: seq<Event<T>>, x: nat)
    requires Unused(events, x)
    ensures VarOf(Run(events), x) == Var(None, 0)
  {
    if events == [] {
    } else {
      Untouched(events[..|events| - 1], x);
    }
  }

  lemma RunAppends<T>(events: seq<Event<T>>, e: Event<T>)
    ensures Run(events + [e]) == Step(Run(events), e)
  {
    assert (events + [e])[..|events|] == events;
  }

  /** An event of another variable, or an increment, leaves this one's fields as they are. */
  lemma OthersKeep<T>(events: seq<Event<T>>, e: Event<T>, x: nat)
    requires e.Increment? || e.name != x
    ensures VarOf(Run(events + [e]), x) == VarOf(Run(events), x)
  {
    RunAppends(events, e);
  }

  /** A read never leaves the companion behind the counter. */
  lemma GetCatchesUp<T>(events: seq<Event<T>>, x: nat)
    ensures var w := Run(events + [Get(x)]);
            && VarOf(w, x).updates >= Count(w.recycles)
            && VarOf(w, x).updates >= VarOf(Run(events), x).updates
            && VarOf(w, x).value == VarOf(Run(events), x).value
  {
    RunAppends(events, Get(x));
  }

  /** The class attribute shared by all variables, with the history as a ghost. */
  class ThreadRecycles<T(!new)> {
    var recycles: Option<nat>
    ghost var log: seq<Event<T>>

    ghost predicate Valid()
      reads this
    {
      recycles == Run(log).recycles
    }

    constructor ()
      ensures Valid() && log == [] && recycles == None
    {
      recycles, log := None, [];
    }

    /** vars are the variables that share the counter; all of them stay what the history makes
        of them, though none is touched. */
    method IncrementThreadRecycles(ghost vars: set<RecyclableContextVar<T>>)
      requires Valid() && forall v :: v in vars ==> v.shared == this && v.Valid()
      modifies this
      ensures Valid() && log == old(log) + [Increment]
      ensures forall v :: v in vars ==> v.Valid()
    {
      log := log + [Increment];
      RunAppends(old(log), Increment);
      forall v | v in vars ensures VarOf(Run(log), v.name) == VarOf(Run(old(log)), v.name) {
        OthersKeep(old(log), Increment, v.name);
      }
      if recycles.Some? {
        recycles := Some(recycles.value + 1);
      } else {
        recycles := Some(0);
      }
    }
  }

  class RecyclableContextVar<T(!new)> {
    const name: nat
    const shared: ThreadRecycles<T>
    var value: Option<T>
    var updates: nat

    /** The fields are what the shared history makes of this variable. */
    ghost predicate Valid()
      reads this, shared
    {
      shared.Valid() && Var(value, updates) == VarOf(Run(shared.log), name)
    }

    /** Variables of other names that share the counter, each as the history makes it. */
    ghost predicate AreOthers(others: set<RecyclableContextVar<T>>)
      reads shared, others
    {
      forall v :: v in others ==> v.shared == shared && v.name != name && v.Valid()
    }

    constructor (name: nat, shared: ThreadRecycles<T>)
      requires shared.Valid() && Unused(shared.log, name)
      ensures Valid() && this.name == name && this.shared == shared
    {
      this.name, this.shared, value, updates := name, shared, None, 0;
      Untouched(shared.log, name);
    }

    /** None stands for LookupError and for a default that was not given. */
    method Get(default: Option<T>, ghost others: set<RecyclableContextVar<T>>) returns (r: Option<T>)
      requires Valid() && AreOthers(others)
      modifies this, shared`log
      ensures AreOthers(others)
      ensures Valid() && shared.log == old(shared.log) + [Event.Get(name)]
      ensures r == if Live(old(shared.log), name).Some? then Live(old(shared.log), name) else default
    {
      ReadIsLive(shared.log, name, default);
      var threadRecycles := if shared.recycles.Some? then shared.recycles.value else 0;
      var selfUpdates := updates;
      shared.log := shared.log + [Event.Get(name)];
      RunAppends(old(shared.log), Event.Get(name));
      forall v | v in others ensures VarOf(Run(shared.log), v.name) == VarOf(Run(old(shared.log)), v.name) {
        OthersKeep(old(shared.log), Event.Get(name), v.name);
      }
      if threadRecycles > selfUpdates {
        updates := threadRecycles;
      }
      if threadRecycles < selfUpdates {
        r := value;
      } else {
        r := default;
      }
    }

    method Set(newValue: T, ghost others: set<RecyclableContextVar<T>>)
      requires Valid() && AreOthers(others)
      modifies this, shared`log
      ensures AreOthers(others)
      ensures Valid() && shared.log == old(shared.log) + [Event.Set(name, newValue)]
    {
      var threadRecycles := if shared.recycles.Some? then shared.recycles.value else 0;
      shared.log := shared.log + [Event.Set(name, newValue)];
      RunAppends(old(shared.log), Event.Set(name, newValue));
      forall v | v in others ensures VarOf(Run(shared.log), v.name) == VarOf(Run(old(shared.log)), v.name) {
        OthersKeep(old(shared.log), Event.Set(name, newValue), v.name);
      }
      if threadRecycles > updates {
        updates := threadRecycles;
      }
      if updates == threadRecycles {
        updates := updates + 1;
      }
      value := Some(newValue);
    }
  }
}
