/**
 The concurrency permit of the call executor: unboundedly many threads that are called with
 a bound, load a counter, try a weak compare-exchange, and release, in any interleaving.
 */
module Permit {
  import opened Threads
  import opened Widths

  /**
   A thread that is not in the map is idle. `limit` is the bound the thread was called with;
   it is read before the counter is.
   */
  datatype Phase = Called(limit: nat) | Loaded(current: nat, limit: nat) | Holding

  datatype State = State(counter: nat, workerThreads: nat, threads: map<Thread, Phase>)

  /** `Exchange` may fail although the counter is the loaded one: the exchange is weak. */
  datatype Event =
    | Call(t: Thread)
    | Load(t: Thread)
    | GiveUp(t: Thread)
    | Exchange(t: Thread, spurious: bool)
    | Release(t: Thread)
    | Init(workerThreads: nat)

  /** Inside the acquire call, before or after the first load. */
  predicate Inside(s: State, t: Thread) {
    t in s.threads && !s.threads[t].Holding?
  }

  predicate LoadedAt(s: State, t: Thread) {
    t in s.threads && s.threads[t].Loaded?
  }

  predicate Holds(s: State, t: Thread) {
    t in s.threads && s.threads[t].Holding?
  }

  function Holders(s: State): set<Thread> {
    set t | t in s.threads && s.threads[t].Holding?
  }

  /** An event a thread is not ready for changes nothing. */
  function Step(s: State, e: Event): State {
    match e
    case Call(t) =>
      if t in s.threads then s else s.(threads := s.threads[t := Called(s.workerThreads)])
    case Load(t) =>
      if t in s.threads && s.threads[t].Called? then
        s.(threads := s.threads[t := Loaded(s.counter, s.threads[t].limit)])
      else s
    case GiveUp(t) =>
      if LoadedAt(s, t) && s.threads[t].current >= s.threads[t].limit then s.(threads := s.threads - {t}) else s
    case Exchange(t, spurious) =>
      if !LoadedAt(s, t) || s.threads[t].current >= s.threads[t].limit then s
      else if s.counter == s.threads[t].current && !spurious then
        s.(counter := (s.counter + 1) % TWO32, threads := s.threads[t := Holding])
      else s.(threads := s.threads[t := Loaded(s.counter, s.threads[t].limit)])
    case Release(t) =>
      if Holds(s, t) then s.(counter := (s.counter + TWO32 - 1) % TWO32, threads := s.threads - {t}) else s
    case Init(n) => s.(counter := 0, workerThreads := n)
  }

  function Run(s: State, events: seq<Event>): State
    decreases |events|
  {
    if events == [] then s else Run(Step(s, events[0]), events[1..])
  }

  /** Bounds are 32-bit numbers. */
  ghost predicate Typed(s: State) {
    s.workerThreads < TWO32
    && forall t :: Inside(s, t) ==> s.threads[t].limit < TWO32
  }

  predicate TypedEvent(e: Event) {
    e.Init? ==> e.workerThreads < TWO32
  }

  ghost predicate Counts(s: State) {
    s.counter == |Holders(s)| < TWO32
  }

  lemma HoldersPut(s: State, t: Thread, p: Phase)
    ensures var s' := s.(threads := s.threads[t := p]);
            Holders(s') == (if p.Holding? then Holders(s) + {t} else Holders(s) - {t})
  {
  }

  lemma HoldersRemove(s: State, t: Thread)
    ensures Holders(s.(threads := s.threads - {t})) == Holders(s) - {t}
  {
  }

  lemma StepTyped(s: State, e: Event)
    requires Typed(s) && TypedEvent(e)
    ensures Typed(Step(s, e))
  {
  }

  lemma ExchangeCounts(s: State, t: Thread, spurious: bool)
    requires Typed(s) && Counts(s)
    ensures Counts(Step(s, Exchange(t, spurious)))
  {
    if LoadedAt(s, t) {
      var l := s.threads[t].limit;
      assert Inside(s, t);
      assert l < TWO32 && t !in Holders(s);
      if s.threads[t].current < l {
        if s.counter == s.threads[t].current && !spurious {
          HoldersPut(s, t, Holding);
        } else {
          HoldersPut(s, t, Loaded(s.counter, l));
        }
      }
    }
  }

  lemma ReleaseCounts(s: State, t: Thread)
    requires Counts(s)
    ensures Counts(Step(s, Release(t)))
  {
    if Holds(s, t) {
      assert t in Holders(s);
      HoldersRemove(s, t);
    }
  }

  lemma EnterCounts(s: State, e: Event)
    requires Counts(s) && (e.Call? || e.Load? || e.GiveUp?)
    ensures Counts(Step(s, e))
  {
    assert Holders(Step(s, e)) == Holders(s);
  }

  /** Every step keeps the counter equal to the number of live permits, unless it is an init with a permit live. */
  lemma StepCounts(s: State, e: Event)
    requires Typed(s) && Counts(s) && TypedEvent(e)
    ensures Counts(Step(s, e)) <==> (e.Init? ==> Holders(s) == {})
  {
    match e
    case Call(t) => EnterCounts(s, e);
    case Load(t) => EnterCounts(s, e);
    case GiveUp(t) => EnterCounts(s, e);
    case Exchange(t, spurious) => ExchangeCounts(s, t, spurious);
    case Release(t) => ReleaseCounts(s, t);
    case Init(n) => assert Holders(Step(s, e)) == Holders(s);
  }

  /** No init happens while a permit is live. */
  ghost predicate Proper(s: State, events: seq<Event>)
    decreases |events|
  {
    events == [] ||
    (TypedEvent(events[0]) && (events[0].Init? ==> Holders(s) == {}) && Proper(Step(s, events[0]), events[1..]))
  }

  /** In every interleaving the counter is the number of live permits. */
  lemma {:induction false} CounterIsPermits(s: State, events: seq<Event>)
    requires Typed(s) && Counts(s) && Proper(s, events)
    ensures Typed(Run(s, events)) && Counts(Run(s, events))
    decreases |events|
  {
    if events != [] {
      StepTyped(s, events[0]);
      StepCounts(s, events[0]);
      CounterIsPermits(Step(s, events[0]), events[1..]);
    }
  }

  /** So a release never meets a counter at zero, and the counter never wraps around. */
  lemma ReleaseMeetsPermit(s: State, events: seq<Event>, t: Thread)
    requires Typed(s) && Counts(s) && Proper(s, events)
    requires Holds(Run(s, events), t)
    ensures var end := Run(s, events);
            end.counter > 0 && Step(end, Release(t)).counter == end.counter - 1
  {
    CounterIsPermits(s, events);
    assert t in Holders(Run(s, events));
  }

  // ----- The bound -----

  /** A thread inside the acquire call that was called with a larger bound than the present one. */
  predicate StaleThread(s: State, t: Thread) {
    Inside(s, t) && s.threads[t].limit > s.workerThreads
  }

  /** A stale thread that has yet to load, or still sees room under its own bound. */
  predicate Overdue(s: State, t: Thread) {
    StaleThread(s, t) && (s.threads[t].Called? || s.threads[t].current < s.threads[t].limit)
  }

  ghost predicate NoneOverdue(s: State) {
    forall t :: !Overdue(s, t)
  }

  ghost predicate Bounded(s: State) {
    s.counter <= s.workerThreads && NoneOverdue(s)
  }

  /** What an init must find for the bound to hold: no permit, and no thread that would go over the new bound. */
  ghost predicate QuietInit(s: State, e: Event) {
    e.Init? ==> Holders(s) == {} && NoneOverdue(s.(workerThreads := e.workerThreads))
  }

  lemma StepBounded(s: State, e: Event)
    requires Typed(s) && Counts(s) && Bounded(s) && QuietInit(s, e)
    ensures Bounded(Step(s, e))
  {
    if e.Release? && Holds(s, e.t) {
      assert e.t in Holders(s);
    }
    if e.Exchange? {
      assert !Overdue(s, e.t);
    }
    forall t ensures !Overdue(Step(s, e), t) {
      assert !Overdue(s, t);
      if e.Init? {
        assert !Overdue(s.(workerThreads := e.workerThreads), t);
      }
    }
  }

  ghost predicate Quiet(s: State, events: seq<Event>)
    decreases |events|
  {
    events == [] ||
    (TypedEvent(events[0]) && QuietInit(s, events[0]) && Quiet(Step(s, events[0]), events[1..]))
  }

  /** In every interleaving with quiet inits, at most `worker_threads` permits are live. */
  lemma {:induction false} PermitsBounded(s: State, events: seq<Event>)
    requires Typed(s) && Counts(s) && Bounded(s) && Quiet(s, events)
    ensures Bounded(Run(s, events)) && |Holders(Run(s, events))| <= Run(s, events).workerThreads
    decreases |events|
  {
    if events != [] {
      StepTyped(s, events[0]);
      StepCounts(s, events[0]);
      StepBounded(s, events[0]);
      PermitsBounded(Step(s, events[0]), events[1..]);
    }
  }

  // ----- The bound is lost exactly when a stale thread is inside -----

  ghost predicate NoInit(events: seq<Event>) {
    forall i :: 0 <= i < |events| ==> !events[i].Init?
  }

  lemma {:induction false} RunAppend(s: State, a: seq<Event>, b: seq<Event>)
    ensures Run(s, a + b) == Run(Run(s, a), b)
    decreases |a|
  {
    if a == [] {
      assert a + b == b;
    } else {
      assert (a + b)[0] == a[0] && (a + b)[1..] == a[1..] + b;
      RunAppend(Step(s, a[0]), a[1..], b);
    }
  }

  function Acquire(t: Thread): seq<Event> {
    [Call(t), Load(t), Exchange(t, false)]
  }

  lemma RunOne(s: State, e: Event, events: seq<Event>)
    ensures Run(s, [e] + events) == Run(Step(s, e), events)
  {
    assert ([e] + events)[1..] == events;
  }

  lemma AcquireWorks(s: State, t: Thread)
    requires t !in s.threads && s.counter < s.workerThreads < TWO32
    ensures Run(s, Acquire(t)) == s.(counter := s.counter + 1, threads := s.threads[t := Holding])
  {
    var call, load, take := Call(t), Load(t), Exchange(t, false);
    var s1 := Step(s, call);
    var s2 := Step(s1, load);
    RunOne(s, call, [load, take]);
    RunOne(s1, load, [take]);
    RunOne(s2, take, []);
    assert [call] + [load, take] == Acquire(t) && [load] + [take] == [load, take] && [take] + [] == [take];
    assert s2.threads == s.threads[t := Loaded(s.counter, s.workerThreads)];
    assert s2.threads[t := Holding] == s.threads[t := Holding];
  }

  /** Fresh threads can take every free permit, leaving the others where they are. */
  lemma {:induction false} FillUp(s: State, t: Thread) returns (events: seq<Event>)
    requires StaleThread(s, t) && s.counter <= s.workerThreads < TWO32
    ensures NoInit(events)
    ensures var end := Run(s, events);
            end.counter == end.workerThreads == s.workerThreads && t in end.threads && end.threads[t] == s.threads[t]
    decreases s.workerThreads - s.counter
  {
    if s.counter == s.workerThreads {
      events := [];
    } else {
      var u := Fresh(s.threads.Keys);
      AcquireWorks(s, u);
      var s1 := Run(s, Acquire(u));
      var more := FillUp(s1, t);
      events := Acquire(u) + more;
      RunAppend(s, Acquire(u), more);
    }
  }

  /** From a full counter, an overdue thread loads it, finds room under its own bound, and goes over. */
  lemma OneOver(s: State, t: Thread) returns (events: seq<Event>)
    requires Typed(s) && Overdue(s, t) && s.counter == s.workerThreads
    ensures NoInit(events) && Run(s, events).counter > Run(s, events).workerThreads
  {
    var look := if s.threads[t].Called? then Load(t) else Exchange(t, true);
    var take := Exchange(t, false);
    var s1 := Step(s, look);
    events := [look, take];
    RunOne(s, look, [take]);
    RunOne(s1, take, []);
    assert [look] + [take] == events && [take] + [] == [take];
    assert Inside(s, t);
    assert Step(s1, take).counter == s.counter + 1;
  }

  lemma {:induction false} NoInitIsQuiet(s: State, events: seq<Event>)
    requires NoInit(events)
    ensures Quiet(s, events) && Run(s, events).workerThreads == s.workerThreads
    decreases |events|
  {
    if events != [] {
      NoInitIsQuiet(Step(s, events[0]), events[1..]);
    }
  }

  /**
   From any state within the bound, the bound holds in every interleaving up to the next
   init exactly when no thread that was called with a larger bound is before its first load,
   or inside the loop and still sees room under that bound.
   */
  lemma BoundExactly(s: State)
    requires Typed(s) && Counts(s) && s.counter <= s.workerThreads
    ensures (forall events :: NoInit(events) ==> Run(s, events).counter <= s.workerThreads) <==> NoneOverdue(s)
  {
    if t :| Overdue(s, t) {
      var fill := FillUp(s, t);
      var full := Run(s, fill);
      StepsTyped(s, fill);
      var over := OneOver(full, t);
      RunAppend(s, fill, over);
      NoInitIsQuiet(s, fill + over);
      assert NoInit(fill + over) && Run(s, fill + over).counter > s.workerThreads;
    } else {
      forall events | NoInit(events) ensures Run(s, events).counter <= s.workerThreads {
        NoInitIsQuiet(s, events);
        PermitsBounded(s, events);
      }
    }
  }

  lemma {:induction false} StepsTyped(s: State, events: seq<Event>)
    requires Typed(s) && NoInit(events)
    ensures Typed(Run(s, events))
    decreases |events|
  {
    if events != [] {
      StepTyped(s, events[0]);
      StepsTyped(Step(s, events[0]), events[1..]);
    }
  }

  /** The failing case of the bound: an init that lowers it between a thread's call and its load. */
  lemma LoweredBound(t: Thread, u: Thread)
    requires t != u
    ensures var called := Step(State(0, 2, map[]), Call(t));
            var lowered := Step(called, Init(1));
            Holders(called) == {} && lowered.workerThreads == 1
            && Run(lowered, Acquire(u) + [Load(t), Exchange(t, false)]).counter == 2
  {
    var lowered := Step(Step(State(0, 2, map[]), Call(t)), Init(1));
    AcquireWorks(lowered, u);
    var full := Run(lowered, Acquire(u));
    RunAppend(lowered, Acquire(u), [Load(t), Exchange(t, false)]);
    RunOne(full, Load(t), [Exchange(t, false)]);
    RunOne(Step(full, Load(t)), Exchange(t, false), []);
    assert [Load(t)] + [Exchange(t, false)] == [Load(t), Exchange(t, false)];
    assert [Exchange(t, false)] + [] == [Exchange(t, false)];
  }

  /** An init that finds a permit live lets the counter wrap around when that permit is released. */
  lemma ImproperInit(n: nat, t: Thread)
    requires 0 < n < TWO32
    ensures var s := Run(State(0, n, map[]), Acquire(t));
            Counts(s) && Run(s, [Init(n), Release(t)]).counter == TWO32 - 1
  {
    var start := State(0, n, map[]);
    AcquireWorks(start, t);
    var s := Run(start, Acquire(t));
    assert Holders(s) == {t};
    RunOne(s, Init(n), [Release(t)]);
    RunOne(Step(s, Init(n)), Release(t), []);
    assert [Init(n)] + [Release(t)] == [Init(n), Release(t)] && [Release(t)] + [] == [Release(t)];
  }
}
