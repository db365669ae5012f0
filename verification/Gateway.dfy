/** The access gateway: init, submit and shutdown as interleaved atomic steps of any number of threads. */
module Gateway {
  import opened Threads

  datatype Status = Uninitialized | Initializing | Ready | Draining | ShutDown

  /** A submitter has read Ready and not yet built its guard, or holds its guard. */
  datatype Submitting = SawReady | Guarded

  /** A shutdown thread is about to store Draining, or waits for the drain. */
  datatype Stopping = MustStore | Waiting

  /** `configured` says whether the gateway was built with a submit pipeline. */
  datatype State = State(
    configured: bool,
    status: Status,
    inflight: nat,
    submitters: map<Thread, Submitting>,
    initializers: set<Thread>,
    stoppers: map<Thread, Stopping>
  )

  datatype Event =
    | InitExchange(t: Thread)
    | InitStore(t: Thread)
    | ReadStatus(t: Thread)
    | BuildGuard(t: Thread)
    | DropGuard(t: Thread)
    | ShutdownRead(t: Thread)
    | ShutdownStore(t: Thread)
    | ShutdownFinish(t: Thread)

  predicate Holds(s: State, t: Thread) {
    t in s.submitters && s.submitters[t].Guarded?
  }

  function Guards(s: State): set<Thread> {
    set t | t in s.submitters && s.submitters[t].Guarded?
  }

  /** An event a thread is not ready for changes nothing. */
  function Step(s: State, e: Event): State {
    match e
    case InitExchange(t) =>
      if s.status.Uninitialized? then s.(status := Initializing, initializers := s.initializers + {t}) else s
    case InitStore(t) =>
      if t !in s.initializers then s
      else s.(status := if s.configured then Ready else Uninitialized, initializers := s.initializers - {t})
    case ReadStatus(t) =>
      if t in s.submitters || !s.status.Ready? then s else s.(submitters := s.submitters[t := SawReady])
    case BuildGuard(t) =>
      if t in s.submitters && s.submitters[t].SawReady? then
        s.(inflight := s.inflight + 1, submitters := s.submitters[t := Guarded])
      else s
    case DropGuard(t) =>
      if Holds(s, t) then
        s.(inflight := if s.inflight > 0 then s.inflight - 1 else 0, submitters := s.submitters - {t})
      else s
    case ShutdownRead(t) =>
      if t in s.stoppers || s.status.ShutDown? then s else s.(stoppers := s.stoppers[t := MustStore])
    case ShutdownStore(t) =>
      if t in s.stoppers && s.stoppers[t].MustStore? then s.(status := Draining, stoppers := s.stoppers[t := Waiting])
      else s
    case ShutdownFinish(t) =>
      if t in s.stoppers && s.stoppers[t].Waiting? then s.(status := ShutDown, stoppers := s.stoppers - {t}) else s
  }

  function Run(s: State, events: seq<Event>): State
    decreases |events|
  {
    if events == [] then s else Run(Step(s, events[0]), events[1..])
  }

  ghost predicate Counts(s: State) {
    s.inflight == |Guards(s)|
  }

  lemma BuildCounts(s: State, t: Thread)
    requires Counts(s)
    ensures Counts(Step(s, BuildGuard(t)))
  {
    var s' := Step(s, BuildGuard(t));
    if s' != s {
      assert Guards(s') == Guards(s) + {t} && t !in Guards(s);
    }
  }

  lemma DropCounts(s: State, t: Thread)
    requires Counts(s)
    ensures Counts(Step(s, DropGuard(t)))
  {
    if Holds(s, t) {
      assert Guards(Step(s, DropGuard(t))) == Guards(s) - {t} && t in Guards(s);
    }
  }

  lemma OthersCount(s: State, e: Event)
    requires Counts(s) && !e.BuildGuard? && !e.DropGuard?
    ensures Counts(Step(s, e))
  {
    assert Guards(Step(s, e)) == Guards(s);
  }

  lemma StepCounts(s: State, e: Event)
    requires Counts(s)
    ensures Counts(Step(s, e))
  {
    match e
    case BuildGuard(t) => BuildCounts(s, t);
    case DropGuard(t) => DropCounts(s, t);
    case _ => OthersCount(s, e);
  }

  /** In every interleaving, of any number of inits, submits and shutdowns, the counter is the number of live guards. */
  lemma {:induction false} CounterIsGuards(s: State, events: seq<Event>)
    requires Counts(s)
    ensures Counts(Run(s, events))
    decreases |events|
  {
    if events != [] {
      StepCounts(s, events[0]);
      CounterIsGuards(Step(s, events[0]), events[1..]);
    }
  }

  /** So the guard's destructor never meets a counter at zero: its own guard is still counted. */
  lemma DropMeetsCounter(s: State, events: seq<Event>, t: Thread)
    requires Counts(s) && Holds(Run(s, events), t)
    ensures var end := Run(s, events);
            end.inflight > 0 && Step(end, DropGuard(t)).inflight == end.inflight - 1
  {
    CounterIsGuards(s, events);
    assert t in Guards(Run(s, events));
  }

  // ----- Status only moves forward -----

  function Rank(s: Status): nat {
    match s
    case Uninitialized => 0
    case Initializing => 1
    case Ready => 2
    case Draining => 3
    case ShutDown => 4
  }

  /** No step of the run moves the status back. */
  ghost predicate Forwards(s: State, events: seq<Event>)
    decreases |events|
  {
    events == [] || (Rank(Step(s, events[0]).status) >= Rank(s.status) && Forwards(Step(s, events[0]), events[1..]))
  }

  lemma RunOne(s: State, e: Event, events: seq<Event>)
    ensures Run(s, [e] + events) == Run(Step(s, e), events)
    ensures Forwards(s, [e] + events) <==> Rank(Step(s, e).status) >= Rank(s.status) && Forwards(Step(s, e), events)
  {
    assert ([e] + events)[1..] == events;
  }

  predicate MustStoreAt(s: State, t: Thread) {
    t in s.stoppers && s.stoppers[t].MustStore?
  }

  // ----- One shutdown thread -----

  predicate IsShutdown(e: Event) {
    e.ShutdownRead? || e.ShutdownStore? || e.ShutdownFinish?
  }

  /** Only thread `t` ever shuts down. */
  ghost predicate OnlyStopper(events: seq<Event>, t: Thread) {
    forall i :: 0 <= i < |events| ==> (IsShutdown(events[i]) ==> events[i].t == t)
  }

  /** Initialised, no init in progress, and `t` not about to store Draining over ShutDown. */
  predicate Safe(s: State, t: Thread) {
    !s.status.Uninitialized? && s.initializers == {} && !(s.status.ShutDown? && MustStoreAt(s, t))
  }

  lemma StepSafe(s: State, e: Event, t: Thread)
    requires Safe(s, t) && (IsShutdown(e) ==> e.t == t)
    ensures Safe(Step(s, e), t) && Rank(Step(s, e).status) >= Rank(s.status)
    ensures Rank(s.status) >= 3 ==> Step(s, e).submitters.Keys <= s.submitters.Keys
  {
  }

  /**
   From a safe state, with one shutdown thread, the status never moves back; and once
   draining no submission enters that had not already read Ready.
   */
  lemma {:induction false} Forward(s: State, events: seq<Event>, t: Thread)
    requires Safe(s, t) && OnlyStopper(events, t)
    ensures Safe(Run(s, events), t) && Forwards(s, events) && Rank(Run(s, events).status) >= Rank(s.status)
    ensures Rank(s.status) >= 3 ==> Run(s, events).submitters.Keys <= s.submitters.Keys
    decreases |events|
  {
    if events != [] {
      StepSafe(s, events[0], t);
      Forward(Step(s, events[0]), events[1..], t);
    }
  }

  lemma First(s: State, e: Event, events: seq<Event>, t: Thread)
    requires IsShutdown(e) ==> e.t == t
    requires OnlyStopper(events, t) && !Forwards(Step(s, e), events)
    ensures OnlyStopper([e] + events, t) && !Forwards(s, [e] + events)
  {
    RunOne(s, e, events);
  }

  lemma Alone(s: State, e: Event, t: Thread)
    requires (IsShutdown(e) ==> e.t == t) && Rank(Step(s, e).status) < Rank(s.status)
    ensures OnlyStopper([e], t) && !Forwards(s, [e])
  {
    RunOne(s, e, []);
    assert [e] + [] == [e];
  }

  /** An init in progress stores its status over whatever `t` has stored meanwhile. */
  lemma InitStoresLate(s: State, t: Thread, v: Thread) returns (events: seq<Event>)
    requires v in s.initializers
    ensures OnlyStopper(events, t) && !Forwards(s, events)
  {
    var store := InitStore(v);
    if Rank(s.status) >= 3 {
      Alone(s, store, t);
      events := [store];
    } else if t !in s.stoppers {
      var s1 := Step(s, ShutdownRead(t));
      var s2 := Step(s1, ShutdownStore(t));
      Alone(s2, store, t);
      First(s1, ShutdownStore(t), [store], t);
      First(s, ShutdownRead(t), [ShutdownStore(t)] + [store], t);
      events := [ShutdownRead(t)] + ([ShutdownStore(t)] + [store]);
    } else {
      var e := if s.stoppers[t].MustStore? then ShutdownStore(t) else ShutdownFinish(t);
      Alone(Step(s, e), store, t);
      First(s, e, [store], t);
      events := [e] + [store];
    }
  }

  lemma UnsafeGoesBack(s: State, t: Thread) returns (events: seq<Event>)
    requires !Safe(s, t)
    ensures OnlyStopper(events, t) && !Forwards(s, events)
  {
    if s.initializers != {} {
      var v :| v in s.initializers;
      events := InitStoresLate(s, t, v);
    } else if s.status.Uninitialized? {
      events := InitStoresLate(Step(s, InitExchange(t)), t, t);
      First(s, InitExchange(t), events, t);
      events := [InitExchange(t)] + events;
    } else {
      Alone(s, ShutdownStore(t), t);
      events := [ShutdownStore(t)];
    }
  }

  /** With `t` as the only shutdown thread, no continuation moves the status back exactly from safe states. */
  lemma ForwardExactly(s: State, t: Thread)
    ensures (forall events :: OnlyStopper(events, t) ==> Forwards(s, events)) <==> Safe(s, t)
  {
    if Safe(s, t) {
      forall events | OnlyStopper(events, t) ensures Forwards(s, events) {
        Forward(s, events, t);
      }
    } else {
      var events := UnsafeGoesBack(s, t);
    }
  }

  function Start(configured: bool): State {
    State(configured, Uninitialized, 0, map[], {}, map[])
  }

  /** A run of one init alone ends in a safe state exactly when a pipeline is configured. */
  lemma InitSettles(t: Thread, u: Thread, configured: bool)
    ensures Safe(Run(Start(configured), [InitExchange(t), InitStore(t)]), u) <==> configured
  {
    var e1, e2 := InitExchange(t), InitStore(t);
    var s1 := Step(Start(configured), e1);
    RunOne(Start(configured), e1, [e2]);
    RunOne(s1, e2, []);
    assert [e1] + [e2] == [e1, e2] && [e2] + [] == [e2];
    assert Step(s1, e2).initializers == {};
  }

  // ----- Any number of shutdown threads -----

  /** Shut down, with no init and no store of Draining still to come. */
  ghost predicate Final(s: State) {
    s.status.ShutDown? && s.initializers == {} && forall t :: !MustStoreAt(s, t)
  }

  lemma StepFinal(s: State, e: Event)
    requires Final(s)
    ensures Final(Step(s, e))
  {
    forall t ensures !MustStoreAt(Step(s, e), t) {
      assert !MustStoreAt(s, t);
    }
    if e.ShutdownStore? {
      assert !MustStoreAt(s, e.t);
    }
  }

  lemma {:induction false} FinalStays(s: State, events: seq<Event>)
    requires Final(s)
    ensures Final(Run(s, events)) && Forwards(s, events)
    decreases |events|
  {
    if events != [] {
      StepFinal(s, events[0]);
      FinalStays(Step(s, events[0]), events[1..]);
    }
  }

  lemma NotFinalLeaves(s: State) returns (events: seq<Event>)
    requires s.status.ShutDown? && !Final(s)
    ensures !Run(s, events).status.ShutDown? && !Forwards(s, events)
  {
    var e;
    if s.initializers != {} {
      var v :| v in s.initializers;
      e := InitStore(v);
    } else {
      var t :| MustStoreAt(s, t);
      e := ShutdownStore(t);
    }
    events := [e];
    RunOne(s, e, []);
    assert [e] + [] == events;
  }

  /** A finished shutdown is final in every continuation, of any number of threads, exactly when nothing is pending. */
  lemma ShutDownIsFinal(s: State)
    requires s.status.ShutDown?
    ensures (forall events :: Run(s, events).status.ShutDown?) <==> Final(s)
  {
    if Final(s) {
      forall events ensures Run(s, events).status.ShutDown? {
        FinalStays(s, events);
      }
    } else {
      var events := NotFinalLeaves(s);
      assert !Run(s, events).status.ShutDown?;
    }
  }

  /** The failing case: a second shutdown thread stores Draining over ShutDown. */
  lemma TwoStoppersGoBack(s: State, t: Thread, u: Thread)
    requires !s.status.ShutDown? && t != u && t !in s.stoppers && u !in s.stoppers
    ensures var first := [ShutdownRead(u), ShutdownRead(t), ShutdownStore(t), ShutdownFinish(t)];
            Run(s, first).status == ShutDown && Step(Run(s, first), ShutdownStore(u)).status == Draining
            && !Forwards(s, first + [ShutdownStore(u)])
  {
    var e1, e2, e3, e4, e5 := ShutdownRead(u), ShutdownRead(t), ShutdownStore(t), ShutdownFinish(t), ShutdownStore(u);
    var s1 := Step(s, e1);
    var s2 := Step(s1, e2);
    var s3 := Step(s2, e3);
    var s4 := Step(s3, e4);
    assert MustStoreAt(s4, u);
    RunFour(s, e1, e2, e3, e4, []);
    RunFour(s, e1, e2, e3, e4, [e5]);
    RunOne(s4, e5, []);
    assert [e1, e2, e3, e4] + [] == [e1, e2, e3, e4] && [e5] + [] == [e5];
  }

  lemma RunFour(s: State, e1: Event, e2: Event, e3: Event, e4: Event, events: seq<Event>)
    ensures var s4 := Step(Step(Step(Step(s, e1), e2), e3), e4);
            Run(s, [e1, e2, e3, e4] + events) == Run(s4, events)
            && (Forwards(s, [e1, e2, e3, e4] + events) ==> Forwards(s4, events))
  {
    RunOne(s, e1, [e2, e3, e4] + events);
    RunOne(Step(s, e1), e2, [e3, e4] + events);
    RunOne(Step(Step(s, e1), e2), e3, [e4] + events);
    RunOne(Step(Step(Step(s, e1), e2), e3), e4, events);
    assert [e1] + ([e2, e3, e4] + events) == [e1, e2, e3, e4] + events;
    assert [e2] + ([e3, e4] + events) == [e2, e3, e4] + events;
    assert [e3] + ([e4] + events) == [e3, e4] + events;
  }

  /**
   Of all the runs any number of threads can make from a state, none moves the status back
   exactly when the state is final.
   */
  lemma NeverBackExactly(s: State)
    ensures (forall events :: Forwards(s, events)) <==> Final(s)
  {
    if Final(s) {
      forall events ensures Forwards(s, events) {
        FinalStays(s, events);
      }
    } else if s.status.ShutDown? {
      var events := NotFinalLeaves(s);
    } else {
      var t := Fresh(s.stoppers.Keys);
      TwoStoppersGoBack(s, t, t + 1);
    }
  }
}
