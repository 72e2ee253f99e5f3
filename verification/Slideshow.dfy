/** The wake-up protocol of ambience/slideshow.c: the dispatch thread's start, stop, next and prev
  * against the worker thread, through one semaphore and one atomic counter.
  *
  * A step is one atomic action of either thread; Exec runs any list of them, so a statement about
  * every list is a statement about every interleaving.
  */
module Slideshow {
  datatype Worker =
    | NoThread
    | Draining                 // in the sem_trywait loop
    | Exchanging               // the loop has ended, atomic_exchange is next
    | Fetching(skip: int)      // GetPrevPhoto if skip < 0, else GetPhoto
    | Waiting                  // in sem_timedwait
    | Woken                    // took a post, about to read stop_requested
    | Exited

  datatype Main =
    | Idle
    | Pressed                  // next/prev has added, not yet posted
    | StopFlagged              // stop_requested set, not yet posted
    | Joining                  // in pthread_join

  datatype State = State(
    running: bool,             // worker_running
    stopRequested: bool,
    skip: int,                 // skip_count
    sem: nat,                  // value of wake_sem
    worker: Worker,
    main: Main,
    pressed: int,              // nexts minus prevs since the last start
    consumed: int)             // sum of the values the worker has exchanged since then

  datatype Event =
    | Start(created: bool)
    | Press(step: int)         // +1 for next, -1 for prev
    | Post
    | StopFlag
    | StopPost
    | StopJoined
    | WorkerStep

  const INITIAL := State(false, false, 0, 0, NoThread, Idle, 0, 0)

  /** The worker's next action. sem_timedwait takes a post whenever there is one and can only time
    * out when there is none. */
  function StepWorker(s: State): State {
    match s.worker
    case NoThread => s
    case Draining => if s.sem > 0 then s.(sem := s.sem - 1) else s.(worker := Exchanging)
    case Exchanging => s.(worker := Fetching(s.skip), skip := 0, consumed := s.consumed + s.skip)
    case Fetching(_) => s.(worker := Waiting)
    case Waiting => if s.sem > 0 then s.(sem := s.sem - 1, worker := Woken) else s.(worker := Draining)
    case Woken => s.(worker := if s.stopRequested then Exited else Draining)
    case Exited => s
  }

  function Step(s: State, e: Event): State {
    match e
    case Start(created) =>
      if s.main.Idle? && !s.running && created then
        s.(running := true, worker := Draining, pressed := 0, consumed := 0)
      else s
    case Press(step) =>
      if s.main.Idle? && s.running && (step == 1 || step == -1) then
        s.(skip := s.skip + step, pressed := s.pressed + step, main := Pressed)
      else s
    case Post => if s.main.Pressed? then s.(sem := s.sem + 1, main := Idle) else s
    case StopFlag =>
      if s.main.Idle? && s.running then s.(stopRequested := true, main := StopFlagged) else s
    case StopPost => if s.main.StopFlagged? then s.(sem := s.sem + 1, main := Joining) else s
    case StopJoined =>
      if s.main.Joining? && s.worker.Exited? then
        s.(running := false, stopRequested := false, sem := 0, skip := 0, worker := NoThread, main := Idle)
      else s
    case WorkerStep => StepWorker(s)
  }

  function Exec(s: State, es: seq<Event>): State
    decreases |es|
  {
    if es == [] then s else Exec(Step(s, es[0]), es[1..])
  }

  // ---------------------------------------------------------------------------------------
  // No lost key press
  // ---------------------------------------------------------------------------------------

  ghost predicate Inv(s: State) {
    && (s.running <==> !s.worker.NoThread?)
    && (s.stopRequested <==> s.main.StopFlagged? || s.main.Joining?)
    && (s.worker.Exited? ==> s.stopRequested)
    && (!s.running ==> s.main.Idle? && s.skip == 0 && s.sem == 0)
    && (s.running ==> s.consumed + s.skip == s.pressed)
    && (s.skip != 0 ==>
          s.sem > 0 || s.main.Pressed?
          || s.worker.Draining? || s.worker.Exchanging? || s.worker.Woken? || s.worker.Exited?)
    && (s.worker.Waiting? || s.worker.Fetching? ==> s.main.Pressed? || s.sem > 0 || s.consumed == s.pressed)
  }

  lemma InitialSatisfiesInv()
    ensures Inv(INITIAL)
  {
  }

  lemma StepKeepsInv(s: State, e: Event)
    requires Inv(s)
    ensures Inv(Step(s, e))
  {
  }

  /** In every interleaving: each press is either consumed or still counted, and the worker is never
    * asleep on a completed press it has not consumed. */
  lemma {:induction false} NoLostPress(s: State, es: seq<Event>)
    requires Inv(s)
    ensures Inv(Exec(s, es))
    ensures var t := Exec(s, es);
      t.worker.Waiting? && t.sem == 0 && t.main.Idle? ==> t.skip == 0 && t.consumed == t.pressed
    decreases |es|
  {
    if es != [] {
      StepKeepsInv(s, es[0]);
      NoLostPress(Step(s, es[0]), es[1..]);
    }
  }

  /** From start-up. */
  lemma NoPressLostFromStart(es: seq<Event>)
    ensures var t := Exec(INITIAL, es);
      && (t.running ==> t.consumed + t.skip == t.pressed)
      && (t.worker.Waiting? && t.sem == 0 && t.main.Idle? ==> t.skip == 0 && t.consumed == t.pressed)
  {
    InitialSatisfiesInv();
    NoLostPress(INITIAL, es);
  }

  /** In every run: the exchange takes all presses made since the last one, and the round goes backward
    * exactly when there were more prevs than nexts among them. */
  lemma RoundTakesAllPresses(es: seq<Event>)
    requires Exec(INITIAL, es).worker.Exchanging?
    ensures var s := Exec(INITIAL, es);
      var t := Step(s, WorkerStep);
      t.worker == Fetching(s.pressed - s.consumed) && t.consumed == s.pressed == t.pressed && t.skip == 0
  {
    InitialSatisfiesInv();
    NoLostPress(INITIAL, es);
  }

  // ---------------------------------------------------------------------------------------
  // Presses that act twice
  // ---------------------------------------------------------------------------------------

  /** Posts made, or due for a press already added. */
  function Owed(s: State): nat { s.sem + if s.main.Pressed? then 1 else 0 }

  /** Only the worker moves, and a press already added gets its post. */
  predicate NoNewPress(es: seq<Event>) {
    forall i :: 0 <= i < |es| ==> es[i].WorkerStep? || es[i].Post?
  }

  function Turns(es: seq<Event>): nat {
    if es == [] then 0 else (if es[0].WorkerStep? then 1 else 0) + Turns(es[1..])
  }

  /** The worker is between its drain and the end of its wait, `left` steps before the wait. */
  predicate InRound(w: Worker, left: int) {
    (w.Exchanging? && left == 2) || (w.Fetching? && left == 1) || (w.Waiting? && left == 0)
  }

  lemma {:induction false} RoundKeepsPosts(s: State, es: seq<Event>, left: nat)
    requires InRound(s.worker, left) && (s.main.Idle? || s.main.Pressed?)
    requires NoNewPress(es) && Turns(es) <= left
    ensures var t := Exec(s, es);
      && InRound(t.worker, left - Turns(es)) && (t.main.Idle? || (t.main.Pressed? && s.main.Pressed?))
      && Owed(t) == Owed(s) && t.skip == (if left == 2 && Turns(es) > 0 then 0 else s.skip)
      && t.consumed + t.skip == s.consumed + s.skip && t.pressed == s.pressed
      && t.running == s.running && t.stopRequested == s.stopRequested
    decreases |es|
  {
    if es != [] {
      RoundKeepsPosts(Step(s, es[0]), es[1..], if es[0].WorkerStep? then left - 1 else left);
    }
  }

  /** For every state in which the worker has drained and not yet exchanged, and every interleaving
    * without a further press or stop: by the wait every press made has been consumed, and yet the wait
    * is cut short - the presses act a second time, as a step forward - if and only if a post was left
    * between the drain and the exchange, or a press was between its add and its post. */
  lemma ActsTwiceIff(s: State, es: seq<Event>)
    requires Inv(s) && s.worker.Exchanging? && (s.main.Idle? || s.main.Pressed?)
    requires NoNewPress(es) && Turns(es) == 2 && Exec(s, es).main.Idle?
    ensures var t := Exec(s, es);
      var u := Step(t, WorkerStep);
      && t.worker.Waiting? && t.skip == u.skip == 0 && t.consumed == u.consumed == s.pressed == u.pressed
      && !u.stopRequested
      && (u.worker.Woken? <==> s.sem > 0 || s.main.Pressed?)
      && (!u.worker.Woken? ==> u.worker.Draining?)
  {
    RoundKeepsPosts(s, es, 2);
  }

  /** An instance: a press just after the drain of a worker just started. */
  lemma PressMayWakeTwice()
    ensures var s := Exec(INITIAL, [Start(true), WorkerStep, Press(-1), Post]);
      var t := Exec(s, [WorkerStep, WorkerStep, WorkerStep]);
      t.consumed == t.pressed == -1 && t.skip == 0 && t.worker == Woken && !t.stopRequested
  {
    Exec4(INITIAL, Start(true), WorkerStep, Press(-1), Post);
    var s := Exec(INITIAL, [Start(true), WorkerStep, Press(-1), Post]);
    assert s == State(true, false, -1, 1, Exchanging, Idle, -1, 0);
    Exec3(s, WorkerStep, WorkerStep, WorkerStep);
  }

  lemma Exec3(s: State, a: Event, b: Event, c: Event)
    ensures Exec(s, [a, b, c]) == Step(Step(Step(s, a), b), c)
  {
    assert [a, b, c][1..] == [b, c] && [b, c][1..] == [c] && [c][1..] == [];
    assert Exec(Step(Step(s, a), b), [c]) == Exec(Step(Step(Step(s, a), b), c), []);
    assert Exec(Step(s, a), [b, c]) == Exec(Step(Step(s, a), b), [c]);
  }

  lemma Exec4(s: State, a: Event, b: Event, c: Event, d: Event)
    ensures Exec(s, [a, b, c, d]) == Step(Step(Step(Step(s, a), b), c), d)
  {
    assert [a, b, c, d][1..] == [b, c, d];
    Exec3(Step(s, a), b, c, d);
  }

  // ---------------------------------------------------------------------------------------
  // How often presses act over a whole run
  // ---------------------------------------------------------------------------------------

  /** What one step counts for: a press made, a stop made, a wait cut short by a post, an exchange that
    * finds presses. */
  function PressAt(s: State, e: Event): nat {
    if e.Press? && s.main.Idle? && Step(s, e).main.Pressed? then 1 else 0
  }

  function StopAt(s: State, e: Event): nat { if e.StopFlag? && s.main.Idle? && s.running then 1 else 0 }

  function WakeAt(s: State, e: Event): nat { if e.WorkerStep? && s.worker.Waiting? && s.sem > 0 then 1 else 0 }

  function HitAt(s: State, e: Event): nat { if e.WorkerStep? && s.worker.Exchanging? && s.skip != 0 then 1 else 0 }

  /** A quantity summed over the steps of a run. */
  function Total(s: State, es: seq<Event>, at: (State, Event) -> nat): nat
    decreases |es|
  {
    if es == [] then 0 else at(s, es[0]) + Total(Step(s, es[0]), es[1..], at)
  }

  /** Posts made or certain to be made. */
  function Due(s: State): nat { s.sem + if s.main.Pressed? || s.main.StopFlagged? then 1 else 0 }

  function Uncounted(s: State): nat { if s.skip != 0 then 1 else 0 }

  lemma StepBounds(s: State, e: Event)
    ensures WakeAt(s, e) + Due(Step(s, e)) <= Due(s) + PressAt(s, e) + StopAt(s, e)
    ensures HitAt(s, e) + Uncounted(Step(s, e)) <= Uncounted(s) + PressAt(s, e)
  {
  }

  lemma {:induction false} RunBounds(s: State, es: seq<Event>)
    ensures Total(s, es, WakeAt) + Due(Exec(s, es))
         <= Due(s) + Total(s, es, PressAt) + Total(s, es, StopAt)
    ensures Total(s, es, HitAt) + Uncounted(Exec(s, es)) <= Uncounted(s) + Total(s, es, PressAt)
    decreases |es|
  {
    if es != [] {
      StepBounds(s, es[0]);
      RunBounds(Step(s, es[0]), es[1..]);
    }
  }

  /** From start-up, over any run: the rounds that find presses are no more than the presses made, and the
    * waits cut short no more than presses and stops together. So no press acts more than twice, once
    * when it is counted and once by its post; ActsTwiceIff says when it does. */
  lemma NoPressActsThrice(es: seq<Event>)
    ensures Total(INITIAL, es, HitAt) <= Total(INITIAL, es, PressAt)
    ensures Total(INITIAL, es, WakeAt) <= Total(INITIAL, es, PressAt) + Total(INITIAL, es, StopAt)
  {
    RunBounds(INITIAL, es);
  }

  // ---------------------------------------------------------------------------------------
  // When slideshow_stop returns
  // ---------------------------------------------------------------------------------------

  function Iterate(s: State, n: nat): State
    decreases n
  {
    if n == 0 then s else Iterate(StepWorker(s), n - 1)
  }

  /** The worker has stopped looking: the post meant for it is drained, or about to be. */
  predicate Doomed(s: State) {
    && s.main.Joining?
    && (s.worker.Draining? || ((s.worker.Exchanging? || s.worker.Fetching? || s.worker.Waiting?) && s.sem == 0))
  }

  lemma {:induction false} DoomedForever(s: State, es: seq<Event>)
    requires Doomed(s)
    ensures Doomed(Exec(s, es))
    decreases |es|
  {
    if es != [] {
      DoomedForever(Step(s, es[0]), es[1..]);
    }
  }

  lemma {:induction false} IterateIsExec(s: State, n: nat) returns (es: seq<Event>)
    ensures Iterate(s, n) == Exec(s, es)
    decreases n
  {
    if n == 0 {
      es := [];
    } else {
      var rest := IterateIsExec(StepWorker(s), n - 1);
      es := [WorkerStep] + rest;
      assert es[1..] == rest;
    }
  }

  lemma ExitsInFour(s: State)
    requires Inv(s) && s.main.Joining? && !Doomed(s)
    ensures Iterate(s, 4).worker.Exited?
  {
    var s1 := StepWorker(s);
    var s2 := StepWorker(s1);
    var s3 := StepWorker(s2);
    assert Iterate(s, 4) == Iterate(s1, 3) == Iterate(s2, 2) == Iterate(s3, 1) == Iterate(StepWorker(s3), 0);
  }

  /** slideshow_stop posts its wake-up, then joins. The worker leaves its loop, and the call
    * returns, if and only if the worker was not in its drain loop at that post; if it was, no
    * later step of any thread ever lets stop return. */
  lemma StopReturnsIff(s: State)
    requires Inv(s) && s.main.StopFlagged?
    ensures (exists n: nat :: Iterate(Step(s, StopPost), n).worker.Exited?) <==> !s.worker.Draining?
    ensures s.worker.Draining? ==>
      forall es: seq<Event> :: Exec(Step(s, StopPost), es).main.Joining?
  {
    var t := Step(s, StopPost);
    StepKeepsInv(s, StopPost);
    if s.worker.Draining? {
      forall es: seq<Event>
        ensures Exec(t, es).main.Joining? && !Exec(t, es).worker.Exited?
      {
        DoomedForever(t, es);
      }
      forall n: nat
        ensures !Iterate(t, n).worker.Exited?
      {
        var es := IterateIsExec(t, n);
      }
    } else {
      ExitsInFour(t);
    }
  }

  /** The hang is reachable: a stop right after a start. */
  lemma StopCanHang(es: seq<Event>)
    ensures var t := Exec(INITIAL, [Start(true), StopFlag, StopPost]); Exec(t, es).main.Joining?
  {
    Exec3(INITIAL, Start(true), StopFlag, StopPost);
    DoomedForever(Exec(INITIAL, [Start(true), StopFlag, StopPost]), es);
  }

  // ---------------------------------------------------------------------------------------
  // The object
  // ---------------------------------------------------------------------------------------

  /** struct Slideshow, as far as the protocol goes. Each method is one or more of the steps above,
    * run without interruption; `worker` and `main` are the two program counters. */
  class Slideshow {
    var running: bool
    var stopRequested: bool
    var skip: int
    var sem: nat
    ghost var worker: Worker
    ghost var main: Main
    ghost var pressed: int
    ghost var consumed: int

    ghost function View(): State
      reads this
    {
      State(running, stopRequested, skip, sem, worker, main, pressed, consumed)
    }

    constructor ()
      ensures View() == INITIAL
    {
      running, stopRequested, skip, sem := false, false, 0, 0;
      worker, main, pressed, consumed := NoThread, Idle, 0, 0;
    }

    /** slideshow_start; `created` is the outcome of pthread_create. */
    method StartWorker(created: bool)
      requires main.Idle?
      modifies this
      ensures View() == Step(old(View()), Start(created))
    {
      if running {
        return;
      }
      running := true;
      if created {
        worker, pressed, consumed := Draining, 0, 0;
      } else {
        running := false;
      }
    }

    /** slideshow_next (step 1) and slideshow_prev (step -1). */
    method Skip(step: int)
      requires main.Idle? && (step == 1 || step == -1)
      modifies this
      ensures View() == Step(Step(old(View()), Press(step)), Post)
    {
      if !running {
        return;
      }
      skip, pressed := skip + step, pressed + step;
      sem := sem + 1;
    }

    /** slideshow_stop up to the join. */
    method RequestStop()
      requires main.Idle? && running
      modifies this
      ensures View() == Step(Step(old(View()), StopFlag), StopPost)
    {
      stopRequested := true;
      sem := sem + 1;
      main := Joining;
    }

    /** slideshow_stop after the join. */
    method FinishStop()
      requires main.Joining? && worker.Exited?
      modifies this
      ensures View() == Step(old(View()), StopJoined)
    {
      running := false;
      stopRequested := false;
      while sem > 0
        modifies this`sem
      {
        sem := sem - 1;
      }
      skip := 0;
      worker, main := NoThread, Idle;
    }

    /** The top of the worker's loop, drain to exchange; true means GetPrevPhoto. */
    method BeginRound() returns (backward: bool)
      requires worker.Draining?
      modifies this
      ensures View() == Iterate(old(View()), old(sem) + 2)
      ensures backward <==> old(skip) < 0
    {
      ghost var s := View();
      ghost var drained := 0;
      while sem > 0
        invariant drained + sem == s.sem
        invariant Iterate(View(), sem + 2) == Iterate(s, s.sem + 2)
        invariant View() == s.(sem := sem)
        modifies this`sem
      {
        assert Iterate(View(), sem + 2) == Iterate(StepWorker(View()), sem + 1);
        sem := sem - 1;
        drained := drained + 1;
      }
      var taken := skip;
      skip := 0;
      ghost var ended := StepWorker(s.(sem := 0));
      assert Iterate(s.(sem := 0), 2) == Iterate(ended, 1) == Iterate(StepWorker(ended), 0);
      worker, consumed := Fetching(taken), consumed + taken;
      backward := taken < 0;
    }

    /** wait_or_stop: true ends the worker's loop. */
    method WaitOrStop() returns (stop: bool)
      requires worker.Waiting?
      modifies this
      ensures View() == if old(sem) > 0 then Iterate(old(View()), 2) else StepWorker(old(View()))
      ensures stop <==> worker.Exited?
    {
      assert Iterate(View(), 2) == Iterate(StepWorker(View()), 1) == Iterate(StepWorker(StepWorker(View())), 0);
      if sem > 0 {
        sem := sem - 1;
        stop := stopRequested;
        worker := if stop then Exited else Draining;
      } else {
        stop := false;
        worker := Draining;
      }
    }
  }
}
