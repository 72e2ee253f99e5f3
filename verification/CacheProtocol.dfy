/** The worker thread and the dispatch thread of photo-provider sharing one PhotoRing
  * (cache.c) and one client_id (www_session.c), as a state machine.
  *
  * A step is one critical section, or one piece of work done outside the locks. Exec runs any
  * list of steps; a step that is not enabled changes nothing, so "for every list of events"
  * means "for every interleaving".
  */
module CacheProtocol {
  import opened Basics
  import opened PhotoRing

  /** Where worker_main is. `epoch` numbers the invalidation the worker has seen: the source
    * keeps only its residue, see Generation. */
  datatype Worker =
    | AtLoop                                  // about to evaluate its loop conditions
    | Asleep                                  // in pthread_cond_wait
    | Captured(epoch: nat)                    // generation read, mutex released
    | Requesting(epoch: nat, id: nat)         // client_id copied, HTTP request running
    | Fetched(epoch: nat, photo: Photo)       // fetch succeeded, mutex not yet retaken
    | Backoff                                 // fetch failed, sleeping two seconds
    | Exited

  /** Where the single dispatch thread is. */
  datatype Dispatch =
    | Ready
    | PopAsleep                               // in pthread_cond_timedwait
    | PopWoken                                // woken, about to re-evaluate the pop condition
    | Installed                               // new client_id visible, ring not yet invalidated
    | Joining                                 // shutdown requested, waiting for the worker

  datatype State = State(
    depths: Depths,
    ring: Ring,
    shutdown: bool,
    invalidations: nat,
    registration: nat,                        // 0 until the first successful register
    worker: Worker,
    dispatch: Dispatch,
    nextFd: nat,                              // descriptors 0..nextFd have been fetched
    closed: seq<nat>,                         // those closed so far
    furthest: int,                            // largest position delivered since the last flush
    delivered: seq<Photo>)                    // what pop and pop_prev returned, in order

  datatype Event =
    | WorkerCheck
    | WorkerWake
    | ReadId
    | FetchDone(ok: bool, meta: string)
    | WorkerCommit
    | BackoffOver
    | PopTry(dupOk: bool)
    | PopWake
    | PopTimeout
    | PrevTry(dupOk: bool)
    | InstallId
    | Invalidate
    | Shutdown

  function Init(d: Depths): State {
    State(d, EMPTY_RING, false, 0, 0, AtLoop, Ready, 0, [], -1, [])
  }

  /** What the uint32_t `generation` holds after n invalidations. */
  function Generation(n: nat): nat { n % UINT32_MODULUS }

  /** pthread_cond_broadcast: wakes whoever sleeps on the one condition variable. */
  function Broadcast(s: State): State {
    s.(worker := if s.worker.Asleep? then AtLoop else s.worker,
       dispatch := if s.dispatch.PopAsleep? then PopWoken else s.dispatch)
  }

  function Flush(s: State): State
    requires s.ring.head <= s.ring.Tail()
  {
    s.(ring := EMPTY_RING, closed := s.closed + Fds(s.ring.Live()), furthest := -1)
  }

  /** The delivery end of pop and pop_prev: the cursor has moved to position n. */
  function DeliverAt(s: State, n: nat, dupOk: bool): State
    requires n < s.ring.Tail()
  {
    s.(ring := s.ring.(cursor := n),
       furthest := Max(s.furthest, n),
       delivered := s.delivered + if dupOk then [s.ring.pushed[n]] else [])
  }

  function StepCheck(s: State): (t: State)
    requires s.ring.Valid(s.depths) && s.worker.AtLoop?
    ensures t.ring.Valid(t.depths) && t.depths == s.depths
  {
    if s.shutdown then Flush(s).(worker := Exited)
    else if ShouldFetch(s.depths, s.ring) then s.(worker := Captured(s.invalidations))
    else s.(worker := Asleep)
  }

  function StepReadId(s: State): State
    requires s.worker.Captured?
  {
    s.(worker := if s.registration == 0 then Backoff else Requesting(s.worker.epoch, s.registration))
  }

  function StepFetchDone(s: State, ok: bool, meta: string): State
    requires s.worker.Requesting?
  {
    if ok then
      s.(worker := Fetched(s.worker.epoch, Photo(s.nextFd, s.worker.id, meta)), nextFd := s.nextFd + 1)
    else s.(worker := Backoff)
  }

  function StepCommit(s: State): (t: State)
    requires s.ring.Valid(s.depths) && s.worker.Fetched?
    ensures t.ring.Valid(t.depths) && t.depths == s.depths
  {
    var p, epoch, idle := s.worker.photo, s.worker.epoch, s.(worker := AtLoop);
    if Generation(epoch) != Generation(s.invalidations) || s.shutdown then
      idle.(closed := s.closed + [p.fd])
    else
      var q := Place(s.depths, s.ring, p);
      var placed := idle.(ring := q.ring, closed := s.closed + q.closed);
      if q.stored then Broadcast(placed) else placed
  }

  function StepPop(s: State, dupOk: bool): (t: State)
    requires s.ring.Valid(s.depths)
    ensures t.ring.Valid(t.depths) && t.depths == s.depths
  {
    if CanPop(s.ring) then Broadcast(DeliverAt(s.(dispatch := Ready), s.ring.cursor + 1, dupOk))
    else s.(dispatch := PopAsleep)
  }

  function StepPrev(s: State, dupOk: bool): (t: State)
    requires s.ring.Valid(s.depths)
    ensures t.ring.Valid(t.depths) && t.depths == s.depths
  {
    if CanPopPrev(s.ring) then DeliverAt(s, s.ring.cursor - 1, dupOk) else s
  }

  function Step(s: State, e: Event): (t: State)
    requires s.ring.Valid(s.depths)
    ensures t.ring.Valid(t.depths) && t.depths == s.depths
  {
    match e
    case WorkerCheck => if s.worker.AtLoop? then StepCheck(s) else s
    case WorkerWake => if s.worker.Asleep? then s.(worker := AtLoop) else s
    case ReadId => if s.worker.Captured? then StepReadId(s) else s
    case FetchDone(ok, meta) => if s.worker.Requesting? then StepFetchDone(s, ok, meta) else s
    case WorkerCommit => if s.worker.Fetched? then StepCommit(s) else s
    case BackoffOver => if s.worker.Backoff? then s.(worker := AtLoop) else s
    case PopTry(dupOk) => if s.dispatch.Ready? || s.dispatch.PopWoken? then StepPop(s, dupOk) else s
    case PopWake => if s.dispatch.PopAsleep? then s.(dispatch := PopWoken) else s
    case PopTimeout => if s.dispatch.PopAsleep? || s.dispatch.PopWoken? then s.(dispatch := Ready) else s
    case PrevTry(dupOk) => if s.dispatch.Ready? then StepPrev(s, dupOk) else s
    case InstallId =>
      if s.dispatch.Ready? then s.(registration := s.registration + 1, dispatch := Installed) else s
    case Invalidate =>
      if s.dispatch.Installed? then
        Broadcast(Flush(s).(invalidations := s.invalidations + 1, dispatch := Ready))
      else s
    case Shutdown => if s.dispatch.Ready? then Broadcast(s.(shutdown := true, dispatch := Joining)) else s
  }

  function Exec(s: State, es: seq<Event>): (t: State)
    requires s.ring.Valid(s.depths)
    ensures t.ring.Valid(t.depths) && t.depths == s.depths
    decreases |es|
  {
    if es == [] then s else Exec(Step(s, es[0]), es[1..])
  }

  lemma {:induction false} ExecConcat(s: State, es: seq<Event>, fs: seq<Event>)
    requires s.ring.Valid(s.depths)
    ensures Exec(s, es + fs) == Exec(Exec(s, es), fs)
    decreases |es|
  {
    if es == [] {
      assert es + fs == fs;
    } else {
      assert (es + fs)[1..] == es[1..] + fs;
      ExecConcat(Step(s, es[0]), es[1..], fs);
    }
  }

  lemma ExecFirst(s: State, e: Event, es: seq<Event>)
    requires s.ring.Valid(s.depths)
    ensures Exec(s, [e] + es) == Exec(Step(s, e), es)
  {
    assert ([e] + es)[1..] == es;
  }

  // ---------------------------------------------------------------------------------------
  // Sleeping threads: no lost wake-up, no mutual wait
  // ---------------------------------------------------------------------------------------

  /** A thread is asleep only while the condition it sleeps on is still blocked. */
  ghost predicate SleepersBlocked(s: State) {
    && s.ring.Valid(s.depths)
    && (s.worker.Asleep? ==> !s.shutdown && !ShouldFetch(s.depths, s.ring))
    && (s.dispatch.PopAsleep? ==> !CanPop(s.ring) && !s.shutdown)
    && (s.shutdown <==> s.dispatch.Joining?)
    && (s.worker.Exited? ==> s.shutdown)
  }

  /** A blocked pop always leaves the worker something to fetch. */
  lemma BlockedPopWantsFetch(d: Depths, r: Ring)
    requires r.Valid(d) && !CanPop(r)
    ensures ShouldFetch(d, r)
  {
  }

  /** Stepping the cursor back, which wakes nobody, never makes a fetch due. */
  lemma PrevNeverDemandsFetch(d: Depths, r: Ring)
    requires r.Valid(d) && CanPopPrev(r)
    ensures ShouldFetch(d, r.(cursor := r.cursor - 1)) ==> ShouldFetch(d, r)
  {
  }

  lemma StepKeepsSleepersBlocked(s: State, e: Event)
    requires SleepersBlocked(s)
    ensures SleepersBlocked(Step(s, e))
  {
    if e.PrevTry? && CanPopPrev(s.ring) {
      PrevNeverDemandsFetch(s.depths, s.ring);
    }
  }

  /** In every run: no sleeper's condition has come true unnoticed, and the two threads never
    * sleep on each other. */
  lemma {:induction false} NoLostWakeupNoMutualWait(s: State, es: seq<Event>)
    requires SleepersBlocked(s)
    ensures SleepersBlocked(Exec(s, es))
    ensures !(Exec(s, es).worker.Asleep? && Exec(s, es).dispatch.PopAsleep?)
    decreases |es|
  {
    if es == [] {
      if s.worker.Asleep? && s.dispatch.PopAsleep? {
        BlockedPopWantsFetch(s.depths, s.ring);
      }
    } else {
      StepKeepsSleepersBlocked(s, es[0]);
      NoLostWakeupNoMutualWait(Step(s, es[0]), es[1..]);
    }
  }

  // ---------------------------------------------------------------------------------------
  // When the worker fetches
  // ---------------------------------------------------------------------------------------

  /** Too few photos wait to be delivered, and there is room or history to make room. */
  predicate Wanting(s: State)
    requires s.ring.Valid(s.depths)
  {
    var z := ViewZipper(s.depths, s.ring);
    |z.prefetch| < s.depths.prefetch && (|s.ring.Live()| < s.depths.history + 1 + s.depths.prefetch || z.history != [])
  }

  /** The worker's check starts a fetch, goes to sleep, or ends the thread with everything closed. */
  lemma WorkerCheckDecides(s: State)
    requires s.ring.Valid(s.depths) && s.worker.AtLoop?
    ensures var t := Step(s, WorkerCheck);
      if s.shutdown then t.worker == Exited && t.ring == EMPTY_RING && t.closed == s.closed + Fds(s.ring.Live())
      else t == s.(worker := if Wanting(s) then Captured(s.invalidations) else Asleep)
  {
    ShouldFetchIff(s.depths, s.ring);
  }

  /** In every run the worker sleeps only while enough photos wait, or the ring is full without history. */
  lemma AsleepMeansSupplied(s: State, es: seq<Event>)
    requires SleepersBlocked(s)
    ensures var t := Exec(s, es);
      t.worker.Asleep? ==>
        var z := ViewZipper(t.depths, t.ring);
        || t.depths.prefetch <= |z.prefetch|
        || (z.history == [] && |t.ring.Live()| == t.depths.history + 1 + t.depths.prefetch)
  {
    NoLostWakeupNoMutualWait(s, es);
    var t := Exec(s, es);
    ShouldFetchIff(t.depths, t.ring);
  }

  /** An undisturbed round: with a registration installed and a fetch that succeeds, the photo arrives at
    * the end of the prefetched list, under that registration, with its own descriptor and metadata; a
    * full ring gives up its oldest history for it. */
  lemma FetchRound(s: State, meta: string)
    requires s.ring.Valid(s.depths) && s.worker.AtLoop? && !s.shutdown && Wanting(s) && 0 < s.registration
    ensures var t := Exec(s, [WorkerCheck, ReadId, FetchDone(true, meta), WorkerCommit]);
      var z := ViewZipper(s.depths, s.ring);
      && t.worker.AtLoop? && t.nextFd == s.nextFd + 1
      && ViewZipper(t.depths, t.ring) ==
           Zipper(if |s.ring.Live()| < s.depths.history + 1 + s.depths.prefetch then z.history else z.history[1..],
                  z.current, z.prefetch + [Photo(s.nextFd, s.registration, meta)])
  {
    var p := Photo(s.nextFd, s.registration, meta);
    WorkerCheckDecides(s);
    var s1 := Step(s, WorkerCheck);
    var s2 := Step(s1, ReadId);
    var s3 := Step(s2, FetchDone(true, meta));
    assert s3 == s.(worker := Fetched(s.invalidations, p), nextFd := s.nextFd + 1);
    FourSteps(s, WorkerCheck, ReadId, FetchDone(true, meta), WorkerCommit);
    PlaceOnZipper(s.depths, s.ring, p);
  }

  lemma TwoSteps(s: State, a: Event, b: Event)
    requires s.ring.Valid(s.depths)
    ensures Exec(s, [a, b]) == Step(Step(s, a), b)
  {
    assert [a, b][1..] == [b] && [b][1..] == [];
    assert Exec(Step(s, a), [b]) == Exec(Step(Step(s, a), b), []);
  }

  lemma FourSteps(s: State, a: Event, b: Event, c: Event, d: Event)
    requires s.ring.Valid(s.depths)
    ensures Exec(s, [a, b, c, d]) == Step(Step(Step(Step(s, a), b), c), d)
  {
    assert [a, b] + [c, d] == [a, b, c, d];
    ExecConcat(s, [a, b], [c, d]);
    TwoSteps(s, a, b);
    TwoSteps(Exec(s, [a, b]), c, d);
  }

  /** A fetch that fails, or finds no registration, changes nothing but costs a pause. */
  lemma FailedRound(s: State, meta: string)
    requires s.ring.Valid(s.depths) && s.worker.AtLoop? && !s.shutdown && Wanting(s)
    ensures 0 < s.registration ==> Exec(s, [WorkerCheck, ReadId, FetchDone(false, meta), BackoffOver]) == s
    ensures s.registration == 0 ==> Exec(s, [WorkerCheck, ReadId, BackoffOver, WorkerWake]) == s
  {
    WorkerCheckDecides(s);
    FourSteps(s, WorkerCheck, ReadId, FetchDone(false, meta), BackoffOver);
    FourSteps(s, WorkerCheck, ReadId, BackoffOver, WorkerWake);
  }

  // ---------------------------------------------------------------------------------------
  // History and prefetch bounds
  // ---------------------------------------------------------------------------------------

  predicate InFlight(w: Worker) { w.Captured? || w.Requesting? || w.Fetched? }

  ghost predicate HistoryKept(s: State) {
    && s.ring.Valid(s.depths)
    && s.ring.cursor <= s.furthest < s.ring.Tail()
    && s.ring.Tail() <= s.furthest + 1 + s.depths.prefetch
    && (InFlight(s.worker) ==> s.ring.Tail() <= s.furthest + s.depths.prefetch)
    && (s.ring.head == 0 || s.depths.history <= s.furthest - s.ring.head)
  }

  lemma CommitKeepsHistory(s: State)
    requires HistoryKept(s) && s.worker.Fetched?
    ensures HistoryKept(StepCommit(s))
  {
  }

  lemma WorkerKeepsHistory(s: State, e: Event)
    requires HistoryKept(s) && WorkerEvent(e) && !(e.WorkerCommit? && s.worker.Fetched?)
    ensures HistoryKept(Step(s, e))
  {
  }

  lemma DispatchKeepsHistory(s: State, e: Event)
    requires HistoryKept(s) && !WorkerEvent(e)
    ensures HistoryKept(Step(s, e))
  {
  }

  lemma StepKeepsHistory(s: State, e: Event)
    requires HistoryKept(s)
    ensures HistoryKept(Step(s, e))
  {
    if !WorkerEvent(e) {
      DispatchKeepsHistory(s, e);
    } else if e.WorkerCommit? && s.worker.Fetched? {
      CommitKeepsHistory(s);
    } else {
      WorkerKeepsHistory(s, e);
    }
  }

  /** In every run, even when the cursor retreats while a fetch is running: the worker is never
    * more than prefetch_depth ahead of the furthest delivered photo, and that photo and the
    * history_depth photos before it (as far as they exist) are still in the ring. */
  lemma {:induction false} RunKeepsHistory(s: State, es: seq<Event>)
    requires HistoryKept(s)
    ensures HistoryKept(Exec(s, es))
    ensures var t := Exec(s, es);
      0 <= t.furthest ==>
        t.ring.head <= Max(0, t.furthest - t.depths.history) && t.furthest < t.ring.Tail()
    decreases |es|
  {
    if es != [] {
      StepKeepsHistory(s, es[0]);
      RunKeepsHistory(Step(s, es[0]), es[1..]);
    }
  }

  // ---------------------------------------------------------------------------------------
  // Descriptor conservation
  // ---------------------------------------------------------------------------------------

  function UpTo(n: nat): (fds: seq<nat>)
    ensures |fds| == n && forall i :: 0 <= i < n ==> fds[i] == i
  {
    seq(n, i => i)
  }

  function InHand(w: Worker): seq<nat> { if w.Fetched? then [w.photo.fd] else [] }

  /** Every descriptor the program still owes a close, or has closed, with multiplicity. */
  function Accounted(s: State): multiset<nat>
    requires s.ring.head <= s.ring.Tail()
  {
    multiset(s.closed) + multiset(Fds(s.ring.Live())) + multiset(InHand(s.worker))
  }

  /** Each fetched descriptor is exactly one of: closed (once), open in one ring slot, or in the
    * worker's hand. */
  ghost predicate FdsConserved(s: State) {
    && s.ring.Valid(s.depths)
    && (s.worker.Exited? ==> s.ring == EMPTY_RING)
    && Accounted(s) == multiset(UpTo(s.nextFd))
  }

  lemma FdsAppend(photos: seq<Photo>, p: Photo)
    ensures multiset(Fds(photos + [p])) == multiset(Fds(photos)) + multiset{p.fd}
  {
    assert Fds(photos + [p]) == Fds(photos) + [p.fd];
  }

  lemma FdsDropFirst(photos: seq<Photo>)
    requires photos != []
    ensures multiset(Fds(photos)) == multiset{photos[0].fd} + multiset(Fds(photos[1..]))
  {
    assert Fds(photos) == [photos[0].fd] + Fds(photos[1..]);
  }

  lemma PlaceConservesFds(d: Depths, r: Ring, p: Photo)
    requires r.Valid(d)
    ensures var q := Place(d, r, p);
      multiset(q.closed) + multiset(Fds(q.ring.Live())) == multiset(Fds(r.Live())) + multiset{p.fd}
  {
    PlacedLive(d, r, p);
    if Place(d, r, p).stored {
      if r.Occupied() < d.Capacity() {
        FdsAppend(r.Live(), p);
      } else {
        FdsDropFirst(r.Live());
        FdsAppend(r.Live()[1..], p);
      }
    }
  }

  lemma CommitConservesFds(s: State)
    requires s.ring.Valid(s.depths) && s.worker.Fetched?
    ensures Accounted(StepCommit(s)) == Accounted(s)
  {
    var p, t := s.worker.photo, StepCommit(s);
    assert InHand(s.worker) == [p.fd] && InHand(t.worker) == [];
    if Generation(s.worker.epoch) != Generation(s.invalidations) || s.shutdown {
      assert t.ring == s.ring && t.closed == s.closed + [p.fd];
    } else {
      PlaceConservesFds(s.depths, s.ring, p);
      var q := Place(s.depths, s.ring, p);
      assert t.ring == q.ring && t.closed == s.closed + q.closed;
      calc {
        Accounted(t);
        multiset(s.closed + q.closed) + multiset(Fds(q.ring.Live())) + multiset([]);
        multiset(s.closed) + (multiset(q.closed) + multiset(Fds(q.ring.Live())));
        multiset(s.closed) + (multiset(Fds(s.ring.Live())) + multiset{p.fd});
        Accounted(s);
      }
    }
  }

  lemma FlushConservesFds(s: State)
    requires s.ring.Valid(s.depths)
    ensures Accounted(Flush(s)) == Accounted(s)
  {
    assert Fds(EMPTY_RING.Live()) == [];
  }

  lemma FetchConservesFds(s: State, meta: string)
    requires s.ring.Valid(s.depths) && s.worker.Requesting? && Accounted(s) == multiset(UpTo(s.nextFd))
    ensures Accounted(StepFetchDone(s, true, meta)) == multiset(UpTo(s.nextFd + 1))
  {
    assert UpTo(s.nextFd + 1) == UpTo(s.nextFd) + [s.nextFd];
  }

  /** The steps that open or close no descriptor. */
  predicate TouchesNoFd(s: State, e: Event) {
    && !(e.WorkerCommit? && s.worker.Fetched?)
    && !(e.FetchDone? && s.worker.Requesting? && e.ok)
    && !(e.WorkerCheck? && s.worker.AtLoop? && s.shutdown)
    && !(e.Invalidate? && s.dispatch.Installed?)
  }

  lemma OtherStepsTouchNoFd(s: State, e: Event)
    requires s.ring.Valid(s.depths) && TouchesNoFd(s, e)
    ensures var t := Step(s, e);
      && t.closed == s.closed && t.nextFd == s.nextFd && InHand(t.worker) == InHand(s.worker)
      && t.ring.head == s.ring.head && t.ring.pushed == s.ring.pushed
      && t.worker.Exited? == s.worker.Exited?
      && (t.worker.Exited? ==> t.ring == s.ring || CanPop(s.ring) || CanPopPrev(s.ring))
  {
  }

  lemma FlushingStepConservesFds(s: State, e: Event)
    requires FdsConserved(s)
    requires (e.WorkerCheck? && s.worker.AtLoop? && s.shutdown) || (e.Invalidate? && s.dispatch.Installed?)
    requires s.worker.Exited? ==> s.shutdown && !s.dispatch.Installed?
    ensures FdsConserved(Step(s, e))
  {
    var t := Step(s, e);
    FlushConservesFds(s);
    assert t.ring == EMPTY_RING && t.closed == Flush(s).closed && InHand(t.worker) == InHand(s.worker);
  }

  lemma CommitStepConservesFds(s: State)
    requires FdsConserved(s) && s.worker.Fetched?
    ensures FdsConserved(Step(s, WorkerCommit))
  {
    CommitConservesFds(s);
    var t := StepCommit(s);
    assert t.nextFd == s.nextFd && t.worker == AtLoop;
  }

  lemma FetchStepConservesFds(s: State, meta: string)
    requires FdsConserved(s) && s.worker.Requesting?
    ensures FdsConserved(Step(s, FetchDone(true, meta)))
  {
    FetchConservesFds(s, meta);
  }

  lemma StepConservesFds(s: State, e: Event)
    requires FdsConserved(s) && SleepersBlocked(s)
    ensures FdsConserved(Step(s, e))
  {
    if TouchesNoFd(s, e) {
      OtherStepsTouchNoFd(s, e);
      QuietStepConservesFds(s, Step(s, e));
    } else if e.WorkerCommit? {
      CommitStepConservesFds(s);
    } else if e.FetchDone? {
      FetchStepConservesFds(s, e.meta);
    } else {
      FlushingStepConservesFds(s, e);
    }
  }

  lemma QuietStepConservesFds(s: State, t: State)
    requires FdsConserved(s)
    requires t.ring.Valid(t.depths) && t.closed == s.closed && t.nextFd == s.nextFd
    requires InHand(t.worker) == InHand(s.worker) && t.ring.head == s.ring.head
    requires t.ring.pushed == s.ring.pushed && t.worker.Exited? == s.worker.Exited?
    requires t.worker.Exited? ==> t.ring == s.ring || CanPop(s.ring) || CanPopPrev(s.ring)
    ensures FdsConserved(t)
  {
    assert t.ring.Live() == s.ring.Live();
  }

  /** In every run nothing leaks and nothing is closed twice; once the worker has exited, every
    * descriptor ever fetched is closed. */
  lemma {:induction false} RunConservesFds(s: State, es: seq<Event>)
    requires FdsConserved(s) && SleepersBlocked(s)
    ensures FdsConserved(Exec(s, es))
    ensures var t := Exec(s, es); t.worker.Exited? ==> multiset(t.closed) == multiset(UpTo(t.nextFd))
    decreases |es|
  {
    if es == [] {
      if s.worker.Exited? {
        assert Fds(s.ring.Live()) == [];
      }
    } else {
      StepConservesFds(s, es[0]);
      StepKeepsSleepersBlocked(s, es[0]);
      RunConservesFds(Step(s, es[0]), es[1..]);
    }
  }

  // ---------------------------------------------------------------------------------------
  // What the dispatch thread gets
  // ---------------------------------------------------------------------------------------

  lemma PopTakes(s: State, dupOk: bool)
    requires s.ring.Valid(s.depths) && CanPop(s.ring)
    ensures var t := StepPop(s, dupOk);
      && t.dispatch.Ready? && t.ring == s.ring.(cursor := s.ring.cursor + 1)
      && t.delivered == s.delivered + (if dupOk then [s.ring.pushed[s.ring.cursor + 1]] else [])
  {
  }

  lemma PopWaits(s: State, dupOk: bool)
    requires s.ring.Valid(s.depths) && s.dispatch.Ready? && !CanPop(s.ring)
    ensures var t := Step(s, PopTry(dupOk));
      && t == s.(dispatch := PopAsleep)
      && Step(t, PopTimeout) == s && Step(Step(t, PopWake), PopTimeout) == s
  {
  }

  lemma FirstWaiting(d: Depths, r: Ring)
    requires r.Valid(d) && CanPop(r)
    ensures ViewZipper(d, r).prefetch != [] && ViewZipper(d, r).prefetch[0] == r.pushed[r.cursor + 1]
  {
  }

  /** A pop that finds a photo moves to it, and delivers it unless dup fails; one that finds none waits,
    * until it is woken or its time is up, and then gives up without a trace. */
  lemma PopDecides(s: State, dupOk: bool)
    requires s.ring.Valid(s.depths) && s.dispatch.Ready?
    ensures var z, t := ViewZipper(s.depths, s.ring), Step(s, PopTry(dupOk));
      if z.prefetch != [] then
        && t.dispatch.Ready? && ViewZipper(t.depths, t.ring) == Forward(z)
        && t.delivered == s.delivered + (if dupOk then [z.prefetch[0]] else [])
      else
        && t == s.(dispatch := PopAsleep)
        && Step(t, PopTimeout) == s && Step(Step(t, PopWake), PopTimeout) == s
  {
    PopIsForward(s.depths, s.ring);
    if CanPop(s.ring) {
      PopTakes(s, dupOk);
      FirstWaiting(s.depths, s.ring);
    } else {
      PopWaits(s, dupOk);
    }
  }

  /** The same for pop_prev, which never waits. */
  lemma PrevDecides(s: State, dupOk: bool)
    requires s.ring.Valid(s.depths) && s.dispatch.Ready?
    ensures var z, t := ViewZipper(s.depths, s.ring), Step(s, PrevTry(dupOk));
      if z.history != [] then
        && t.dispatch.Ready? && ViewZipper(t.depths, t.ring) == Backward(z)
        && t.delivered == s.delivered + (if dupOk then [z.history[|z.history| - 1]] else [])
      else t == s
  {
    PopPrevIsBackward(s.depths, s.ring);
  }

  /** What the worker still has to do before its next check. */
  function ToTheCheck(w: Worker): seq<Event> {
    match w
    case Captured(_) => [ReadId, FetchDone(false, ""), BackoffOver, WorkerCheck]
    case Requesting(_, _) => [FetchDone(false, ""), BackoffOver, WorkerCheck]
    case Fetched(_, _) => [WorkerCommit, WorkerCheck]
    case Backoff => [BackoffOver, WorkerCheck]
    case _ => [WorkerCheck]
  }

  /** Once shutdown is requested, the worker ends at its next check, wherever it was, and has then closed
    * everything. */
  lemma ShutdownEndsWorker(s: State)
    requires FdsConserved(s) && SleepersBlocked(s) && s.dispatch.Ready?
    ensures var t := Exec(Step(s, Shutdown), ToTheCheck(Step(s, Shutdown).worker));
      t.worker.Exited? && multiset(t.closed) == multiset(UpTo(t.nextFd))
  {
    var u := Step(s, Shutdown);
    var es := ToTheCheck(u.worker);
    StepConservesFds(s, Shutdown);
    StepKeepsSleepersBlocked(s, Shutdown);
    RunConservesFds(u, es);
    ExitsAtTheCheck(u);
  }

  lemma CheckExits(u: State)
    requires u.ring.Valid(u.depths) && u.shutdown && (u.worker.AtLoop? || u.worker.Exited?)
    ensures Step(u, WorkerCheck).worker.Exited? && Exec(u, [WorkerCheck]).worker.Exited?
  {
    ExecFirst(u, WorkerCheck, []);
    assert [WorkerCheck] + [] == [WorkerCheck];
  }

  lemma BackoffExits(u: State)
    requires u.ring.Valid(u.depths) && u.shutdown && u.worker.Backoff?
    ensures Exec(u, [BackoffOver, WorkerCheck]).worker.Exited?
  {
    TwoSteps(u, BackoffOver, WorkerCheck);
    CheckExits(Step(u, BackoffOver));
  }

  lemma RequestExits(u: State)
    requires u.ring.Valid(u.depths) && u.shutdown && u.worker.Requesting?
    ensures Exec(u, [FetchDone(false, ""), BackoffOver, WorkerCheck]).worker.Exited?
  {
    ExecFirst(u, FetchDone(false, ""), [BackoffOver, WorkerCheck]);
    assert [FetchDone(false, "")] + [BackoffOver, WorkerCheck] == [FetchDone(false, ""), BackoffOver, WorkerCheck];
    BackoffExits(Step(u, FetchDone(false, "")));
  }

  lemma CapturedExits(u: State)
    requires u.ring.Valid(u.depths) && u.shutdown && u.worker.Captured?
    ensures Exec(u, [ReadId, FetchDone(false, ""), BackoffOver, WorkerCheck]).worker.Exited?
  {
    var es := [FetchDone(false, ""), BackoffOver, WorkerCheck];
    ExecFirst(u, ReadId, es);
    assert [ReadId] + es == [ReadId, FetchDone(false, ""), BackoffOver, WorkerCheck];
    var v := Step(u, ReadId);
    if v.worker.Requesting? {
      RequestExits(v);
    } else {
      ExecFirst(v, FetchDone(false, ""), [BackoffOver, WorkerCheck]);
      assert [FetchDone(false, "")] + [BackoffOver, WorkerCheck] == es;
      BackoffExits(v);
    }
  }

  lemma FetchedExits(u: State)
    requires u.ring.Valid(u.depths) && u.shutdown && u.worker.Fetched?
    ensures Exec(u, [WorkerCommit, WorkerCheck]).worker.Exited?
  {
    TwoSteps(u, WorkerCommit, WorkerCheck);
    CheckExits(Step(u, WorkerCommit));
  }

  lemma ExitsAtTheCheck(u: State)
    requires u.ring.Valid(u.depths) && u.shutdown && !u.worker.Asleep?
    ensures Exec(u, ToTheCheck(u.worker)).worker.Exited?
  {
    if u.worker.Captured? {
      CapturedExits(u);
    } else if u.worker.Requesting? {
      RequestExits(u);
    } else if u.worker.Fetched? {
      FetchedExits(u);
    } else if u.worker.Backoff? {
      BackoffExits(u);
    } else {
      CheckExits(u);
    }
  }

  // ---------------------------------------------------------------------------------------
  // No stale photo
  // ---------------------------------------------------------------------------------------

  /** Fewer than 2^32 invalidations since the running fetch captured its generation. */
  predicate WithinWord(s: State) {
    InFlight(s.worker) ==> s.invalidations < s.worker.epoch + UINT32_MODULUS
  }

  ghost predicate RunWithinWord(s: State, es: seq<Event>)
    requires s.ring.Valid(s.depths)
    decreases |es|
  {
    && WithinWord(s)
    && (es != [] ==> RunWithinWord(Step(s, es[0]), es[1..]))
  }

  function FetchId(w: Worker): Option<nat> {
    if w.Requesting? then Some(w.id) else if w.Fetched? then Some(w.photo.registration) else None
  }

  predicate AllUnder(photos: seq<Photo>, registration: nat) {
    forall i :: 0 <= i < |photos| ==> photos[i].registration == registration
  }

  ghost predicate NoStale(s: State) {
    && s.ring.Valid(s.depths)
    && (InFlight(s.worker) ==> s.worker.epoch <= s.invalidations)
    && (!s.dispatch.Installed? ==> AllUnder(s.ring.Live(), s.registration))
    && (!s.dispatch.Installed? && FetchId(s.worker).Some? && s.worker.epoch == s.invalidations ==>
          FetchId(s.worker).value == s.registration)
  }

  lemma PlaceUnder(d: Depths, r: Ring, p: Photo)
    requires r.Valid(d) && AllUnder(r.Live(), p.registration)
    ensures AllUnder(Place(d, r, p).ring.Live(), p.registration)
  {
    PlacedLive(d, r, p);
  }

  /** The commit that goes wrong: the generation looks unchanged, an id has been installed since the
    * worker read its own, and there is room. */
  predicate StaleCommit(s: State, e: Event)
    requires s.ring.Valid(s.depths)
  {
    && e.WorkerCommit? && s.worker.Fetched? && !s.shutdown && !s.dispatch.Installed?
    && Generation(s.worker.epoch) == Generation(s.invalidations)
    && s.worker.photo.registration != s.registration
    && Place(s.depths, s.ring, s.worker.photo).stored
  }

  /** It takes a positive multiple of 2^32 invalidations during the fetch. */
  lemma StaleCommitIsWrap(s: State, e: Event)
    requires NoStale(s) && StaleCommit(s, e)
    ensures s.worker.epoch + UINT32_MODULUS <= s.invalidations
    ensures (s.invalidations - s.worker.epoch) % UINT32_MODULUS == 0
  {
    if s.invalidations < s.worker.epoch + UINT32_MODULUS {
      ModDistinct(s.worker.epoch, s.invalidations, UINT32_MODULUS);
    }
  }

  lemma CommitKeepsNoStaleIff(s: State)
    requires NoStale(s) && s.worker.Fetched?
    ensures NoStale(StepCommit(s)) <==> !StaleCommit(s, WorkerCommit)
  {
    var p := s.worker.photo;
    if Generation(s.worker.epoch) == Generation(s.invalidations) && !s.shutdown && !s.dispatch.Installed? {
      if p.registration == s.registration {
        PlaceUnder(s.depths, s.ring, p);
      } else {
        StoredLast(s.depths, s.ring, p);
      }
    }
  }

  lemma StoredLast(d: Depths, r: Ring, p: Photo)
    requires r.Valid(d)
    ensures var q := Place(d, r, p);
      if q.stored then p in q.ring.Live() else q.ring == r
  {
    PlacedLive(d, r, p);
  }

  /** Steps that neither change what was fetched under which id nor put anything into the ring. */
  predicate KeepsIds(s: State, e: Event) {
    || e.WorkerWake? || e.BackoffOver? || e.PopTry? || e.PopWake? || e.PopTimeout? || e.PrevTry? || e.Shutdown?
    || (e.WorkerCheck? && !s.worker.AtLoop?) || (e.WorkerCheck? && s.shutdown)
  }

  lemma IdsKept(s: State, e: Event)
    requires s.ring.Valid(s.depths) && KeepsIds(s, e)
    ensures var t := Step(s, e);
      && t.registration == s.registration && t.invalidations == s.invalidations
      && t.dispatch.Installed? == s.dispatch.Installed?
      && (t.worker == s.worker || !InFlight(t.worker))
      && (t.ring == EMPTY_RING || (t.ring.head == s.ring.head && t.ring.pushed == s.ring.pushed))
  {
  }

  lemma SameIdsNotStale(s: State, t: State)
    requires NoStale(s) && t.ring.Valid(t.depths)
    requires t.registration == s.registration && t.invalidations == s.invalidations
    requires t.dispatch.Installed? == s.dispatch.Installed?
    requires t.worker == s.worker || !InFlight(t.worker)
    requires t.ring == EMPTY_RING || (t.ring.head == s.ring.head && t.ring.pushed == s.ring.pushed)
    ensures NoStale(t)
  {
    if t.ring != EMPTY_RING {
      assert t.ring.Live() == s.ring.Live();
    }
  }

  lemma FetchKeepsNoStale(s: State, e: Event)
    requires NoStale(s) && (e.WorkerCheck? || e.ReadId? || e.FetchDone?) && !KeepsIds(s, e)
    ensures NoStale(Step(s, e))
  {
  }

  lemma ReregisterKeepsNoStale(s: State, e: Event)
    requires NoStale(s) && (e.InstallId? || e.Invalidate?)
    ensures NoStale(Step(s, e))
  {
  }

  /** Exactly the stale commits break the invariant. */
  lemma StepKeepsNoStaleIff(s: State, e: Event)
    requires NoStale(s)
    ensures NoStale(Step(s, e)) <==> !StaleCommit(s, e)
  {
    if e.WorkerCommit? {
      if s.worker.Fetched? { CommitKeepsNoStaleIff(s); }
    } else if KeepsIds(s, e) {
      IdsKept(s, e);
      SameIdsNotStale(s, Step(s, e));
    } else if e.InstallId? || e.Invalidate? {
      ReregisterKeepsNoStale(s, e);
    } else {
      FetchKeepsNoStale(s, e);
    }
  }

  ghost predicate NoStaleCommit(s: State, es: seq<Event>)
    requires s.ring.Valid(s.depths)
    decreases |es|
  {
    es != [] ==> !StaleCommit(s, es[0]) && NoStaleCommit(Step(s, es[0]), es[1..])
  }

  ghost predicate NeverStale(s: State, es: seq<Event>)
    requires s.ring.Valid(s.depths)
    decreases |es|
  {
    NoStale(s) && (es != [] ==> NeverStale(Step(s, es[0]), es[1..]))
  }

  /** For every run: outside the window between installing an id and finishing the invalidate, every
    * photo in the ring is always of the installed registration, if and only if no commit is stale. */
  lemma {:induction false} NeverStaleIff(s: State, es: seq<Event>)
    requires NoStale(s)
    ensures NeverStale(s, es) <==> NoStaleCommit(s, es)
    decreases |es|
  {
    if es != [] {
      StepKeepsNoStaleIff(s, es[0]);
      if !StaleCommit(s, es[0]) {
        NeverStaleIff(Step(s, es[0]), es[1..]);
      }
    }
  }

  /** Fewer than 2^32 invalidations during one fetch are enough for that. */
  lemma {:induction false} WithinWordIsNeverStale(s: State, es: seq<Event>)
    requires NoStale(s) && RunWithinWord(s, es)
    ensures NoStaleCommit(s, es)
    decreases |es|
  {
    if es != [] {
      if StaleCommit(s, es[0]) {
        StaleCommitIsWrap(s, es[0]);
      }
      StepKeepsNoStaleIff(s, es[0]);
      WithinWordIsNeverStale(Step(s, es[0]), es[1..]);
    }
  }

  /** What a step delivers: nothing, or the photo at a position that is held. */
  lemma DeliversHeld(s: State, e: Event) returns (n: nat)
    requires s.ring.Valid(s.depths) && Step(s, e).delivered != s.delivered
    ensures s.ring.head <= n < s.ring.Tail() && !s.dispatch.Installed?
    ensures Step(s, e).delivered == s.delivered + [s.ring.pushed[n]]
  {
    n := if e.PopTry? then s.ring.cursor + 1 else s.ring.cursor - 1;
  }

  /** What a step hands out, if anything, is under the installed registration. */
  lemma DeliveryNotStale(s: State, e: Event)
    requires NoStale(s)
    ensures var t := Step(s, e);
      || t.delivered == s.delivered
      || (exists p: Photo :: p.registration == s.registration && t.delivered == s.delivered + [p])
  {
    if Step(s, e).delivered != s.delivered {
      var n := DeliversHeld(s, e);
      assert s.ring.pushed[n] == s.ring.Live()[n - s.ring.head];
    }
  }

  lemma {:induction false} NeverStaleAtEnd(s: State, es: seq<Event>)
    requires s.ring.Valid(s.depths) && NeverStale(s, es)
    ensures NoStale(Exec(s, es))
    decreases |es|
  {
    if es != [] {
      NeverStaleAtEnd(Step(s, es[0]), es[1..]);
    }
  }

  lemma RunKeepsNoStale(s: State, es: seq<Event>)
    requires NoStale(s) && RunWithinWord(s, es)
    ensures NoStale(Exec(s, es))
  {
    WithinWordIsNeverStale(s, es);
    NeverStaleIff(s, es);
    NeverStaleAtEnd(s, es);
  }

  /** From start-up: after any run of both threads without a stale commit, whatever the next step hands
    * out was fetched under the registration installed at that moment. */
  lemma EveryDeliveryFresh(d: Depths, es: seq<Event>, e: Event)
    requires d.Valid() && NoStaleCommit(Init(d), es)
    ensures NoStale(Exec(Init(d), es))
    ensures var s := Exec(Init(d), es);
      var t := Step(s, e);
      || t.delivered == s.delivered
      || (exists p: Photo :: p.registration == s.registration && t.delivered == s.delivered + [p])
  {
    NeverStaleIff(Init(d), es);
    NeverStaleAtEnd(Init(d), es);
    DeliveryNotStale(Exec(Init(d), es), e);
  }

  /** In particular after any run in which fewer than 2^32 invalidations pass during one fetch. */
  lemma EveryDeliveryFreshWithinWord(d: Depths, es: seq<Event>, e: Event)
    requires d.Valid() && RunWithinWord(Init(d), es)
    ensures NoStale(Exec(Init(d), es))
    ensures var s := Exec(Init(d), es);
      var t := Step(s, e);
      || t.delivered == s.delivered
      || (exists p: Photo :: p.registration == s.registration && t.delivered == s.delivered + [p])
  {
    WithinWordIsNeverStale(Init(d), es);
    EveryDeliveryFresh(d, es, e);
  }

  function Reregister(n: nat): (es: seq<Event>)
  {
    if n == 0 then [] else [InstallId, Invalidate] + Reregister(n - 1)
  }

  lemma {:induction false} ReregisterDuringFetch(s: State, n: nat)
    requires s.ring == EMPTY_RING && s.depths.Valid() && s.dispatch.Ready? && s.worker.Fetched?
    ensures Exec(s, Reregister(n)) ==
      s.(invalidations := s.invalidations + n, registration := s.registration + n,
         furthest := if n == 0 then s.furthest else -1)
    decreases n
  {
    if n > 0 {
      var es := Reregister(n);
      assert es[1..][1..] == Reregister(n - 1);
      var u := Step(s, es[0]);
      var t := Step(u, es[1]);
      assert Fds(u.ring.Live()) == [];
      assert t == s.(invalidations := s.invalidations + 1, registration := s.registration + 1, furthest := -1);
      assert Exec(s, es) == Exec(u, es[1..]) == Exec(t, es[1..][1..]);
      ReregisterDuringFetch(t, n - 1);
    }
  }

  /** From start-up to a fetch in the worker's hand, under the first registration. */
  lemma FirstFetch(d: Depths) returns (es: seq<Event>, s: State)
    requires d.Valid()
    ensures s == Exec(Init(d), es)
    ensures s == Init(d).(invalidations := 1, registration := 1, nextFd := 1,
                          worker := Fetched(1, Photo(0, 1, "")))
  {
    var s0 := Init(d);
    var s1 := Step(s0, InstallId);
    var s2 := Step(s1, Invalidate);
    assert Fds(EMPTY_RING.Live()) == [];
    assert s2 == s0.(invalidations := 1, registration := 1);
    var s3 := Step(s2, WorkerCheck);
    var s4 := Step(s3, ReadId);
    s := Step(s4, FetchDone(true, ""));
    es := [];
    ExecFirst(s4, FetchDone(true, ""), es); es := [FetchDone(true, "")] + es;
    ExecFirst(s3, ReadId, es); es := [ReadId] + es;
    ExecFirst(s2, WorkerCheck, es); es := [WorkerCheck] + es;
    ExecFirst(s1, Invalidate, es); es := [Invalidate] + es;
    ExecFirst(s0, InstallId, es); es := [InstallId] + es;
  }

  /** The bound is tight: with 2^32 re-registrations during one fetch the counter comes round, the
    * result is accepted, and the ring then holds a photo of registration 1 under registration
    * 2^32 + 1. */
  lemma WordWrapAdmitsStalePhoto(d: Depths) returns (es: seq<Event>)
    requires d.Valid()
    ensures var t := Exec(Init(d), es);
      && t.dispatch.Ready? && t.registration == UINT32_MODULUS + 1
      && |t.ring.Live()| == 1 && t.ring.Live()[0].registration == 1
  {
    var fetch, s := FirstFetch(d);
    var spin := Reregister(UINT32_MODULUS);
    ReregisterDuringFetch(s, UINT32_MODULUS);
    ModAddModulus(1, UINT32_MODULUS);
    es := (fetch + spin) + [WorkerCommit];
    ExecConcat(Init(d), fetch, spin);
    ExecConcat(Init(d), fetch + spin, [WorkerCommit]);
    ExecFirst(Exec(s, spin), WorkerCommit, []);
    assert [WorkerCommit] + [] == [WorkerCommit];
  }

  /** Every invariant above holds initially, so the run theorems apply from start-up. */
  lemma InitSatisfiesInvariants(d: Depths)
    requires d.Valid()
    ensures SleepersBlocked(Init(d)) && HistoryKept(Init(d)) && FdsConserved(Init(d)) && NoStale(Init(d))
    ensures WithinWord(Init(d))
  {
    assert Fds(EMPTY_RING.Live()) == [] && UpTo(0) == [];
  }

  // ---------------------------------------------------------------------------------------
  // Zipper refinement and replay
  // ---------------------------------------------------------------------------------------

  datatype ZipperOp = Stay | Ahead | Back | Append(p: Photo, dropOldest: bool) | Clear

  ghost predicate Applies(z: Zipper, op: ZipperOp) {
    && (op.Ahead? ==> z.prefetch != [])
    && (op.Back? || (op.Append? && op.dropOldest) ==> z.history != [])
  }

  function Apply(z: Zipper, op: ZipperOp): Zipper
    requires Applies(z, op)
  {
    match op
    case Stay => z
    case Ahead => Forward(z)
    case Back => Backward(z)
    case Append(p, drop) => Zipper(if drop then z.history[1..] else z.history, z.current, z.prefetch + [p])
    case Clear => Zipper([], None, [])
  }

  /** Which zipper operation a step performs. */
  function OpOf(s: State, e: Event): ZipperOp
    requires s.ring.Valid(s.depths)
  {
    var t := Step(s, e);
    if t.ring == s.ring then Stay
    else match e
      case PopTry(_) => Ahead
      case PrevTry(_) => Back
      case WorkerCommit => Append(t.ring.pushed[|t.ring.pushed| - 1], s.ring.Occupied() >= s.depths.Capacity())
      case _ => Clear
  }

  lemma CommitRefinesZipper(s: State)
    requires s.ring.Valid(s.depths) && s.worker.Fetched? && StepCommit(s).ring != s.ring
    ensures var t, z := StepCommit(s), ViewZipper(s.depths, s.ring);
      && t.ring.pushed == s.ring.pushed + [s.worker.photo]
      && (s.ring.Occupied() >= s.depths.Capacity() ==> z.history != [])
      && ViewZipper(s.depths, t.ring) ==
           Apply(z, Append(s.worker.photo, s.ring.Occupied() >= s.depths.Capacity()))
  {
    PlaceOnZipper(s.depths, s.ring, s.worker.photo);
  }

  lemma OtherRingChanges(s: State, e: Event)
    requires s.ring.Valid(s.depths) && !e.WorkerCommit? && Step(s, e).ring != s.ring
    ensures match e
      case PopTry(_) => CanPop(s.ring) && Step(s, e).ring == s.ring.(cursor := s.ring.cursor + 1)
      case PrevTry(_) => CanPopPrev(s.ring) && Step(s, e).ring == s.ring.(cursor := s.ring.cursor - 1)
      case _ => Step(s, e).ring == EMPTY_RING && (e.Invalidate? || (e.WorkerCheck? && s.shutdown))
  {
  }

  lemma RingMoveRefinesZipper(d: Depths, r: Ring, q: Ring, op: ZipperOp)
    requires r.Valid(d)
    requires match op
      case Ahead => CanPop(r) && q == r.(cursor := r.cursor + 1)
      case Back => CanPopPrev(r) && q == r.(cursor := r.cursor - 1)
      case Clear => d.Valid() && q == EMPTY_RING
      case _ => false
    ensures q.Valid(d) && Applies(ViewZipper(d, r), op)
    ensures ViewZipper(d, q) == Apply(ViewZipper(d, r), op)
  {
    match op {
      case Ahead => PopIsForward(d, r);
      case Back => PopPrevIsBackward(d, r);
      case _ =>
    }
  }

  lemma OtherStepRefinesZipper(s: State, e: Event)
    requires s.ring.Valid(s.depths) && !e.WorkerCommit? && Step(s, e).ring != s.ring
    ensures var z, op := ViewZipper(s.depths, s.ring), OpOf(s, e);
      Applies(z, op) && ViewZipper(s.depths, Step(s, e).ring) == Apply(z, op)
  {
    OtherRingChanges(s, e);
    RingMoveRefinesZipper(s.depths, s.ring, Step(s, e).ring, OpOf(s, e));
  }

  /** Every step of either thread is one zipper operation, or invisible. */
  lemma StepRefinesZipper(s: State, e: Event)
    requires s.ring.Valid(s.depths)
    ensures var z, op := ViewZipper(s.depths, s.ring), OpOf(s, e);
      Applies(z, op) && ViewZipper(s.depths, Step(s, e).ring) == Apply(z, op)
  {
    if Step(s, e).ring == s.ring {
    } else if e.WorkerCommit? {
      CommitRefinesZipper(s);
    } else {
      OtherStepRefinesZipper(s, e);
    }
  }

  predicate WorkerEvent(e: Event) {
    e.WorkerCheck? || e.WorkerWake? || e.ReadId? || e.FetchDone? || e.WorkerCommit? || e.BackoffOver?
  }

  predicate OnlyWorkerAnd(es: seq<Event>, move: Event) {
    forall i :: 0 <= i < |es| ==> WorkerEvent(es[i]) || es[i] == move
  }

  function Count(es: seq<Event>, move: Event): nat {
    if es == [] then 0 else (if es[0] == move then 1 else 0) + Count(es[1..], move)
  }

  /** What a worker step cannot disturb: it only appends photos and drops the oldest. */
  lemma WorkerStepKeepsPhotos(s: State, e: Event)
    requires s.ring.Valid(s.depths) && !s.shutdown && WorkerEvent(e)
    ensures var t := Step(s, e);
      && !t.shutdown && t.ring.cursor == s.ring.cursor
      && s.ring.pushed <= t.ring.pushed && t.delivered == s.delivered
      && (s.dispatch.Ready? ==> t.dispatch.Ready?)
  {
  }

  /** The k photos before position c, nearest first. */
  function Preceding(photos: seq<Photo>, c: int, k: nat): (ps: seq<Photo>)
    requires k == 0 || k <= c <= |photos|
    ensures |ps| == k
    ensures forall i :: 0 <= i < k ==> ps[i] == photos[c - 1 - i]
  {
    if k == 0 then [] else Reverse(photos[c - k..c])
  }

  lemma PrecedingFirst(photos: seq<Photo>, c: nat, k: nat)
    requires k < c <= |photos|
    ensures Preceding(photos, c, k + 1) == [photos[c - 1]] + Preceding(photos, c - 1, k)
  {
  }

  lemma PrecedingReversed(photos: seq<Photo>, c: nat, k: nat)
    requires 0 < k <= c < |photos|
    ensures photos[c - k + 1..c + 1] == Reverse(Preceding(photos, c, k)[..k - 1]) + [photos[c]]
  {
  }

  /** t is s after k successful pop_prev calls and any worker steps. */
  ghost predicate WalkedBack(s: State, t: State, k: nat) {
    && !t.shutdown && t.dispatch.Ready? && s.ring.pushed <= t.ring.pushed
    && (k == 0 || k <= s.ring.cursor <= |s.ring.pushed|)
    && t.ring.cursor == s.ring.cursor - k
    && t.delivered == s.delivered + Preceding(s.ring.pushed, s.ring.cursor, k)
  }

  lemma WorkerThenWalkBack(s: State, u: State, t: State, k: nat)
    requires s.ring.cursor <= |s.ring.pushed| && s.ring.pushed <= u.ring.pushed
    requires u.ring.cursor == s.ring.cursor && u.delivered == s.delivered
    requires WalkedBack(u, t, k)
    ensures WalkedBack(s, t, k)
  {
    if k > 0 {
      assert Preceding(u.ring.pushed, u.ring.cursor, k) == Preceding(s.ring.pushed, s.ring.cursor, k);
    }
  }

  lemma PrecedingAppended(before: seq<Photo>, photos: seq<Photo>, c: nat, k: nat)
    requires k < c <= |photos|
    ensures before + [photos[c - 1]] + Preceding(photos, c - 1, k) == before + Preceding(photos, c, k + 1)
  {
    PrecedingFirst(photos, c, k);
  }

  lemma PrevThenWalkBack(s: State, u: State, t: State, k: nat)
    requires 0 < s.ring.cursor < |s.ring.pushed|
    requires u.ring == s.ring.(cursor := s.ring.cursor - 1)
    requires u.delivered == s.delivered + [s.ring.pushed[s.ring.cursor - 1]]
    requires WalkedBack(u, t, k)
    ensures WalkedBack(s, t, k + 1)
  {
    PrecedingAppended(s.delivered, s.ring.pushed, s.ring.cursor, k);
  }

  /** What a worker step or a walking step leaves true. */
  lemma WalkGoesOn(s: State, e: Event)
    requires s.ring.Valid(s.depths) && !s.shutdown && s.dispatch.Ready?
    requires WorkerEvent(e) || e == PrevTry(true) || (e == PopTry(true) && CanPop(s.ring))
    ensures !Step(s, e).shutdown && Step(s, e).dispatch.Ready?
  {
  }

  /** k of the calls behind t delivered, or all did and t is k photos back. */
  ghost predicate WalkedAtMost(s: State, t: State, k: nat) {
    |t.delivered| < |s.delivered| + k || WalkedBack(s, t, k)
  }

  lemma PrevMoves(s: State)
    requires s.ring.Valid(s.depths) && CanPopPrev(s.ring)
    ensures var u := StepPrev(s, true);
      && u.ring == s.ring.(cursor := s.ring.cursor - 1)
      && u.delivered == s.delivered + [s.ring.pushed[s.ring.cursor - 1]]
  {
  }

  lemma WorkerStepBack(s: State, e: Event, t: State, k: nat)
    requires s.ring.Valid(s.depths) && !s.shutdown && WorkerEvent(e)
    requires WalkedAtMost(Step(s, e), t, k)
    ensures WalkedAtMost(s, t, k)
  {
    WorkerStepKeepsPhotos(s, e);
    if WalkedBack(Step(s, e), t, k) {
      WorkerThenWalkBack(s, Step(s, e), t, k);
    }
  }

  lemma PrevStepBack(s: State, t: State, k: nat)
    requires s.ring.Valid(s.depths)
    requires WalkedAtMost(StepPrev(s, true), t, k)
    ensures WalkedAtMost(s, t, k + 1)
  {
    if CanPopPrev(s.ring) {
      PrevMoves(s);
      if WalkedBack(StepPrev(s, true), t, k) {
        PrevThenWalkBack(s, StepPrev(s, true), t, k);
      }
    }
  }

  /** Walking back, with any worker steps in between: at most one photo per pop_prev, and when all
    * k succeed, the k photos before the cursor, nearest first. */
  lemma {:induction false} WalkBack(s: State, es: seq<Event>)
    requires s.ring.Valid(s.depths) && !s.shutdown && s.dispatch.Ready?
    requires OnlyWorkerAnd(es, PrevTry(true))
    ensures WalkedAtMost(s, Exec(s, es), Count(es, PrevTry(true)))
    decreases |es|
  {
    if es == [] {
      assert WalkedBack(s, s, 0);
    } else {
      WalkGoesOn(s, es[0]);
      WalkBack(Step(s, es[0]), es[1..]);
      if WorkerEvent(es[0]) {
        WorkerStepBack(s, es[0], Exec(s, es), Count(es, PrevTry(true)));
      } else {
        PrevStepBack(s, Exec(s, es), Count(es[1..], PrevTry(true)));
      }
    }
  }

  /** The k photos from position n on. */
  function Following(photos: seq<Photo>, n: nat, k: nat): (ps: seq<Photo>)
    requires n + k <= |photos|
    decreases k
  {
    if k == 0 then [] else [photos[n]] + Following(photos, n + 1, k - 1)
  }

  lemma {:induction false} FollowingIsSlice(photos: seq<Photo>, n: nat, k: nat)
    requires n + k <= |photos|
    ensures Following(photos, n, k) == photos[n..n + k]
    decreases k
  {
    if k > 0 {
      FollowingIsSlice(photos, n + 1, k - 1);
      assert photos[n..n + k] == [photos[n]] + photos[n + 1..n + k];
    }
  }

  lemma {:induction false} FollowingInMore(photos: seq<Photo>, more: seq<Photo>, n: nat, k: nat)
    requires n + k <= |photos| && photos <= more
    ensures Following(photos, n, k) == Following(more, n, k)
    decreases k
  {
    if k > 0 {
      FollowingInMore(photos, more, n + 1, k - 1);
    }
  }

  /** t is s after k pops that all succeeded and any worker steps. */
  ghost predicate WalkedForward(s: State, t: State, k: nat) {
    && -1 <= s.ring.cursor && s.ring.cursor + 1 + k <= |s.ring.pushed|
    && t.ring.cursor == s.ring.cursor + k
    && t.delivered == s.delivered + Following(s.ring.pushed, s.ring.cursor + 1, k)
  }

  lemma AppendAssociates<T>(a: seq<T>, b: seq<T>, c: seq<T>)
    ensures a + b + c == a + (b + c)
  {
  }

  lemma PopThenWalkForward(s: State, u: State, t: State, k: nat)
    requires -1 <= s.ring.cursor && s.ring.cursor + 1 < |s.ring.pushed|
    requires u.ring.pushed == s.ring.pushed && u.ring.cursor == s.ring.cursor + 1
    requires u.delivered == s.delivered + [s.ring.pushed[s.ring.cursor + 1]]
    requires WalkedForward(u, t, k)
    ensures WalkedForward(s, t, k + 1)
  {
    var n := s.ring.cursor + 1;
    AppendAssociates(s.delivered, [s.ring.pushed[n]], Following(s.ring.pushed, n + 1, k));
  }

  lemma PopMoves(s: State)
    requires s.ring.Valid(s.depths) && !s.shutdown && s.dispatch.Ready? && CanPop(s.ring)
    ensures var u := Step(s, PopTry(true));
      && !u.shutdown && u.dispatch.Ready?
      && u.ring.cursor == s.ring.cursor + 1 && u.ring.pushed == s.ring.pushed
      && u.delivered == s.delivered + [s.ring.pushed[s.ring.cursor + 1]]
  {
  }

  lemma WorkerThenWalkForward(s: State, u: State, t: State, k: nat)
    requires s.ring.pushed <= u.ring.pushed && s.ring.cursor + k < |s.ring.pushed|
    requires u.ring.cursor == s.ring.cursor && u.delivered == s.delivered
    requires WalkedForward(u, t, k)
    ensures WalkedForward(s, t, k)
  {
    FollowingInMore(s.ring.pushed, u.ring.pushed, s.ring.cursor + 1, k);
  }

  /** What a step leaves of the room for k more pops. */
  lemma ForwardRoom(s: State, e: Event, k: nat)
    requires s.ring.Valid(s.depths) && !s.shutdown && s.dispatch.Ready?
    requires WorkerEvent(e) || e == PopTry(true)
    requires s.ring.cursor + k + (if WorkerEvent(e) then 0 else 1) < s.ring.Tail()
    ensures var u := Step(s, e); !u.shutdown && u.dispatch.Ready? && u.ring.cursor + k < u.ring.Tail()
  {
    WalkGoesOn(s, e);
    if WorkerEvent(e) { WorkerStepKeepsPhotos(s, e); } else { PopMoves(s); }
  }

  lemma WorkerStepForward(s: State, e: Event, t: State, k: nat)
    requires s.ring.Valid(s.depths) && !s.shutdown && WorkerEvent(e)
    requires s.ring.cursor + k < s.ring.Tail() && WalkedForward(Step(s, e), t, k)
    ensures WalkedForward(s, t, k)
  {
    WorkerStepKeepsPhotos(s, e);
    WorkerThenWalkForward(s, Step(s, e), t, k);
  }

  lemma PopStepForward(s: State, t: State, k: nat)
    requires s.ring.Valid(s.depths) && !s.shutdown && s.dispatch.Ready? && CanPop(s.ring)
    requires WalkedForward(Step(s, PopTry(true)), t, k)
    ensures WalkedForward(s, t, k + 1)
  {
    PopMoves(s);
    PopThenWalkForward(s, Step(s, PopTry(true)), t, k);
  }

  /** Walking forward over photos already stored never blocks and delivers them in order. */
  lemma {:induction false} WalkForward(s: State, es: seq<Event>)
    requires s.ring.Valid(s.depths) && !s.shutdown && s.dispatch.Ready?
    requires OnlyWorkerAnd(es, PopTry(true))
    requires s.ring.cursor + Count(es, PopTry(true)) < s.ring.Tail()
    ensures WalkedForward(s, Exec(s, es), Count(es, PopTry(true)))
    decreases |es|
  {
    if es == [] {
      assert WalkedForward(s, s, 0);
    } else {
      var k := Count(es[1..], PopTry(true));
      ForwardRoom(s, es[0], k);
      WalkForward(Step(s, es[0]), es[1..]);
      if WorkerEvent(es[0]) {
        WorkerStepForward(s, es[0], Exec(s, es), k);
      } else {
        PopStepForward(s, Exec(s, es), k);
      }
    }
  }

  /** `more` is the store by the time of the way forward; `there` and `back` are what has been delivered
    * at the far end and at the end. */
  lemma ReplayPhotos(d: seq<Photo>, photos: seq<Photo>, more: seq<Photo>, c: nat, k: nat,
                     there: seq<Photo>, back: seq<Photo>)
    requires 0 < k <= c < |photos| && photos <= more
    requires there == d + Preceding(photos, c, k) && back == there + more[c - k + 1..c + 1]
    ensures d <= there && |there| == |d| + k
    ensures back == there + Reverse(there[|d|..][..k - 1]) + [photos[c]]
  {
    var ps := Preceding(photos, c, k);
    PrecedingReversed(photos, c, k);
    assert more[c - k + 1..c + 1] == photos[c - k + 1..c + 1];
    Appended(d, ps, Reverse(ps[..k - 1]), [photos[c]]);
  }

  lemma ReplaySeqs(s: State, m: State, t: State, k: nat)
    requires 0 < k && s.ring.cursor < |s.ring.pushed| && WalkedBack(s, m, k) && WalkedForward(m, t, k)
    ensures s.delivered <= m.delivered && |m.delivered| == |s.delivered| + k
    ensures t.delivered ==
      m.delivered + Reverse(m.delivered[|s.delivered|..][..k - 1]) + [s.ring.pushed[s.ring.cursor]]
  {
    var c := s.ring.cursor;
    FollowingIsSlice(m.ring.pushed, c - k + 1, k);
    ReplayPhotos(s.delivered, s.ring.pushed, m.ring.pushed, c, k, m.delivered, t.delivered);
  }

  lemma Appended<T>(a: seq<T>, b: seq<T>, c: seq<T>, d: seq<T>)
    ensures (a + b)[|a|..] == b && a + b + (c + d) == a + b + c + d
  {
  }

  /** k successful pop_prev calls followed by k pops: the pops succeed and return the same photos
    * in reverse order, ending on the photo that was current, whatever the worker fetches, stores
    * and evicts in between. */
  lemma Replay(s: State, back: seq<Event>, forth: seq<Event>)
    requires s.ring.Valid(s.depths) && !s.shutdown && s.dispatch.Ready?
    requires OnlyWorkerAnd(back, PrevTry(true)) && OnlyWorkerAnd(forth, PopTry(true))
    requires 0 < Count(back, PrevTry(true)) == Count(forth, PopTry(true))
    requires |Exec(s, back).delivered| == |s.delivered| + Count(back, PrevTry(true))
    ensures var k, m, t := Count(back, PrevTry(true)), Exec(s, back), Exec(Exec(s, back), forth);
      && 0 <= s.ring.cursor < |s.ring.pushed|
      && t.ring.cursor == s.ring.cursor
      && s.delivered <= m.delivered
      && t.delivered == m.delivered + Reverse(m.delivered[|s.delivered|..][..k - 1]) + [s.ring.pushed[s.ring.cursor]]
  {
    WalkBack(s, back);
    var k, m, c := Count(back, PrevTry(true)), Exec(s, back), s.ring.cursor;
    WalkForward(m, forth);
    ReplaySeqs(s, m, Exec(m, forth), k);
  }
}
