/** The occupancy-driven display controller of ambience/display.c, with its force-off latch and the
  * slideshow it starts and stops through ambience/main.c's callbacks.
  */
module DisplayLatch {
  /** What can reach the controller; `callOk` is the outcome of the Display bus call, if this event
    * makes one. */
  datatype Event =
    | OccupancyReport(occupied: bool, distance: nat, callOk: bool)
    | OccupancyServiceUp
    | OccupancyServiceDown(callOk: bool)
    | ForceOn(callOk: bool)
    | ForceOff(callOk: bool)

  /** A call of Display.On or Display.Off; `latched` is the latch at that moment. */
  datatype BusCall = BusCall(on: bool, ok: bool, latched: bool)

  datatype State = State(
    occupied: bool,            // last_occupancy_report
    distance: nat,
    latched: bool,             // force_off_latched
    requested: int,            // requested_state: 1 on, 0 off, -1 unknown
    slideshowRunning: bool,
    calls: seq<BusCall>)

  const INITIAL := State(false, 0, false, 0, false, [])

  function Update(s: State, callOk: bool): State {
    if s.requested == (if s.occupied then 1 else 0) then s
    else
      var called := s.(calls := s.calls + [BusCall(s.occupied, callOk, s.latched)]);
      if callOk then called.(requested := if s.occupied then 1 else 0, slideshowRunning := s.occupied)
      else called.(requested := -1)
  }

  function Handle(s: State, e: Event): State {
    match e
    case OccupancyReport(occupied, distance, ok) =>
      if s.latched && occupied then s
      else Update(s.(latched := s.latched && occupied, occupied := occupied, distance := distance), ok)
    case OccupancyServiceUp => s
    case OccupancyServiceDown(ok) => Update(s.(latched := false, occupied := false, distance := 0), ok)
    case ForceOn(ok) => Update(s.(latched := false, occupied := true, distance := 0), ok)
    case ForceOff(ok) => Update(s.(latched := true, occupied := false, distance := 0), ok)
  }

  function Run(es: seq<Event>): State {
    if es == [] then INITIAL else Handle(Run(es[..|es| - 1]), es[|es| - 1])
  }

  /** struct Display. */
  class Display {
    var occupied: bool
    var distance: nat
    var latched: bool
    var requested: int
    var slideshowRunning: bool
    var calls: seq<BusCall>

    function View(): State
      reads this
    {
      State(occupied, distance, latched, requested, slideshowRunning, calls)
    }

    constructor ()
      ensures View() == INITIAL
    {
      occupied, distance, latched, requested := false, 0, false, 0;
      slideshowRunning, calls := false, [];
    }

    /** update_display_state, with the slideshow callbacks. */
    method UpdateDisplayState(callOk: bool)
      modifies this
      ensures View() == Update(old(View()), callOk)
    {
      if occupied && requested == 1 {
        return;
      } else if !occupied && requested == 0 {
        return;
      }
      calls := calls + [BusCall(occupied, callOk, latched)];
      if !callOk {
        requested := -1;
      } else {
        requested := if occupied then 1 else 0;
        if occupied {
          slideshowRunning := true;
        } else {
          slideshowRunning := false;
        }
      }
    }

    method OnOccupancyStateChanged(reported: bool, reportedDistance: nat, callOk: bool)
      modifies this
      ensures View() == Handle(old(View()), OccupancyReport(reported, reportedDistance, callOk))
    {
      if latched && reported {
        return;
      }
      if !reported {
        latched := false;
      }
      occupied := reported;
      distance := reportedDistance;
      UpdateDisplayState(callOk);
    }

    method OnOccupancyNameOwnerChanged(up: bool, callOk: bool)
      modifies this
      ensures View() == Handle(old(View()), if up then OccupancyServiceUp else OccupancyServiceDown(callOk))
    {
      if up {
        return;
      }
      latched := false;
      occupied := false;
      distance := 0;
      UpdateDisplayState(callOk);
    }

    method DisplayForceOn(callOk: bool)
      modifies this
      ensures View() == Handle(old(View()), ForceOn(callOk))
    {
      latched := false;
      occupied := true;
      distance := 0;
      UpdateDisplayState(callOk);
    }

    method DisplayForceOff(callOk: bool)
      modifies this
      ensures View() == Handle(old(View()), ForceOff(callOk))
    {
      latched := true;
      occupied := false;
      distance := 0;
      UpdateDisplayState(callOk);
    }
  }

  // ---------------------------------------------------------------------------------------
  // The latch, over whole runs
  // ---------------------------------------------------------------------------------------

  /** The events that decide the latch. */
  predicate Decides(e: Event) {
    e.ForceOff? || e.ForceOn? || e.OccupancyServiceDown? || (e.OccupancyReport? && !e.occupied)
  }

  /** es[i] is the latest deciding event, and it was a force-off. */
  predicate ForcedOffAt(es: seq<Event>, i: int) {
    0 <= i < |es| && es[i].ForceOff? && forall j :: i < j < |es| ==> !Decides(es[j])
  }

  /** For every event sequence and every pattern of failing bus calls: the latch is set exactly when
    * the latest force-off, force-on, vacant report or service loss was a force-off. */
  lemma {:induction false} LatchedIffForcedOff(es: seq<Event>)
    ensures Run(es).latched <==> exists i :: ForcedOffAt(es, i)
    decreases |es|
  {
    if es != [] {
      var n := |es| - 1;
      var init := es[..n];
      LatchedIffForcedOff(init);
      if Decides(es[n]) {
        if es[n].ForceOff? {
          assert ForcedOffAt(es, n);
        }
      } else {
        if i :| ForcedOffAt(init, i) {
          assert ForcedOffAt(es, i);
        }
        if i :| ForcedOffAt(es, i) {
          assert ForcedOffAt(init, i);
        }
      }
    }
  }

  /** No bus call turns the display on while latched, and what was requested is what runs. */
  ghost predicate Safe(s: State) {
    && (forall i :: 0 <= i < |s.calls| ==> !(s.calls[i].on && s.calls[i].latched))
    && (s.latched ==> !s.occupied)
    && (s.requested == 1 ==> s.slideshowRunning)
    && (s.requested == 0 ==> !s.slideshowRunning)
    && (s.requested == (if s.occupied then 1 else 0) || s.requested == -1)
  }

  lemma HandleKeepsSafe(s: State, e: Event)
    requires Safe(s)
    ensures Safe(Handle(s, e))
  {
  }

  /** For every event sequence and every pattern of failing bus calls, provided stopping and starting
    * the slideshow themselves succeed. */
  lemma {:induction false} RunIsSafe(es: seq<Event>)
    ensures Safe(Run(es))
    decreases |es|
  {
    if es != [] {
      RunIsSafe(es[..|es| - 1]);
      HandleKeepsSafe(Run(es[..|es| - 1]), es[|es| - 1]);
    }
  }

  /** The latch suppresses occupied reports completely, and nothing else turns the display on. */
  lemma {:induction false} QuietWhileLatched(es: seq<Event>, fs: seq<Event>)
    requires Run(es).latched
    requires forall i :: 0 <= i < |fs| ==> !Decides(fs[i])
    ensures Run(es + fs) == Run(es)
    decreases |fs|
  {
    if fs == [] {
      assert es + fs == es;
    } else {
      var n := |fs| - 1;
      QuietWhileLatched(es, fs[..n]);
      assert (es + fs)[..|es + fs| - 1] == es + fs[..n];
    }
  }

  /** A failed bus call is retried by the next event the latch lets through, and once a call
    * succeeds, display, slideshow and wish agree. */
  lemma RetryAfterFailure(es: seq<Event>, e: Event)
    requires Run(es).requested == -1 && !e.OccupancyServiceUp?
    requires !(Run(es).latched && e.OccupancyReport? && e.occupied)
    ensures var t := Run(es + [e]);
      && |t.calls| == |Run(es).calls| + 1 && t.calls[|t.calls| - 1].on == t.occupied
      && (t.calls[|t.calls| - 1].ok ==>
            t.requested == (if t.occupied then 1 else 0) && t.slideshowRunning == t.occupied)
      && (!t.calls[|t.calls| - 1].ok ==> t.requested == -1)
  {
    assert (es + [e])[..|es|] == es;
  }

  // ---------------------------------------------------------------------------------------
  // What is wished, and whether it is carried out
  // ---------------------------------------------------------------------------------------

  /** The event asks for the display on. */
  predicate AsksOn(e: Event) { e.ForceOn? || (e.OccupancyReport? && e.occupied) }

  /** es[i] says anything: it is not the service coming up, nor an occupied report while the latest
    * deciding event before it was a force-off. */
  ghost predicate Speaks(es: seq<Event>, i: int)
    requires 0 <= i < |es|
  {
    && !es[i].OccupancyServiceUp?
    && !(es[i].OccupancyReport? && es[i].occupied && exists j :: ForcedOffAt(es[..i], j))
  }

  /** es[i] is the latest event that says anything. */
  ghost predicate LastWord(es: seq<Event>, i: int) {
    0 <= i < |es| && Speaks(es, i) && forall j :: i < j < |es| ==> !Speaks(es, j)
  }

  lemma SpeaksInPrefix(es: seq<Event>, e: Event, i: int)
    requires 0 <= i < |es|
    ensures Speaks(es + [e], i) <==> Speaks(es, i)
  {
    assert (es + [e])[..i] == es[..i];
  }

  lemma LastWordExtends(es: seq<Event>, e: Event, i: int)
    requires !Speaks(es + [e], |es|)
    ensures LastWord(es + [e], i) <==> LastWord(es, i)
  {
    forall j | 0 <= j < |es|
      ensures Speaks(es + [e], j) <==> Speaks(es, j)
    {
      SpeaksInPrefix(es, e, j);
    }
    if LastWord(es + [e], i) {
      assert i != |es|;
      forall j | i < j < |es|
        ensures !Speaks(es, j)
      {
        assert !Speaks(es + [e], j);
      }
    }
  }

  /** For every event sequence: the display is wished on exactly when the latest event that says anything
    * was a force-on or an occupied report. */
  lemma {:induction false} WishedOnIff(es: seq<Event>)
    ensures Run(es).occupied <==> exists i :: LastWord(es, i) && AsksOn(es[i])
    decreases |es|
  {
    if es != [] {
      var n := |es| - 1;
      var init, e := es[..n], es[n];
      WishedOnIff(init);
      LatchedIffForcedOff(init);
      assert es == init + [e];
      if Speaks(es, n) {
        assert LastWord(es, n);
        assert Run(es).occupied == AsksOn(e);
        if i :| LastWord(es, i) && AsksOn(es[i]) {
          assert i == n;
        }
      } else {
        assert Run(es).occupied == Run(init).occupied;
        if i :| LastWord(init, i) && AsksOn(init[i]) {
          LastWordExtends(init, e, i);
          assert LastWord(es, i) && AsksOn(es[i]);
        }
        if i :| LastWord(es, i) && AsksOn(es[i]) {
          LastWordExtends(init, e, i);
          assert LastWord(init, i) && AsksOn(init[i]);
        }
      }
    }
  }

  /** The state s has display and slideshow as the event asked. */
  predicate CarriedOut(s: State, on: bool) {
    s.requested == (if on then 1 else 0) && s.slideshowRunning == on
  }

  /** After any run, an event that says anything makes one call, the one it asks for, unless just that is
    * already requested; then it makes none. If the call succeeds, or none was needed, the request is
    * recorded and the slideshow runs exactly when the display is on; if it fails the request is unknown
    * and the slideshow is as it was. */
  lemma WordIsCarriedOut(es: seq<Event>, e: Event)
    requires Speaks(es + [e], |es|)
    ensures var s, t, on := Run(es), Run(es + [e]), AsksOn(e);
      && t.occupied == on && t.latched == e.ForceOff?
      && t.distance == (if e.OccupancyReport? then e.distance else 0)
      && (s.requested == (if on then 1 else 0) ==> t.calls == s.calls && CarriedOut(t, on))
      && (s.requested != (if on then 1 else 0) ==>
            && t.calls == s.calls + [BusCall(on, e.callOk, e.ForceOff?)]
            && (e.callOk ==> CarriedOut(t, on))
            && (!e.callOk ==> t.requested == -1 && t.slideshowRunning == s.slideshowRunning))
  {
    assert (es + [e])[..|es|] == es;
    LatchedIffForcedOff(es);
    RunIsSafe(es);
  }

  /** The other events change nothing at all. */
  lemma SilenceChangesNothing(es: seq<Event>, e: Event)
    requires !Speaks(es + [e], |es|)
    ensures Run(es + [e]) == Run(es)
  {
    assert (es + [e])[..|es|] == es;
    LatchedIffForcedOff(es);
  }
}
