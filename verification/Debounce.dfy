/** The occupancy debouncer: poller_thread of occupancy-sensor-ld2410s/ld2410s.c.
  *
  * `Tick` is one iteration of the loop. Its run counter is an `unsigned`, so counting is done
  * modulo `word` (2^32 in the source); `word == 0` stands for a counter that never wraps, and
  * WrapNeverShows proves the two give the same events. The specification, `Committed`, looks only
  * at the history of samples.
  */
module Debounce {
  import opened Basics

  datatype Sample = Sample(gpio: bool, uart: bool, distance: nat)

  datatype Config = Config(hasGpio: bool, startupDelay: nat, hysteresisOccupied: nat, hysteresisVacant: nat)

  datatype Event = Event(tick: nat, occupied: bool, distance: nat)

  predicate Occupied(c: Config, s: Sample) { (c.hasGpio && s.gpio) || s.uart }

  function Threshold(c: Config, occupied: bool): (n: nat)
    ensures 1 <= n
  {
    var n := if occupied then c.hysteresisOccupied else c.hysteresisVacant;
    if n == 0 then 1 else n
  }

  predicate FitsWord(c: Config, word: nat) {
    word == 0 || (c.startupDelay < word && c.hysteresisOccupied < word && c.hysteresisVacant < word)
  }

  /** The loop's local variables. */
  datatype Machine = Machine(
    emittedFirst: bool, lastOccupied: bool, lastDistance: nat,
    pendingState: bool, pendingCount: nat, ticks: nat)

  const START := Machine(false, false, 0, false, 0, 0)

  function Bump(n: nat, word: nat): nat { if word == 0 then n + 1 else (n + 1) % word }

  function Count(m: Machine, occupied: bool, word: nat): nat {
    if occupied == m.pendingState then Bump(m.pendingCount, word) else 1
  }

  /** Whether the state_cb call of this iteration is made. */
  predicate Emits(c: Config, m: Machine, s: Sample, word: nat) {
    var occupied := Occupied(c, s);
    if !m.emittedFirst then m.ticks >= c.startupDelay
    else if occupied != m.lastOccupied then Count(m, occupied, word) >= Threshold(c, occupied)
    else s.distance != m.lastDistance
  }

  function Tick(c: Config, m: Machine, s: Sample, word: nat): Machine {
    var occupied, emits := Occupied(c, s), Emits(c, m, s, word);
    var counted :=
      if m.emittedFirst then m.(pendingState := occupied, pendingCount := Count(m, occupied, word))
      else if emits then m.(emittedFirst := true, pendingState := occupied, pendingCount := 1)
      else m;
    var emitted := if emits then counted.(lastOccupied := occupied, lastDistance := s.distance) else counted;
    emitted.(ticks := Bump(m.ticks, word))
  }

  /** The machine after all samples. */
  function Run(c: Config, xs: seq<Sample>, word: nat): Machine {
    if xs == [] then START
    else Tick(c, Run(c, xs[..|xs| - 1], word), xs[|xs| - 1], word)
  }

  /** The events emitted over all samples; `tick` is the index of the sample. */
  function Events(c: Config, xs: seq<Sample>, word: nat): seq<Event> {
    if xs == [] then []
    else
      var n := |xs| - 1;
      var m := Run(c, xs[..n], word);
      Events(c, xs[..n], word) +
        if Emits(c, m, xs[n], word) then [Event(n, Occupied(c, xs[n]), xs[n].distance)] else []
  }

  /** poller_thread over the samples it reads until `stop`. */
  method PollerThread(c: Config, xs: seq<Sample>) returns (events: seq<Event>)
    ensures events == Events(c, xs, UINT32_MODULUS)
  {
    events := [];
    var lastOccupied, lastDistance, emittedFirst := false, 0, false;
    var pendingState := false;
    var pendingCount: nat, ticks: nat := 0, 0;
    var i := 0;
    while i < |xs|
      invariant i <= |xs|
      invariant Machine(emittedFirst, lastOccupied, lastDistance, pendingState, pendingCount, ticks)
        == Run(c, xs[..i], UINT32_MODULUS)
      invariant events == Events(c, xs[..i], UINT32_MODULUS)
    {
      assert xs[..i + 1][..i] == xs[..i];
      var occupied := Occupied(c, xs[i]);
      var distance := xs[i].distance;
      if !emittedFirst {
        if ticks >= c.startupDelay {
          emittedFirst := true;
          lastOccupied := occupied;
          lastDistance := distance;
          pendingState := occupied;
          pendingCount := 1;
          events := events + [Event(i, occupied, distance)];
        }
      } else {
        if occupied == pendingState {
          pendingCount := (pendingCount + 1) % UINT32_MODULUS;
        } else {
          pendingState := occupied;
          pendingCount := 1;
        }
        var threshold := if occupied then c.hysteresisOccupied else c.hysteresisVacant;
        if threshold == 0 {
          threshold := 1;
        }
        if occupied != lastOccupied && pendingCount >= threshold {
          lastOccupied := occupied;
          lastDistance := distance;
          events := events + [Event(i, occupied, distance)];
        } else if occupied == lastOccupied && distance != lastDistance {
          lastDistance := distance;
          events := events + [Event(i, occupied, distance)];
        }
      }
      ticks := (ticks + 1) % UINT32_MODULUS;
      i := i + 1;
    }
    assert xs[..i] == xs;
  }

  // ---------------------------------------------------------------------------------------
  // Specification over the history
  // ---------------------------------------------------------------------------------------

  /** Samples i to t, all read after the first emission, agree. */
  predicate Constant(c: Config, xs: seq<Sample>, i: nat, t: nat)
    requires t < |xs|
  {
    forall j :: i <= j <= t ==> Occupied(c, xs[j]) == Occupied(c, xs[t])
  }

  /** A run of at least threshold equal samples, counted from the first emission, ends at t. */
  predicate RunEnds(c: Config, xs: seq<Sample>, t: nat)
    requires t < |xs|
  {
    var n := Threshold(c, Occupied(c, xs[t]));
    c.startupDelay + n <= t + 1 && Constant(c, xs, t + 1 - n, t)
  }

  /** v is the debounced state at tick t: the value of the latest long enough run ending at or
    * before t, or, before there is one, the first emitted sample. */
  ghost predicate Committed(c: Config, xs: seq<Sample>, t: nat, v: bool)
    requires c.startupDelay <= t < |xs|
  {
    || (exists j :: LatestRun(c, xs, j, t) && Occupied(c, xs[j]) == v)
    || ((forall j :: c.startupDelay <= j <= t ==> !RunEnds(c, xs, j)) && Occupied(c, xs[c.startupDelay]) == v)
  }

  predicate LatestRun(c: Config, xs: seq<Sample>, j: int, t: nat)
    requires t < |xs|
  {
    c.startupDelay <= j <= t && RunEnds(c, xs, j) && forall k :: j < k <= t ==> !RunEnds(c, xs, k)
  }

  lemma CommittedUnique(c: Config, xs: seq<Sample>, t: nat, v: bool, w: bool)
    requires c.startupDelay <= t < |xs| && Committed(c, xs, t, v) && Committed(c, xs, t, w)
    ensures v == w
  {
  }

  // ---------------------------------------------------------------------------------------
  // The machine meets the specification
  // ---------------------------------------------------------------------------------------

  /** What the counter is worth: while the pending state differs from the committed one it is the
    * exact length of the current run, which is still below the threshold. */
  ghost predicate CounterInv(c: Config, xs: seq<Sample>, m: Machine) {
    var n := |xs|;
    n > c.startupDelay &&
    m.pendingState == Occupied(c, xs[n - 1]) &&
    (m.pendingState != m.lastOccupied ==>
      && 1 <= m.pendingCount < Threshold(c, m.pendingState)
      && c.startupDelay + m.pendingCount < n
      && Constant(c, xs, n - m.pendingCount, n - 1)
      && Occupied(c, xs[n - 1 - m.pendingCount]) != m.pendingState)
  }

  ghost predicate Meets(c: Config, xs: seq<Sample>, m: Machine) {
    if |xs| <= c.startupDelay then !m.emittedFirst && m.ticks == |xs|
    else m.emittedFirst && CounterInv(c, xs, m) && Committed(c, xs, |xs| - 1, m.lastOccupied)
  }

  lemma ConstantExtends(c: Config, xs: seq<Sample>, s: Sample, i: nat, t: nat)
    requires t < |xs|
    ensures Constant(c, xs + [s], i, t) == Constant(c, xs, i, t)
  {
    assert forall j :: i <= j <= t ==> (xs + [s])[j] == xs[j];
  }

  lemma RunEndsExtends(c: Config, xs: seq<Sample>, s: Sample)
    ensures forall t: nat :: t < |xs| ==> RunEnds(c, xs + [s], t) == RunEnds(c, xs, t)
  {
    forall t: nat | t < |xs|
      ensures RunEnds(c, xs + [s], t) == RunEnds(c, xs, t)
    {
      var n := Threshold(c, Occupied(c, xs[t]));
      if n <= t + 1 {
        ConstantExtends(c, xs, s, t + 1 - n, t);
      }
    }
  }

  /** One more sample: either it ends a run, and commits its value, or nothing changes. */
  lemma CommittedStep(c: Config, xs: seq<Sample>, s: Sample, v: bool)
    requires c.startupDelay < |xs| && Committed(c, xs, |xs| - 1, v)
    ensures Committed(c, xs + [s], |xs|, if RunEnds(c, xs + [s], |xs|) then Occupied(c, s) else v)
  {
    var ys, t := xs + [s], |xs|;
    RunEndsExtends(c, xs, s);
    if RunEnds(c, ys, t) {
      assert LatestRun(c, ys, t, t);
    } else if j :| LatestRun(c, xs, j, t - 1) && Occupied(c, xs[j]) == v {
      assert LatestRun(c, ys, j, t);
    }
  }

  /** A run of exactly L samples ends at t. */
  lemma ExactRun(c: Config, xs: seq<Sample>, t: nat, L: nat)
    requires 1 <= L && c.startupDelay + L <= t < |xs|
    requires Constant(c, xs, t + 1 - L, t) && Occupied(c, xs[t - L]) != Occupied(c, xs[t])
    ensures RunEnds(c, xs, t) <==> Threshold(c, Occupied(c, xs[t])) <= L
  {
  }

  lemma FirstTickMeets(c: Config, xs: seq<Sample>, m: Machine, s: Sample, word: nat)
    requires FitsWord(c, word) && Meets(c, xs, m) && |xs| <= c.startupDelay
    ensures Meets(c, xs + [s], Tick(c, m, s, word))
  {
    var ys, t := xs + [s], |xs|;
    if t < c.startupDelay {
      if word != 0 { ModSmall(t + 1, word); }
    } else if RunEnds(c, ys, t) {
      assert LatestRun(c, ys, t, t);
    }
  }

  /** The sample continues or starts a run that disagrees with the committed state. */
  /** The run the counter measures when a sample disagrees with the committed state. */
  lemma DisagreeingRun(c: Config, xs: seq<Sample>, m: Machine, s: Sample, word: nat)
    requires FitsWord(c, word) && Meets(c, xs, m) && c.startupDelay < |xs| && Occupied(c, s) != m.lastOccupied
    ensures var ys, t, L := xs + [s], |xs|, Count(m, Occupied(c, s), word);
      && 1 <= L && c.startupDelay + L <= t
      && Constant(c, ys, t + 1 - L, t) && Occupied(c, ys[t - L]) != Occupied(c, s)
      && (L == 1 || L == m.pendingCount + 1 <= Threshold(c, Occupied(c, s)))
  {
    var t := |xs|;
    if Occupied(c, s) == m.pendingState {
      if word != 0 { ModSmall(m.pendingCount + 1, word); }
      ConstantExtends(c, xs, s, t - m.pendingCount, t - 1);
    }
  }

  lemma DisagreeingTickMeets(c: Config, xs: seq<Sample>, m: Machine, s: Sample, word: nat)
    requires FitsWord(c, word) && Meets(c, xs, m) && c.startupDelay < |xs| && Occupied(c, s) != m.lastOccupied
    ensures Meets(c, xs + [s], Tick(c, m, s, word))
  {
    DisagreeingRun(c, xs, m, s, word);
    ExactRun(c, xs + [s], |xs|, Count(m, Occupied(c, s), word));
    CommittedStep(c, xs, s, m.lastOccupied);
  }

  lemma AgreeingTickMeets(c: Config, xs: seq<Sample>, m: Machine, s: Sample, word: nat)
    requires FitsWord(c, word) && Meets(c, xs, m) && c.startupDelay < |xs| && Occupied(c, s) == m.lastOccupied
    ensures Meets(c, xs + [s], Tick(c, m, s, word))
  {
    CommittedStep(c, xs, s, m.lastOccupied);
  }

  /** For every sample sequence, hysteresis and start-up delay: after each tick the state the
    * machine has committed to is the one the history prescribes. */
  lemma {:induction false} MachineMeetsSpec(c: Config, xs: seq<Sample>, word: nat)
    requires FitsWord(c, word)
    ensures Meets(c, xs, Run(c, xs, word))
    decreases |xs|
  {
    if xs != [] {
      var n := |xs| - 1;
      var init, s := xs[..n], xs[n];
      var m := Run(c, init, word);
      MachineMeetsSpec(c, init, word);
      assert xs == init + [s];
      if n <= c.startupDelay {
        FirstTickMeets(c, init, m, s, word);
      } else if Occupied(c, s) == m.lastOccupied {
        AgreeingTickMeets(c, init, m, s, word);
      } else {
        DisagreeingTickMeets(c, init, m, s, word);
      }
    }
  }

  // ---------------------------------------------------------------------------------------
  // The events
  // ---------------------------------------------------------------------------------------

  /** An event reports a sample that agrees with the state committed at that tick. */
  ghost predicate EventSound(c: Config, xs: seq<Sample>, e: Event) {
    && c.startupDelay <= e.tick < |xs|
    && e.occupied == Occupied(c, xs[e.tick]) && e.distance == xs[e.tick].distance
    && Committed(c, xs, e.tick, e.occupied)
  }

  predicate Succeeds(d: Event, e: Event) {
    d.tick < e.tick && (d.occupied != e.occupied || d.distance != e.distance)
  }

  ghost predicate EventsMeet(c: Config, xs: seq<Sample>, es: seq<Event>) {
    && (forall i :: 0 <= i < |es| ==> EventSound(c, xs, es[i]))
    && (forall i, j :: 0 <= i && j == i + 1 < |es| ==> Succeeds(es[i], es[j]))
    && (if |xs| <= c.startupDelay then es == []
        else
          && es != [] && es[0].tick == c.startupDelay
          && UpToDate(c, xs, es[|es| - 1]))
  }

  /** The last event carries the committed state, and the current distance unless the present
    * sample disagrees with that state. */
  ghost predicate UpToDate(c: Config, xs: seq<Sample>, e: Event)
    requires c.startupDelay < |xs|
  {
    && Committed(c, xs, |xs| - 1, e.occupied)
    && (Occupied(c, xs[|xs| - 1]) == e.occupied ==> e.distance == xs[|xs| - 1].distance)
  }

  lemma EventSoundExtends(c: Config, xs: seq<Sample>, s: Sample, e: Event)
    requires EventSound(c, xs, e)
    ensures EventSound(c, xs + [s], e)
  {
    var ys, t := xs + [s], e.tick;
    RunEndsExtends(c, xs, s);
    if j :| LatestRun(c, xs, j, t) && Occupied(c, xs[j]) == e.occupied {
      assert LatestRun(c, ys, j, t);
    }
  }

  ghost predicate MachineRemembers(m: Machine, es: seq<Event>) {
    m.emittedFirst == (es != []) &&
    (es != [] ==> m.lastOccupied == es[|es| - 1].occupied && m.lastDistance == es[|es| - 1].distance)
  }

  lemma EmittedEvent(c: Config, xs: seq<Sample>, m: Machine, s: Sample, word: nat)
    requires Meets(c, xs, m) && Meets(c, xs + [s], Tick(c, m, s, word)) && Emits(c, m, s, word)
    ensures c.startupDelay <= |xs| && Tick(c, m, s, word).emittedFirst
    ensures Tick(c, m, s, word).lastOccupied == Occupied(c, s) && Tick(c, m, s, word).lastDistance == s.distance
    ensures EventSound(c, xs + [s], Event(|xs|, Occupied(c, s), s.distance))
    ensures UpToDate(c, xs + [s], Event(|xs|, Occupied(c, s), s.distance))
    ensures m.emittedFirst ==> Occupied(c, s) != m.lastOccupied || s.distance != m.lastDistance
  {
  }

  lemma SilentTick(c: Config, xs: seq<Sample>, m: Machine, s: Sample, word: nat, last: Event)
    requires Meets(c, xs, m) && Meets(c, xs + [s], Tick(c, m, s, word)) && !Emits(c, m, s, word)
    requires m.emittedFirst && m.lastOccupied == last.occupied && m.lastDistance == last.distance
    ensures c.startupDelay < |xs| && UpToDate(c, xs + [s], last)
  {
  }

  lemma EventsExtend(c: Config, xs: seq<Sample>, es: seq<Event>, s: Sample)
    requires forall i :: 0 <= i < |es| ==> EventSound(c, xs, es[i])
    ensures forall i :: 0 <= i < |es| ==> EventSound(c, xs + [s], es[i])
  {
    forall i | 0 <= i < |es|
      ensures EventSound(c, xs + [s], es[i])
    {
      EventSoundExtends(c, xs, s, es[i]);
    }
  }

  lemma EventsStep(c: Config, xs: seq<Sample>, m: Machine, es: seq<Event>, s: Sample, word: nat)
    requires Meets(c, xs, m) && EventsMeet(c, xs, es) && MachineRemembers(m, es)
    requires Meets(c, xs + [s], Tick(c, m, s, word))
    ensures var fs := es + if Emits(c, m, s, word) then [Event(|xs|, Occupied(c, s), s.distance)] else [];
      EventsMeet(c, xs + [s], fs) && MachineRemembers(Tick(c, m, s, word), fs)
  {
    EventsExtend(c, xs, es, s);
    if Emits(c, m, s, word) {
      var e := Event(|xs|, Occupied(c, s), s.distance);
      EmittedEvent(c, xs, m, s, word);
      if es != [] {
        assert EventSound(c, xs, es[|es| - 1]);
        assert Succeeds(es[|es| - 1], e);
      }
      SoundAppend(c, xs + [s], es, e);
    } else {
      assert es + [] == es;
      SilentMemory(c, m, s, word);
      if es != [] {
        SilentTick(c, xs, m, s, word, es[|es| - 1]);
      }
    }
  }

  lemma SilentMemory(c: Config, m: Machine, s: Sample, word: nat)
    requires !Emits(c, m, s, word)
    ensures var t := Tick(c, m, s, word);
      t.lastOccupied == m.lastOccupied && t.lastDistance == m.lastDistance && t.emittedFirst == m.emittedFirst
  {
  }

  lemma SoundAppend(c: Config, xs: seq<Sample>, es: seq<Event>, e: Event)
    requires forall i :: 0 <= i < |es| ==> EventSound(c, xs, es[i])
    requires forall i, j :: 0 <= i && j == i + 1 < |es| ==> Succeeds(es[i], es[j])
    requires c.startupDelay < |xs| && EventSound(c, xs, e) && UpToDate(c, xs, e)
    requires if es == [] then e.tick == c.startupDelay
             else es[0].tick == c.startupDelay && Succeeds(es[|es| - 1], e)
    ensures EventsMeet(c, xs, es + [e])
  {
    var fs := es + [e];
    forall i | 0 <= i < |fs|
      ensures EventSound(c, xs, fs[i])
    {
      assert fs[i] == if i < |es| then es[i] else e;
    }
    forall i, j | 0 <= i && j == i + 1 < |fs|
      ensures Succeeds(fs[i], fs[j])
    {
      assert fs[i] == es[i] && (j < |es| ==> fs[j] == es[j]);
    }
  }

  lemma OneMore(c: Config, xs: seq<Sample>, s: Sample, word: nat)
    ensures Run(c, xs + [s], word) == Tick(c, Run(c, xs, word), s, word)
    ensures Events(c, xs + [s], word) == Events(c, xs, word)
      + if Emits(c, Run(c, xs, word), s, word) then [Event(|xs|, Occupied(c, s), s.distance)] else []
  {
    assert (xs + [s])[..|xs|] == xs;
  }

  lemma EventsMeetOneMore(c: Config, xs: seq<Sample>, s: Sample, word: nat)
    requires FitsWord(c, word)
    requires EventsMeet(c, xs, Events(c, xs, word)) && MachineRemembers(Run(c, xs, word), Events(c, xs, word))
    ensures EventsMeet(c, xs + [s], Events(c, xs + [s], word))
    ensures MachineRemembers(Run(c, xs + [s], word), Events(c, xs + [s], word))
  {
    MachineMeetsSpec(c, xs, word);
    MachineMeetsSpec(c, xs + [s], word);
    OneMore(c, xs, s, word);
    EventsStep(c, xs, Run(c, xs, word), Events(c, xs, word), s, word);
  }

  /** For every run: events are sound, no two consecutive ones are equal, and none is missing - the
    * last event always carries the committed state and, while the sample agrees with it, the
    * current distance. */
  lemma {:induction false} EventsMeetSpec(c: Config, xs: seq<Sample>, word: nat)
    requires FitsWord(c, word)
    ensures EventsMeet(c, xs, Events(c, xs, word)) && MachineRemembers(Run(c, xs, word), Events(c, xs, word))
    decreases |xs|
  {
    if xs != [] {
      var n := |xs| - 1;
      EventsMeetSpec(c, xs[..n], word);
      EventsMeetOneMore(c, xs[..n], xs[n], word);
      assert xs == xs[..n] + [xs[n]];
    }
  }

  // ---------------------------------------------------------------------------------------
  // Which hysteresis applies
  // ---------------------------------------------------------------------------------------

  /** The samples from i to t all show the room occupied (or all vacant): by the sensor's own report, or
    * by its pin where there is one. */
  predicate AllShow(c: Config, xs: seq<Sample>, i: int, t: nat, occupied: bool)
    requires 0 <= i && t < |xs|
  {
    forall j :: i <= j <= t ==> (xs[j].uart || (xs[j].gpio && c.hasGpio)) == occupied
  }

  /** n samples in a row, all after the start-up delay, ending at t. */
  predicate RunOf(c: Config, xs: seq<Sample>, t: nat, n: nat, occupied: bool)
    requires t < |xs|
  {
    0 < n && c.startupDelay + n <= t + 1 && AllShow(c, xs, t + 1 - n, t, occupied)
  }

  lemma RunOfIff(c: Config, xs: seq<Sample>, t: nat)
    requires t < |xs|
    ensures RunEnds(c, xs, t) <==> RunOf(c, xs, t, Threshold(c, Occupied(c, xs[t])), Occupied(c, xs[t]))
  {
  }

  /** One more sample, when it disagrees with the state last emitted: it is emitted exactly at the end of
    * a run as long as its threshold. */
  lemma DisagreeingEmitsIff(c: Config, xs: seq<Sample>, m: Machine, s: Sample, word: nat)
    requires FitsWord(c, word) && Meets(c, xs, m) && c.startupDelay < |xs| && Occupied(c, s) != m.lastOccupied
    ensures Emits(c, m, s, word) <==>
      RunOf(c, xs + [s], |xs|, Threshold(c, Occupied(c, s)), Occupied(c, s))
  {
    DisagreeingRun(c, xs, m, s, word);
    ExactRun(c, xs + [s], |xs|, Count(m, Occupied(c, s), word));
    RunOfIff(c, xs + [s], |xs|);
  }

  /** After a vacant event, the next sample brings the occupied event exactly when it ends a run of
    * hysteresis_occupied (at least one) occupied samples since the first emission, and no earlier;
    * otherwise the last event stays a vacant one. */
  lemma OccupiedEventIff(c: Config, xs: seq<Sample>, s: Sample, word: nat)
    requires FitsWord(c, word) && Events(c, xs, word) != []
    requires !Events(c, xs, word)[|Events(c, xs, word)| - 1].occupied
    ensures var before, after := Events(c, xs, word), Events(c, xs + [s], word);
      && (RunOf(c, xs + [s], |xs|, Max(1, c.hysteresisOccupied), true) ==>
            after == before + [Event(|xs|, true, s.distance)])
      && (!RunOf(c, xs + [s], |xs|, Max(1, c.hysteresisOccupied), true) ==>
            after != [] && !after[|after| - 1].occupied)
  {
    EventsMeetSpec(c, xs, word);
    MachineMeetsSpec(c, xs, word);
    OneMore(c, xs, s, word);
    if Occupied(c, s) {
      DisagreeingEmitsIff(c, xs, Run(c, xs, word), s, word);
    } else {
      assert (xs + [s])[|xs|] == s;
    }
  }

  /** The mirror image, with hysteresis_vacant. */
  lemma VacantEventIff(c: Config, xs: seq<Sample>, s: Sample, word: nat)
    requires FitsWord(c, word) && Events(c, xs, word) != []
    requires Events(c, xs, word)[|Events(c, xs, word)| - 1].occupied
    ensures var before, after := Events(c, xs, word), Events(c, xs + [s], word);
      && (RunOf(c, xs + [s], |xs|, Max(1, c.hysteresisVacant), false) ==>
            after == before + [Event(|xs|, false, s.distance)])
      && (!RunOf(c, xs + [s], |xs|, Max(1, c.hysteresisVacant), false) ==>
            after != [] && after[|after| - 1].occupied)
  {
    EventsMeetSpec(c, xs, word);
    MachineMeetsSpec(c, xs, word);
    OneMore(c, xs, s, word);
    if !Occupied(c, s) {
      DisagreeingEmitsIff(c, xs, Run(c, xs, word), s, word);
    } else {
      assert (xs + [s])[|xs|] == s;
    }
  }

  // ---------------------------------------------------------------------------------------
  // Counter wrap
  // ---------------------------------------------------------------------------------------

  /** Equal as far as any output can tell. */
  predicate Alike(m: Machine, k: Machine) {
    && m.emittedFirst == k.emittedFirst && m.lastOccupied == k.lastOccupied
    && m.lastDistance == k.lastDistance
    && (m.emittedFirst ==> m.pendingState == k.pendingState)
    && (m.emittedFirst && m.pendingState != m.lastOccupied ==> m.pendingCount == k.pendingCount)
    && (!m.emittedFirst ==> m.ticks == k.ticks)
  }

  lemma AlikeTick(c: Config, xs: seq<Sample>, m: Machine, k: Machine, s: Sample, word: nat)
    requires FitsWord(c, word) && word != 0 && Meets(c, xs, m) && Alike(m, k)
    ensures Alike(Tick(c, m, s, word), Tick(c, k, s, 0))
    ensures Emits(c, m, s, word) == Emits(c, k, s, 0)
  {
    if m.emittedFirst {
      if m.pendingState != m.lastOccupied { ModSmall(m.pendingCount + 1, word); }
    } else if m.ticks < c.startupDelay {
      ModSmall(m.ticks + 1, word);
    }
  }

  /** The 32-bit counters may wrap, but no output ever depends on it. */
  lemma {:induction false} WrapNeverShows(c: Config, xs: seq<Sample>, word: nat)
    requires FitsWord(c, word)
    ensures Alike(Run(c, xs, word), Run(c, xs, 0))
    ensures Events(c, xs, word) == Events(c, xs, 0)
    decreases |xs|
  {
    if xs != [] {
      var n := |xs| - 1;
      WrapNeverShows(c, xs[..n], word);
      if word != 0 {
        MachineMeetsSpec(c, xs[..n], word);
        AlikeTick(c, xs[..n], Run(c, xs[..n], word), Run(c, xs[..n], 0), xs[n], word);
      }
    }
  }
}
