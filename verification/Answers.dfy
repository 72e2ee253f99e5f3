/** Whose answer a wait takes: the responses accepted by send_and_wait (session.c), which compares a
  * response with the command awaited only to log the difference.
  */
module Answers {
  import opened Basics
  import opened Wire

  /** The response word send_and_wait expects, and a sensor answers, to a command. */
  function AnswerTo(i: Item): nat { (i.cmd.word + RESP_OFFSET) % 0x1_0000 }

  /** The number of the first written command that is not yet out of the sensor's reach after its
    * first n responses. */
  function Reached(s: State, n: nat): nat
    requires n <= |s.responses|
  {
    if n == 0 then 0 else s.responses[n - 1].to + 1
  }

  /** A sensor that answers written commands, each at most once and in order; it may leave some
    * unanswered, and answer at any time. */
  predicate Honest(s: State, e: Event) {
    e.Answer? && e.response.Some? ==>
      var r := e.response.value;
      Reached(s, |s.responses|) <= r.to < |s.written| && r.word == AnswerTo(s.written[r.to])
  }

  ghost predicate HonestRun(s: State, es: seq<Event>)
    requires WellFormed(s)
    decreases |es|
  {
    es != [] ==> Honest(s, es[0]) && HonestRun(Step(s, es[0]), es[1..])
  }

  // ---------------------------------------------------------------------------------------
  // Positions on the wire
  // ---------------------------------------------------------------------------------------

  /** How many of the first n queued commands get written: the place on the wire of the next one. */
  function Place(items: seq<Item>, n: nat): nat
    requires n <= |items|
  {
    |Filter(items[..n])|
  }

  lemma {:induction false} FilterPrefix(items: seq<Item>, m: nat, n: nat)
    requires m <= n <= |items|
    ensures Filter(items[..m]) <= Filter(items[..n])
    decreases n - m
  {
    if m < n {
      FilterPrefix(items, m, n - 1);
      FilterNext(items, n - 1);
    }
  }

  lemma {:induction false} FilterSends(items: seq<Item>)
    ensures forall i :: 0 <= i < |Filter(items)| ==> Sendable(Filter(items)[i])
    decreases |items|
  {
    if items != [] {
      FilterSends(items[..|items| - 1]);
    }
  }

  lemma {:induction false} BracketedDistinct(items: seq<Item>, i: nat, j: nat)
    requires Bracketed(items) && i < j < |items|
    ensures Follows(items[i], items[j]) && items[i] != items[j]
    decreases j - i
  {
    assert JointAt(items, j);
    if i + 1 < j {
      BracketedDistinct(items, i, j - 1);
      FollowsTransitive(items[i], items[j - 1], items[j]);
    }
  }

  /** A written command is the pos-th one queued exactly if it is at that one's place. */
  lemma AtPlaceIff(items: seq<Item>, taken: nat, pos: nat, to: nat)
    requires Bracketed(items) && taken <= |items| && pos < |items|
    requires to < |Filter(items[..taken])|
    ensures Filter(items[..taken])[to] == items[pos] <==> Sendable(items[pos]) && to == Place(items, pos)
  {
    var all, k := Filter(items), Place(items, pos);
    FilterPrefix(items, taken, |items|);
    assert items[..|items|] == items;
    FilterSends(items);
    if Sendable(items[pos]) {
      FilterNext(items, pos);
      FilterPrefix(items, pos + 1, |items|);
      assert all[k] == Filter(items[..pos + 1])[k] == items[pos];
      FilterBracketed(items);
      if to != k {
        BracketedDistinct(all, Min(to, k), Max(to, k));
      }
    }
  }

  // ---------------------------------------------------------------------------------------
  // Honest runs, with any number of timeouts
  // ---------------------------------------------------------------------------------------

  predicate ResponseOk(s: State, k: nat)
    requires k < |s.responses|
  {
    var r := s.responses[k];
    Reached(s, k) <= r.to < |s.written| && r.word == AnswerTo(s.written[r.to])
  }

  predicate AcceptOk(s: State, a: Accept) {
    && a.pos < |s.enqueued| && s.enqueued[a.pos] == a.item
    && a.since <= a.index < |s.responses|
    && s.responses[a.index].to < Place(s.enqueued, a.pos + 1)
  }

  ghost predicate SensorInv(s: State) {
    && OrderInv(s) && AcceptInv(s)
    && (forall k: nat :: k < |s.responses| ==> ResponseOk(s, k))
    && (forall i :: 0 <= i < |s.accepted| ==> AcceptOk(s, s.accepted[i]))
  }

  lemma ExtensionKeepsOk(s: State, t: State)
    requires s.enqueued <= t.enqueued && s.written <= t.written && s.responses <= t.responses
    ensures forall k: nat :: k < |s.responses| && ResponseOk(s, k) ==> ResponseOk(t, k)
    ensures forall a: Accept :: AcceptOk(s, a) ==> AcceptOk(t, a)
  {
    forall a: Accept | AcceptOk(s, a)
      ensures AcceptOk(t, a)
    {
      assert s.enqueued[..a.pos + 1] == t.enqueued[..a.pos + 1];
    }
  }

  /** The current wait could only take an answer to something queued so far. */
  lemma TakenOk(s: State)
    requires SensorInv(s) && s.session.Awaiting? && s.pending
    ensures AcceptOk(s, Taken(s))
  {
    var last := |s.responses| - 1;
    assert ResponseOk(s, last);
    FilterPrefix(s.enqueued, s.taken, |s.enqueued|);
  }

  lemma GrowthKeepsSensor(s: State, t: State)
    requires SensorInv(s) && OrderInv(t) && AcceptInv(t)
    requires s.enqueued <= t.enqueued && s.written <= t.written && s.responses <= t.responses
    requires s.accepted <= t.accepted
    requires forall k: nat :: |s.responses| <= k < |t.responses| ==> ResponseOk(t, k)
    requires forall i :: |s.accepted| <= i < |t.accepted| ==> AcceptOk(t, t.accepted[i])
    ensures SensorInv(t)
  {
    ExtensionKeepsOk(s, t);
    forall k: nat | k < |t.responses|
      ensures ResponseOk(t, k)
    {
      assert k < |s.responses| ==> ResponseOk(s, k);
    }
    forall i | 0 <= i < |t.accepted|
      ensures AcceptOk(t, t.accepted[i])
    {
      assert i < |s.accepted| ==> AcceptOk(s, s.accepted[i]);
    }
  }

  lemma StepKeepsSensor(s: State, e: Event)
    requires SensorInv(s) && Honest(s, e)
    ensures SensorInv(Step(s, e))
  {
    StepKeepsOrder(s, e);
    StepKeepsAccept(s, e);
    NewResponseOk(s, e);
    NewAcceptOk(s, e);
    GrowthKeepsSensor(s, Step(s, e));
  }

  lemma NewResponseOk(s: State, e: Event)
    requires WellFormed(s) && Honest(s, e)
    ensures var t := Step(s, e);
      |t.responses| <= |s.responses| + 1 && (|t.responses| > |s.responses| ==> ResponseOk(t, |s.responses|))
  {
  }

  lemma NewAcceptOk(s: State, e: Event)
    requires SensorInv(s)
    ensures var t := Step(s, e);
      && |t.accepted| <= |s.accepted| + 1
      && (|t.accepted| > |s.accepted| ==>
            && e.Take? && s.session.Awaiting? && s.pending
            && t.accepted[|s.accepted|] == Taken(s) && AcceptOk(t, Taken(s)))
  {
    if e.Take? && s.session.Awaiting? && s.pending {
      TakenOk(s);
        ExtensionKeepsOk(s, Step(s, e));
    }
  }

  lemma {:induction false} HonestRunKeepsSensor(s: State, es: seq<Event>)
    requires SensorInv(s) && HonestRun(s, es)
    ensures SensorInv(Exec(s, es))
    decreases |es|
  {
    if es != [] {
      StepKeepsSensor(s, es[0]);
      HonestRunKeepsSensor(Step(s, es[0]), es[1..]);
    }
  }

  // ---------------------------------------------------------------------------------------
  // Whose answer was taken
  // ---------------------------------------------------------------------------------------

  /** The response the wait took is the sensor's answer to the very command it awaited. */
  predicate Own(s: State, a: Accept)
    requires a.index < |s.responses| && s.responses[a.index].to < |s.written|
  {
    s.written[s.responses[a.index].to] == a.item
  }

  /** The sensor had nothing left to answer when the wait reset the slot: every command queued before
    * had been answered, passed over or never written. */
  predicate CaughtUp(s: State, a: Accept)
    requires AcceptOk(s, a)
  {
    Reached(s, a.since) == Place(s.enqueued, a.pos)
  }

  /** No answer was ever left out. */
  ghost predicate NoneMissing(s: State) {
    forall k :: 0 <= k < |s.responses| ==> s.responses[k].to == k
  }

  lemma OwnIff(s: State, a: Accept)
    requires SensorInv(s) && AcceptOk(s, a)
    ensures s.responses[a.index].to < |s.written|
    ensures Own(s, a) <==> Sendable(a.item) && s.responses[a.index].to == Place(s.enqueued, a.pos)
    ensures Own(s, a) ==> s.responses[a.index].word == AnswerTo(a.item)
  {
    assert ResponseOk(s, a.index);
    AtPlaceIff(s.enqueued, s.taken, a.pos, s.responses[a.index].to);
  }

  lemma {:induction false} ReachedGrows(s: State, m: nat, n: nat)
    requires SensorInv(s) && m <= n <= |s.responses|
    ensures Reached(s, m) + (n - m) <= Reached(s, n)
    decreases n - m
  {
    if m < n {
      assert ResponseOk(s, n - 1);
      ReachedGrows(s, m, n - 1);
    }
  }

  lemma CaughtUpOwns(s: State, a: Accept)
    requires SensorInv(s) && AcceptOk(s, a) && CaughtUp(s, a)
    ensures s.responses[a.index].to < |s.written| && Own(s, a)
    ensures a.index == a.since
  {
    ReachedGrows(s, a.since, a.index + 1);
    FilterNext(s.enqueued, a.pos);
    OwnIff(s, a);
  }

  /** For every honest run from start-up, with any number of callers, timeouts and missing answers, and
    * every response any wait accepted:
    * the response is the awaited one if and only if it answers the command at the awaited one's place;
    * when no answer is ever missing, if and only if exactly the earlier written commands had been
    * answered before it;
    * it always is when the sensor had caught up at the wait's reset, whatever timed out before; and
    * without missing answers, for a wait that takes the first response to arrive, only then. */
  lemma OwnAnswerIff(es: seq<Event>, a: Accept)
    requires HonestRun(INITIAL, es) && a in Exec(INITIAL, es).accepted
    ensures var s := Exec(INITIAL, es);
      && AcceptOk(s, a) && s.responses[a.index].to < |s.written|
      && (Own(s, a) <==> Sendable(a.item) && s.responses[a.index].to == Place(s.enqueued, a.pos))
      && (Own(s, a) ==> s.responses[a.index].word == AnswerTo(a.item))
      && (NoneMissing(s) ==> (Own(s, a) <==> Sendable(a.item) && a.index == Place(s.enqueued, a.pos)))
      && (CaughtUp(s, a) ==> Own(s, a))
      && (NoneMissing(s) && a.index == a.since && Sendable(a.item) ==> (Own(s, a) <==> CaughtUp(s, a)))
  {
    var s := Exec(INITIAL, es);
    InitialSatisfiesInvariants();
    HonestRunKeepsSensor(INITIAL, es);
    OwnIff(s, a);
    if CaughtUp(s, a) {
      CaughtUpOwns(s, a);
    }
  }

  /** The same before the wait looks: what is in the slot is the awaited answer exactly if it answers the
    * last command to be written. */
  lemma PendingIsOwnIff(s: State)
    requires SensorInv(s) && s.session.Awaiting? && s.pending
    ensures AcceptOk(s, Taken(s)) && s.responses[|s.responses| - 1].to < |s.written|
    ensures Own(s, Taken(s)) <==>
      Sendable(Current(s)) && Reached(s, |s.responses|) == Place(s.enqueued, |s.enqueued|)
  {
    var a := Taken(s);
    TakenOk(s);
    OwnIff(s, a);
    FilterNext(s.enqueued, a.pos);
    assert s.responses[a.index].to < Place(s.enqueued, a.pos + 1);
    assert Reached(s, |s.responses|) == s.responses[a.index].to + 1;
  }

  // ---------------------------------------------------------------------------------------
  // Runs without timeouts
  // ---------------------------------------------------------------------------------------

  /** The sensor is honest and no wait times out. */
  ghost predicate Timely(s: State, es: seq<Event>)
    requires WellFormed(s)
    decreases |es|
  {
    es != [] ==> Honest(s, es[0]) && !es[0].GiveUp? && Timely(Step(s, es[0]), es[1..])
  }

  /** No caller is waiting, nothing has come in since the slot was last reset for the next wait, and the
    * sensor has nothing left to answer. */
  predicate Settled(s: State) {
    && !s.session.Awaiting? && (s.session.Queueing? ==> s.since == |s.responses|)
    && Reached(s, |s.responses|) == Place(s.enqueued, |s.enqueued|)
  }

  /** The wait under way started with the sensor caught up. */
  predicate CaughtUpWait(s: State) {
    && s.session.Awaiting? && s.enqueued != [] && s.since <= |s.responses|
    && Reached(s, s.since) == Place(s.enqueued, |s.enqueued| - 1)
  }

  /** Since the first `base` accepts every wait has started with the sensor caught up. */
  ghost predicate InStep(s: State, base: nat) {
    && SensorInv(s)
    && (Settled(s) || CaughtUpWait(s))
    && (forall i :: base <= i < |s.accepted| ==> CaughtUp(s, s.accepted[i]))
  }

  lemma ExtensionKeepsCaughtUp(s: State, t: State, a: Accept)
    requires s.enqueued <= t.enqueued && s.responses <= t.responses
    requires AcceptOk(s, a) && AcceptOk(t, a) && CaughtUp(s, a)
    ensures CaughtUp(t, a)
  {
    assert s.enqueued[..a.pos] == t.enqueued[..a.pos];
  }

  /** Nothing can arrive while the sensor has nothing left to answer. */
  lemma SettledIsQuiet(s: State, e: Event)
    requires SensorInv(s) && Settled(s) && Honest(s, e)
    ensures Step(s, e).responses == s.responses
  {
    FilterPrefix(s.enqueued, s.taken, |s.enqueued|);
  }

  lemma TakeSettles(s: State)
    requires SensorInv(s) && CaughtUpWait(s) && s.pending
    ensures AcceptOk(s, Taken(s)) && CaughtUp(s, Taken(s))
    ensures Reached(s, |s.responses|) == Place(s.enqueued, |s.enqueued|)
  {
    TakenOk(s);
    CaughtUpOwns(s, Taken(s));
    PendingIsOwnIff(s);
  }

  lemma SettledPut(s: State)
    requires SensorInv(s) && Settled(s) && s.session.Queueing?
    ensures Settled(StepPut(s)) || CaughtUpWait(StepPut(s))
  {
    var t := StepPut(s);
    if t.enqueued != s.enqueued {
      assert t.enqueued[..|t.enqueued| - 1] == s.enqueued == s.enqueued[..|s.enqueued|];
    }
  }

  /** Any other step of a settled state. */
  lemma SettledFrame(s: State, e: Event)
    requires WellFormed(s) && !s.session.Awaiting? && !e.Put?
    ensures var t := Step(s, e);
      && !t.session.Awaiting? && t.enqueued == s.enqueued
      && (t.session.Queueing? ==> t.since == |s.responses| || (s.session.Queueing? && t.since == s.since))
  {
  }

  lemma SettledStep(s: State, e: Event)
    requires SensorInv(s) && Settled(s) && Honest(s, e)
    ensures Settled(Step(s, e)) || CaughtUpWait(Step(s, e))
  {
    SettledIsQuiet(s, e);
    if e.Put? {
      if s.session.Queueing? { SettledPut(s); }
    } else {
      SettledFrame(s, e);
    }
  }

  lemma WaitingStep(s: State, e: Event)
    requires SensorInv(s) && CaughtUpWait(s) && Honest(s, e) && !e.GiveUp?
    ensures Settled(Step(s, e)) || CaughtUpWait(Step(s, e))
  {
    if e.Take? && s.pending {
      TakeSettles(s);
      TakeMoves(s);
    } else {
      WaitingStepWaits(s, e);
    }
  }

  lemma TakeMoves(s: State)
    requires WellFormed(s) && s.session.Awaiting? && s.pending
    ensures var t := Step(s, Take);
      && !t.session.Awaiting? && !t.session.Queueing?
      && t.enqueued == s.enqueued && t.responses == s.responses
  {
  }

  lemma WaitingStepWaits(s: State, e: Event)
    requires WellFormed(s) && s.session.Awaiting? && !(e.Take? && s.pending) && !e.GiveUp?
    requires s.since <= |s.responses|
    ensures var t := Step(s, e);
      && t.session.Awaiting? && t.enqueued == s.enqueued && t.since == s.since && s.responses <= t.responses
      && Reached(t, t.since) == Reached(s, s.since)
  {
  }

  lemma StepKeepsInStep(s: State, e: Event, base: nat)
    requires InStep(s, base) && Honest(s, e) && !e.GiveUp?
    ensures InStep(Step(s, e), base)
  {
    var t := Step(s, e);
    StepKeepsSensor(s, e);
    if Settled(s) { SettledStep(s, e); } else { WaitingStep(s, e); }
    NewAcceptOk(s, e);
    forall i | base <= i < |t.accepted|
      ensures CaughtUp(t, t.accepted[i])
    {
      if i == |s.accepted| {
        TakeSettles(s);
      } else {
        assert AcceptOk(s, s.accepted[i]);
      }
      ExtensionKeepsCaughtUp(s, t, t.accepted[i]);
    }
  }

  lemma {:induction false} TimelyKeepsInStep(s: State, es: seq<Event>, base: nat)
    requires InStep(s, base) && Timely(s, es)
    ensures InStep(Exec(s, es), base)
    decreases |es|
  {
    if es != [] {
      StepKeepsInStep(s, es[0], base);
      TimelyKeepsInStep(Step(s, es[0]), es[1..], base);
    }
  }

  /** From any settled state, start-up or one reached after timeouts whose late answers have come in: as
    * long as no further wait times out, every response accepted is the awaited one, although nothing
    * compares them. */
  lemma TimelyAnswersMatch(s: State, es: seq<Event>)
    requires SensorInv(s) && Settled(s) && Timely(s, es)
    ensures var t := Exec(s, es);
      forall i {:trigger t.accepted[i]} :: |s.accepted| <= i < |t.accepted| ==>
        var a := t.accepted[i];
        && AcceptOk(t, a) && t.responses[a.index].to < |t.written| && Own(t, a)
        && t.responses[a.index].word == AnswerTo(a.item)
  {
    TimelyKeepsInStep(s, es, |s.accepted|);
    var t := Exec(s, es);
    forall i {:trigger t.accepted[i]} | |s.accepted| <= i < |t.accepted|
      ensures var a := t.accepted[i];
        && AcceptOk(t, a) && t.responses[a.index].to < |t.written| && Own(t, a)
        && t.responses[a.index].word == AnswerTo(a.item)
    {
      CaughtUpOwns(t, t.accepted[i]);
      OwnIff(t, t.accepted[i]);
    }
  }

  lemma InitialSatisfiesSensor()
    ensures SensorInv(INITIAL) && Settled(INITIAL)
  {
  }

  // ---------------------------------------------------------------------------------------
  // What success does not mean
  // ---------------------------------------------------------------------------------------

  lemma {:induction false} ExecConcat(s: State, es: seq<Event>, fs: seq<Event>)
    requires WellFormed(s) && HonestRun(s, es) && HonestRun(Exec(s, es), fs)
    ensures HonestRun(s, es + fs) && Exec(s, es + fs) == Exec(Exec(s, es), fs)
    decreases |es|
  {
    if es == [] {
      assert es + fs == fs;
    } else {
      assert (es + fs)[1..] == es[1..] + fs;
      ExecConcat(Step(s, es[0]), es[1..], fs);
    }
  }

  /** An honest run leads from s to t. */
  ghost predicate Reaches(s: State, t: State) {
    WellFormed(s) && WellFormed(t) && exists es :: RunsTo(s, es, t)
  }

  ghost predicate RunsTo(s: State, es: seq<Event>, t: State)
    requires WellFormed(s)
  {
    HonestRun(s, es) && Exec(s, es) == t
  }

  lemma Onwards(s: State, t: State, u: State)
    requires Reaches(s, t) && Reaches(t, u)
    ensures Reaches(s, u)
  {
    var es :| RunsTo(s, es, t);
    var fs :| RunsTo(t, fs, u);
    ExecConcat(s, es, fs);
    assert RunsTo(s, es + fs, u);
  }

  lemma OneStep(s: State, e: Event)
    requires WellFormed(s) && Honest(s, e)
    ensures Reaches(s, Step(s, e))
  {
    var es := [e];
    assert es[1..] == [] && Exec(Step(s, e), []) == Step(s, e) && HonestRun(Step(s, e), []);
    assert RunsTo(s, es, Step(s, e));
  }

  /** Three steps, of which only the last may be an answer. */
  lemma ThreeSteps(s: State, a: Event, b: Event, c: Event, t: State)
    requires WellFormed(s) && !a.Answer? && !b.Answer? && Honest(Step(Step(s, a), b), c)
    requires Step(Step(Step(s, a), b), c) == t
    ensures Reaches(s, t)
  {
    OneStep(s, a);
    OneStep(Step(s, a), b);
    OneStep(Step(Step(s, a), b), c);
    Onwards(s, Step(s, a), Step(Step(s, a), b));
    Onwards(s, Step(Step(s, a), b), t);
  }

  function Enabled(to: nat): Response { Response(0x01FF, 0, to) }

  function Ended(to: nat): Response { Response(0x01FE, 0, to) }

  function EnableOf(n: nat): Item { Item(n, Enable, ENABLE_CONFIG) }

  function EndOf(n: nat): Item { Item(n, End, END_CONFIG) }

  /** c's ENABLE_CONFIG has been queued. */
  function Asked(c: Call): State {
    INITIAL.(calls := [c], session := Awaiting(Enable, false), enqueued := [EnableOf(0)])
  }

  /** It is out and unanswered for two seconds; the call has given up on it. */
  function GaveUp(c: Call): State {
    Asked(c).(session := Clearing(End, false), taken := 1, written := [EnableOf(0)], waiting := true,
              deadline := TIMEOUT_MS, now := TIMEOUT_MS, log := [Sent(EnableOf(0), 0)])
  }

  lemma Asks(c: Call)
    ensures Reaches(INITIAL, Asked(c))
  {
    ThreeSteps(INITIAL, Acquire(c), ClearSlot, Put, Asked(c));
  }

  lemma TimesOut(c: Call)
    ensures Reaches(Asked(c), GaveUp(c))
  {
    ThreeSteps(Asked(c), Send, Tick(TIMEOUT_MS), GiveUp, GaveUp(c));
  }

  /** The late answer has come in while END_CONFIG is being queued. */
  function Late(c: Call): State {
    GaveUp(c).(session := Queueing(End, false), responses := [Enabled(0)], pending := true, waiting := false,
               log := [Sent(EnableOf(0), 0), Terminator])
  }

  /** It has satisfied the END_CONFIG wait; END_CONFIG itself is still queued. */
  function Shifted(c: Call): State {
    Late(c).(session := Unlocked, returned := [false], pending := false,
             accepted := [Accept(EndOf(0), 1, 0, 0)], enqueued := [EnableOf(0), EndOf(0)])
  }

  lemma AnsweredLate(c: Call)
    ensures Reaches(GaveUp(c), Late(c))
  {
    ThreeSteps(GaveUp(c), Tick(0), ClearSlot, Answer(Some(Enabled(0))), Late(c));
  }

  lemma LateAnswerTaken(c: Call)
    ensures Reaches(Late(c), Shifted(c))
  {
    ThreeSteps(Late(c), Put, Take, Tick(0), Shifted(c));
  }

  /** The next call is queueing its ENABLE_CONFIG; END_CONFIG has been sent. */
  function NextCall(c: Call, d: Call): State {
    Shifted(c).(calls := [c, d], session := Queueing(Enable, false), since := 1, taken := 2, waiting := true,
                written := [EnableOf(0), EndOf(0)], deadline := 2 * TIMEOUT_MS,
                log := Shifted(c).log + [Sent(EndOf(0), TIMEOUT_MS)])
  }

  /** The answer to END_CONFIG has come in before that. */
  function EndLate(c: Call, d: Call): State {
    var s := NextCall(c, d);
    s.(responses := [Enabled(0), Ended(1)], pending := true, waiting := false, log := s.log + [Terminator])
  }

  /** It has satisfied the wait for ENABLE_CONFIG, which is still queued. */
  function ShiftedAgain(c: Call, d: Call): State {
    var s := EndLate(c, d);
    s.(session := Clearing(Param, false), pending := false,
       accepted := s.accepted + [Accept(EnableOf(1), 2, 1, 1)], enqueued := s.enqueued + [EnableOf(1)])
  }

  lemma NextCallStarts(c: Call, d: Call)
    ensures Reaches(Shifted(c), NextCall(c, d))
  {
    ThreeSteps(Shifted(c), Send, Acquire(d), ClearSlot, NextCall(c, d));
  }

  lemma EndAnsweredLate(c: Call, d: Call)
    ensures Reaches(NextCall(c, d), EndLate(c, d))
  {
    OneStep(NextCall(c, d), Answer(Some(Ended(1))));
    assert Step(NextCall(c, d), Answer(Some(Ended(1)))) == EndLate(c, d);
  }

  lemma EndAnswerTaken(c: Call, d: Call)
    ensures Reaches(EndLate(c, d), ShiftedAgain(c, d))
  {
    ThreeSteps(EndLate(c, d), Put, Take, Tick(0), ShiftedAgain(c, d));
  }

  /** The second call waits for its parameter command; its ENABLE_CONFIG has only now been answered. */
  function Deceivable(c: Call, d: Call): State {
    var s := ShiftedAgain(c, d);
    s.(session := Queueing(Param, false), responses := [Enabled(0), Ended(1), Enabled(2)], pending := true,
       since := 2, taken := 3, written := s.enqueued, log := s.log + [Sent(EnableOf(1), TIMEOUT_MS), Terminator])
  }

  /** The parameter wait has been satisfied by that answer; the parameter command is still queued. */
  function Deceived(c: Call, d: Call): State {
    var s, param := Deceivable(c, d), Item(1, Param, d.cmd);
    s.(session := Clearing(End, true), pending := false,
       accepted := s.accepted + [Accept(param, 3, 2, 2)], enqueued := s.enqueued + [param])
  }

  lemma EnableAnsweredLate(c: Call, d: Call)
    ensures Reaches(ShiftedAgain(c, d), Deceivable(c, d))
  {
    ThreeSteps(ShiftedAgain(c, d), Send, ClearSlot, Answer(Some(Enabled(2))), Deceivable(c, d));
  }

  lemma EnableAnswerTaken(c: Call, d: Call)
    requires |d.cmd.data| <= MAX_DATA
    ensures Reaches(Deceivable(c, d), Deceived(c, d))
  {
    ThreeSteps(Deceivable(c, d), Put, Take, Tick(0), Deceived(c, d));
  }

  /** The second call has returned success; only the three frames before its parameter are written. */
  predicate WronglyOk(t: State) {
    t.returned == [false, true] && t.written == [EnableOf(0), EndOf(0), EnableOf(1)]
  }

  lemma DeceivedReturns(c: Call, d: Call) returns (t: State)
    ensures Reaches(Deceived(c, d), t) && WronglyOk(t)
  {
    t := Step(Step(Step(Deceived(c, d), ClearSlot), Put), GiveUp);
    ThreeSteps(Deceived(c, d), ClearSlot, Put, GiveUp, t);
  }

  lemma Onwards4(s: State, t: State, u: State, v: State, w: State)
    requires Reaches(s, t) && Reaches(t, u) && Reaches(u, v) && Reaches(v, w)
    ensures Reaches(s, w)
  {
    Onwards(s, t, u);
    Onwards(s, u, v);
    Onwards(s, v, w);
  }

  lemma ToShifted(c: Call)
    ensures Reaches(INITIAL, Shifted(c))
  {
    Asks(c);
    TimesOut(c);
    AnsweredLate(c);
    LateAnswerTaken(c);
    Onwards4(INITIAL, Asked(c), GaveUp(c), Late(c), Shifted(c));
  }

  lemma ToDeceivable(c: Call, d: Call)
    ensures Reaches(Shifted(c), Deceivable(c, d))
  {
    NextCallStarts(c, d);
    EndAnsweredLate(c, d);
    EndAnswerTaken(c, d);
    EnableAnsweredLate(c, d);
    Onwards4(Shifted(c), NextCall(c, d), EndLate(c, d), ShiftedAgain(c, d), Deceivable(c, d));
  }

  lemma ToWronglyOk(c: Call, d: Call) returns (t: State)
    requires |d.cmd.data| <= MAX_DATA
    ensures Reaches(INITIAL, t) && WronglyOk(t)
  {
    ToShifted(c);
    ToDeceivable(c, d);
    EnableAnswerTaken(c, d);
    t := DeceivedReturns(c, d);
    Onwards4(INITIAL, Shifted(c), Deceivable(c, d), Deceived(c, d), t);
  }

  /** With an honest sensor, session_cmd can return success before its parameter command has been
    * written, let alone answered: each wait takes whatever response is deposited next, so after one
    * late answer all the following ones are shifted by one. */
  lemma SuccessBeforeSending(c: Call, d: Call) returns (es: seq<Event>)
    requires |d.cmd.data| <= MAX_DATA
    ensures HonestRun(INITIAL, es)
    ensures var t := Exec(INITIAL, es);
      t.returned == [false, true] && forall i :: 0 <= i < |t.written| ==> !t.written[i].phase.Param?
  {
    var t := ToWronglyOk(c, d);
    es :| RunsTo(INITIAL, es, t);
  }
}
