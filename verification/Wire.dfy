/** Transactions over the sensor's serial line: the callers of session_cmd (session.c), the
  * command queue, and the sending half of the reader loop (transport.c), as a state machine over
  * every interleaving. The queue is SpscQueue's, a FIFO of at most eight commands, used in one step
  * at each end (see WireQueue); cmd_mutex makes its producers one at a time.
  */
module Wire {
  import opened Basics
  import SpscQueue

  type Command = SpscQueue.Command

  /** The three send_and_wait calls of one session_cmd. */
  datatype Phase = Enable | Param | End

  function Rank(p: Phase): nat {
    match p
    case Enable => 0
    case Param => 1
    case End => 2
  }

  /** A call of session_cmd that got the mutex. */
  datatype Call = Call(caller: nat, cmd: Command)

  /** A queued command: which call it belongs to (calls are numbered in mutex order) and why. */
  datatype Item = Item(call: nat, phase: Phase, cmd: Command)

  const ENABLE_CONFIG := SpscQueue.Command(0x00FF, [0x01, 0x00])
  const END_CONFIG := SpscQueue.Command(0x00FE, [])
  const TIMEOUT_MS: nat := 2000

  function CommandOf(c: Call, p: Phase): Command {
    match p
    case Enable => ENABLE_CONFIG
    case Param => c.cmd
    case End => END_CONFIG
  }

  /** send_cmd writes nothing for a payload over 128 bytes, although such a command is queued,
    * dequeued and waited for. */
  predicate Sendable(i: Item) { 2 + |i.cmd.data| <= MAX_DATA }

  /** A deposited response; `to` numbers the written command it answers, which only the sensor
    * knows. */
  datatype Response = Response(word: nat, status: nat, to: nat)

  /** Where the call holding cmd_mutex is; `ok` is session_cmd's ret == 0 so far. */
  datatype Session =
    | Unlocked
    | Clearing(phase: Phase, ok: bool)        // about to reset resp_pending
    | Queueing(phase: Phase, ok: bool)        // about to enqueue
    | Awaiting(phase: Phase, ok: bool)        // waiting for resp_pending

  /** The reader's history: a command handed to send_cmd, or a response terminator seen. */
  datatype Mark = Sent(item: Item, at: nat) | Terminator

  /** A wait that took responses[index] for item, the pos-th command queued; responses numbered from
    * `since` arrived after its reset. */
  datatype Accept = Accept(item: Item, pos: nat, since: nat, index: nat)

  datatype State = State(
    calls: seq<Call>,
    session: Session,
    returned: seq<bool>,                      // session_cmd results, in call order
    responses: seq<Response>,                 // everything on_cmd_response has deposited
    pending: bool,                            // resp_pending; the slot holds the last response
    since: nat,
    accepted: seq<Accept>,
    enqueued: seq<Item>,
    taken: nat,                               // how many of them the reader has dequeued
    written: seq<Item>,                       // frames put on the wire
    waiting: bool,                            // waiting_for_response
    deadline: nat,
    now: nat,                                 // monotonic clock, milliseconds
    log: seq<Mark>)

  datatype Event =
    | Acquire(call: Call)
    | ClearSlot
    | Put
    | Take
    | GiveUp                                  // the timeout may win over a response just deposited
    | Expire
    | Send
    | Answer(response: Option<Response>)
    | Tick(ms: nat)

  const INITIAL := State([], Unlocked, [], [], false, 0, [], [], 0, [], false, 0, 0, [])

  function Current(s: State): Item
    requires s.calls != [] && !s.session.Unlocked?
  {
    var n := |s.calls| - 1;
    Item(n, s.session.phase, CommandOf(s.calls[n], s.session.phase))
  }

  /** send_and_wait has returned, with 0 exactly if ok. */
  function After(s: State, ok: bool): (t: State)
    requires !s.session.Unlocked?
    ensures WellFormed(s) ==> WellFormed(t)
    ensures t == s.(session := t.session, returned := t.returned)
  {
    match s.session.phase
    case Enable => s.(session := if ok then Clearing(Param, false) else Clearing(End, false))
    case Param => s.(session := Clearing(End, ok))
    case End => s.(session := Unlocked, returned := s.returned + [s.session.ok])
  }

  function StepPut(s: State): (t: State)
    requires WellFormed(s) && s.session.Queueing?
    ensures WellFormed(t) && Grows(s, Put, t)
  {
    var item := Current(s);
    if MAX_DATA < |item.cmd.data| || SpscQueue.QUEUE_SIZE <= |s.enqueued| - s.taken then After(s, false)
    else s.(enqueued := s.enqueued + [item], session := Awaiting(s.session.phase, s.session.ok))
  }

  /** What the current wait takes when it looks now. */
  function Taken(s: State): Accept
    requires WellFormed(s) && s.session.Awaiting? && s.pending
  {
    Accept(Current(s), |s.enqueued| - 1, s.since, |s.responses| - 1)
  }

  function StepTake(s: State): (t: State)
    requires WellFormed(s) && s.session.Awaiting? && s.pending
    ensures WellFormed(t) && Grows(s, Take, t)
  {
    var index := |s.responses| - 1;
    After(s.(pending := false, accepted := s.accepted + [Taken(s)]), s.responses[index].status == 0)
  }

  function StepSend(s: State): (t: State)
    requires WellFormed(s) && s.taken < |s.enqueued|
    ensures WellFormed(t) && Grows(s, Send, t)
  {
    var item := s.enqueued[s.taken];
    s.(taken := s.taken + 1,
       written := if Sendable(item) then s.written + [item] else s.written,
       waiting := true, deadline := s.now + TIMEOUT_MS,
       log := s.log + [Sent(item, s.now)])
  }

  function StepAnswer(s: State, response: Option<Response>): (t: State)
    requires WellFormed(s)
    ensures WellFormed(t) && Grows(s, Answer(response), t)
  {
    var t := s.(waiting := false, log := s.log + [Terminator]);
    if response.Some? then t.(responses := s.responses + [response.value], pending := true) else t
  }

  predicate WellFormed(s: State) {
    && (s.calls == [] ==> s.session.Unlocked?)
    && s.taken <= |s.enqueued| <= s.taken + SpscQueue.QUEUE_SIZE
    && (s.pending ==> s.responses != [])
    && (s.session.Awaiting? ==> s.enqueued != [])
  }

  /** Steps only add to what has been queued, written, deposited and accepted, each in its own step. */
  predicate Grows(s: State, e: Event, t: State) {
    && s.enqueued <= t.enqueued && (!e.Put? ==> t.enqueued == s.enqueued)
    && s.written <= t.written && (!e.Send? ==> t.written == s.written && t.taken == s.taken)
    && s.responses <= t.responses && (!e.Answer? ==> t.responses == s.responses)
    && s.accepted <= t.accepted && (!e.Take? ==> t.accepted == s.accepted)
    && (!e.Acquire? ==> t.calls == s.calls)
  }

  function Step(s: State, e: Event): (t: State)
    requires WellFormed(s)
    ensures WellFormed(t) && Grows(s, e, t)
  {
    match e
    case Acquire(call) =>
      if s.session.Unlocked? then s.(calls := s.calls + [call], session := Clearing(Enable, false)) else s
    case ClearSlot =>
      if s.session.Clearing? then
        s.(pending := false, since := |s.responses|, session := Queueing(s.session.phase, s.session.ok))
      else s
    case Put => if s.session.Queueing? then StepPut(s) else s
    case Take => if s.session.Awaiting? && s.pending then StepTake(s) else s
    case GiveUp => if s.session.Awaiting? then After(s, false) else s
    case Expire => if s.waiting && s.deadline <= s.now then s.(waiting := false) else s
    case Send => if !s.waiting && s.taken < |s.enqueued| then StepSend(s) else s
    case Answer(response) => StepAnswer(s, response)
    case Tick(ms) => s.(now := s.now + ms)
  }

  function Exec(s: State, es: seq<Event>): (t: State)
    requires WellFormed(s)
    ensures WellFormed(t)
    decreases |es|
  {
    if es == [] then s else Exec(Step(s, es[0]), es[1..])
  }

  // ---------------------------------------------------------------------------------------
  // Order and bracketing
  // ---------------------------------------------------------------------------------------

  function Filter(items: seq<Item>): seq<Item> {
    if items == [] then []
    else
      var n := |items| - 1;
      Filter(items[..n]) + if Sendable(items[n]) then [items[n]] else []
  }

  /** Item b may directly follow item a. */
  predicate Follows(a: Item, b: Item) {
    if a.call == b.call then Rank(a.phase) < Rank(b.phase) else a.call < b.call
  }

  predicate OwnEnable(a: Item, b: Item) { a == Item(b.call, Enable, ENABLE_CONFIG) }

  predicate JointAt(items: seq<Item>, i: nat)
    requires i < |items|
  {
    && (0 < i ==> Follows(items[i - 1], items[i]))
    && (items[i].phase.Param? ==> 0 < i && OwnEnable(items[i - 1], items[i]))
  }

  /** Calls do not interleave, each contributes each phase at most once and in order, and every
    * parameter command directly follows its own call's ENABLE_CONFIG. */
  ghost predicate Bracketed(items: seq<Item>) {
    forall i: nat :: i < |items| ==> JointAt(items, i)
  }

  function Last(items: seq<Item>): Item
    requires items != []
  {
    items[|items| - 1]
  }

  lemma BracketedAppend(items: seq<Item>, x: Item)
    requires Bracketed(items)
    requires items != [] ==> Follows(Last(items), x)
    requires x.phase.Param? ==> items != [] && OwnEnable(Last(items), x)
    ensures Bracketed(items + [x])
  {
    forall i: nat | i < |items| + 1
      ensures JointAt(items + [x], i)
    {
      if i < |items| {
        assert JointAt(items, i);
      }
    }
  }

  lemma BracketedPrefix(items: seq<Item>, n: nat)
    requires Bracketed(items) && n <= |items|
    ensures Bracketed(items[..n])
  {
    forall i: nat | i < n
      ensures JointAt(items[..n], i)
    {
      assert JointAt(items, i);
    }
  }

  ghost predicate ItemsOfCalls(items: seq<Item>, calls: seq<Call>) {
    forall i :: 0 <= i < |items| ==>
      items[i].call < |calls| && items[i].cmd == CommandOf(calls[items[i].call], items[i].phase)
  }

  /** The session state agrees with the last command queued. */
  ghost predicate SessionMatches(s: State) {
    !s.session.Unlocked? ==>
      && s.calls != []
      && (s.session.Awaiting? ==> s.enqueued != [] && Last(s.enqueued) == Current(s))
      && (!s.session.Awaiting? && s.session.phase.Param? ==>
            s.enqueued != [] && OwnEnable(Last(s.enqueued), Current(s)))
      && (!s.session.Awaiting? && s.enqueued != [] ==> Follows(Last(s.enqueued), Current(s)))
  }

  ghost predicate OrderInv(s: State) {
    && WellFormed(s)
    && Bracketed(s.enqueued) && ItemsOfCalls(s.enqueued, s.calls) && SessionMatches(s)
    && s.written == Filter(s.enqueued[..s.taken])
  }

  lemma AfterKeepsSession(s: State, ok: bool)
    requires SessionMatches(s) && (s.session.Awaiting? || (s.session.Queueing? && !ok))
    ensures SessionMatches(After(s, ok))
  {
  }

  lemma QueuedKeepsOrder(s: State)
    requires OrderInv(s) && s.session.Queueing? && StepPut(s).enqueued != s.enqueued
    ensures OrderInv(StepPut(s))
  {
    var t := StepPut(s);
    BracketedAppend(s.enqueued, Current(s));
    assert t.enqueued == s.enqueued + [Current(s)];
    assert t.enqueued[..s.taken] == s.enqueued[..s.taken];
  }

  lemma PutKeepsOrder(s: State)
    requires OrderInv(s) && s.session.Queueing?
    ensures OrderInv(StepPut(s))
  {
    var t := StepPut(s);
    if t.enqueued == s.enqueued {
      AfterKeepsSession(s, false);
      assert t.written == s.written && t.taken == s.taken && t.calls == s.calls;
    } else {
      QueuedKeepsOrder(s);
    }
  }

  lemma SendKeepsOrder(s: State)
    requires OrderInv(s) && s.taken < |s.enqueued|
    ensures OrderInv(StepSend(s))
  {
    var t, n := StepSend(s), s.taken;
    assert t.calls == s.calls && t.session == s.session && t.enqueued == s.enqueued && t.taken == n + 1;
    FilterNext(s.enqueued, n);
    assert t.written == Filter(t.enqueued[..t.taken]);
  }

  lemma FilterNext(items: seq<Item>, n: nat)
    requires n < |items|
    ensures Filter(items[..n + 1]) == Filter(items[..n]) + if Sendable(items[n]) then [items[n]] else []
  {
    assert items[..n + 1][..n] == items[..n];
  }

  lemma AcquireKeepsOrder(s: State, c: Call)
    requires OrderInv(s) && s.session.Unlocked?
    ensures OrderInv(Step(s, Acquire(c)))
  {
    var t := Step(s, Acquire(c));
    if s.enqueued != [] {
      assert Last(s.enqueued).call < |s.calls|;
    }
  }

  /** The other steps leave queue and wire alone. */
  lemma OtherStepFrame(s: State, e: Event)
    requires WellFormed(s) && !e.Put? && !e.Send? && !e.Acquire?
    ensures var t := Step(s, e);
      && t.enqueued == s.enqueued && t.taken == s.taken && t.written == s.written && t.calls == s.calls
      && (t.session != s.session && !e.ClearSlot? ==> s.session.Awaiting? && ((e.Take? && s.pending) || e.GiveUp?))
  {
  }

  lemma OtherStepKeepsOrder(s: State, e: Event)
    requires OrderInv(s) && !e.Put? && !e.Send? && !e.Acquire?
    ensures OrderInv(Step(s, e))
  {
    var t := Step(s, e);
    OtherStepFrame(s, e);
    if t.session != s.session && !e.ClearSlot? {
      WaitOverKeepsSession(s, e);
    }
  }

  lemma WaitOverKeepsSession(s: State, e: Event)
    requires WellFormed(s) && SessionMatches(s) && s.session.Awaiting?
    requires (e.Take? && s.pending) || e.GiveUp?
    ensures SessionMatches(Step(s, e))
  {
    if e.Take? {
      var u := s.(pending := false, accepted := Step(s, e).accepted);
      assert SessionMatches(u);
      AfterKeepsSession(u, s.responses[|s.responses| - 1].status == 0);
    } else {
      AfterKeepsSession(s, false);
    }
  }

  lemma StepKeepsOrder(s: State, e: Event)
    requires OrderInv(s)
    ensures OrderInv(Step(s, e))
  {
    if e.Put? {
      if s.session.Queueing? { PutKeepsOrder(s); }
    } else if e.Send? {
      if s.taken < |s.enqueued| { SendKeepsOrder(s); }
    } else if e.Acquire? {
      if s.session.Unlocked? { AcquireKeepsOrder(s, e.call); }
    } else {
      OtherStepKeepsOrder(s, e);
    }
  }

  lemma FollowsTransitive(a: Item, b: Item, c: Item)
    requires Follows(a, b) && Follows(b, c)
    ensures Follows(a, c)
  {
  }

  /** Dropping unsendable commands keeps the bracketing, because ENABLE_CONFIG is never dropped. */
  lemma {:induction false} FilterBracketed(items: seq<Item>)
    requires Bracketed(items)
    ensures Bracketed(Filter(items))
    ensures Filter(items) != [] ==> items != []
    ensures Filter(items) != [] && Last(Filter(items)) != Last(items) ==> Follows(Last(Filter(items)), Last(items))
    ensures items != [] && Sendable(Last(items)) ==> Filter(items) != [] && Last(Filter(items)) == Last(items)
    decreases |items|
  {
    if items != [] {
      var n := |items| - 1;
      var init, x := items[..n], items[n];
      BracketedPrefix(items, n);
      FilterBracketed(init);
      assert JointAt(items, n);
      var kept := Filter(init);
      if kept != [] {
        if Last(kept) != Last(init) {
          FollowsTransitive(Last(kept), Last(init), x);
        }
        assert Follows(Last(kept), x);
      }
      if Sendable(x) {
        if x.phase.Param? {
          assert Last(init) == items[n - 1] && Sendable(Last(init));
        }
        BracketedAppend(kept, x);
      } else {
        assert Filter(items) == kept;
      }
    }
  }

  /** In every run, for any number of callers: commands leave in the order they were queued, each
    * at most once; on the wire no call's frames are interrupted by another's, and every parameter
    * command directly follows its own caller's ENABLE_CONFIG. */
  lemma {:induction false} WireIsBracketed(s: State, es: seq<Event>)
    requires OrderInv(s)
    ensures OrderInv(Exec(s, es))
    ensures Bracketed(Exec(s, es).written)
    decreases |es|
  {
    if es == [] {
      var items := s.enqueued[..s.taken];
      BracketedPrefix(s.enqueued, s.taken);
      FilterBracketed(items);
    } else {
      StepKeepsOrder(s, es[0]);
      WireIsBracketed(Step(s, es[0]), es[1..]);
    }
  }

  // ---------------------------------------------------------------------------------------
  // One outstanding command
  // ---------------------------------------------------------------------------------------

  /** No response terminator after position i. */
  ghost predicate Unanswered(log: seq<Mark>, i: nat) {
    forall k :: i < k < |log| ==> log[k].Sent?
  }

  /** Any two sends are separated by a terminator or by the full timeout. */
  ghost predicate Spaced(log: seq<Mark>) {
    forall i, j :: 0 <= i < j < |log| && log[i].Sent? && log[j].Sent? && Unanswered(log[..j], i) ==>
      log[i].at + TIMEOUT_MS <= log[j].at
  }

  ghost predicate SpacingInv(s: State) {
    && WellFormed(s)
    && Spaced(s.log)
    && forall i :: 0 <= i < |s.log| && s.log[i].Sent? && Unanswered(s.log, i) ==>
         s.log[i].at + TIMEOUT_MS <= s.now || (s.waiting && s.deadline == s.log[i].at + TIMEOUT_MS)
  }

  lemma AppendMark(log: seq<Mark>, m: Mark)
    requires Spaced(log)
    requires m.Sent? ==>
      forall i :: 0 <= i < |log| && log[i].Sent? && Unanswered(log, i) ==> log[i].at + TIMEOUT_MS <= m.at
    ensures Spaced(log + [m])
  {
    var l := log + [m];
    forall i, j | 0 <= i < j < |l| && l[i].Sent? && l[j].Sent? && Unanswered(l[..j], i)
      ensures l[i].at + TIMEOUT_MS <= l[j].at
    {
      assert l[..j] == log[..j];
      if j == |log| {
        assert log[..j] == log;
      }
    }
  }

  lemma UnansweredBefore(log: seq<Mark>, m: Mark, i: nat)
    requires i < |log|
    ensures Unanswered(log + [m], i) <==> Unanswered(log, i) && m.Sent?
  {
    var l := log + [m];
    if Unanswered(l, i) {
      assert l[|log|].Sent?;
      forall k | i < k < |log|
        ensures log[k].Sent?
      {
        assert l[k] == log[k];
      }
    }
  }

  /** What a step does to the log: nothing, a terminator, or a send that had leave to go out. */
  lemma LogGrows(s: State, e: Event)
    requires WellFormed(s)
    ensures var t := Step(s, e);
      || (t.log == s.log && s.now <= t.now
          && (s.waiting && !t.waiting ==> s.deadline <= s.now) && (t.waiting ==> t.deadline == s.deadline && s.waiting))
      || (t.log == s.log + [Terminator] && t.now == s.now)
      || ((exists item :: t.log == s.log + [Sent(item, s.now)])
          && !s.waiting && t.now == s.now && t.waiting && t.deadline == s.now + TIMEOUT_MS)
  {
    if e.Send? {
      if !s.waiting && s.taken < |s.enqueued| {
        assert Step(s, e) == StepSend(s) && StepSend(s).log == s.log + [Sent(s.enqueued[s.taken], s.now)];
      }
    } else if e.Answer? {
      assert Step(s, e).log == s.log + [Terminator];
    } else {
      QuietOnTheLine(s, e);
    }
  }

  lemma QuietOnTheLine(s: State, e: Event)
    requires WellFormed(s) && !e.Send? && !e.Answer?
    ensures var t := Step(s, e);
      && t.log == s.log && s.now <= t.now && t.deadline == s.deadline
      && (t.waiting == s.waiting || (e.Expire? && s.deadline <= s.now && !t.waiting))
  {
  }

  lemma StepKeepsSpacing(s: State, e: Event)
    requires SpacingInv(s)
    ensures SpacingInv(Step(s, e))
  {
    var t := Step(s, e);
    LogGrows(s, e);
    if t.log != s.log {
      GrowthKeepsSpacing(s, t, t.log[|s.log|]);
    }
  }

  lemma GrowthKeepsSpacing(s: State, t: State, m: Mark)
    requires SpacingInv(s) && WellFormed(t) && t.log == s.log + [m] && t.now == s.now
    requires m.Sent? ==> m.at == s.now && !s.waiting && t.waiting && t.deadline == s.now + TIMEOUT_MS
    ensures SpacingInv(t)
  {
    AppendMark(s.log, m);
    forall i | 0 <= i < |t.log| && t.log[i].Sent? && Unanswered(t.log, i)
      ensures t.log[i].at + TIMEOUT_MS <= t.now || (t.waiting && t.deadline == t.log[i].at + TIMEOUT_MS)
    {
      if i < |s.log| {
        UnansweredBefore(s.log, m, i);
      }
    }
  }

  lemma {:induction false} SendsAreSpaced(s: State, es: seq<Event>)
    requires SpacingInv(s)
    ensures SpacingInv(Exec(s, es))
    decreases |es|
  {
    if es != [] {
      StepKeepsSpacing(s, es[0]);
      SendsAreSpaced(Step(s, es[0]), es[1..]);
    }
  }

  // ---------------------------------------------------------------------------------------
  // When the next command goes out
  // ---------------------------------------------------------------------------------------

  /** While a command is outstanding it is the last thing that happened on the line, and its two seconds
    * count from its sending. */
  predicate DeadlineInv(s: State) {
    s.waiting ==>
      s.log != [] && s.log[|s.log| - 1].Sent? && s.deadline == s.log[|s.log| - 1].at + 2000
  }

  lemma StepKeepsDeadline(s: State, e: Event)
    requires WellFormed(s) && DeadlineInv(s)
    ensures DeadlineInv(Step(s, e))
  {
    LogGrows(s, e);
  }

  lemma {:induction false} RunKeepsDeadline(s: State, es: seq<Event>)
    requires WellFormed(s) && DeadlineInv(s)
    ensures DeadlineInv(Exec(s, es))
    decreases |es|
  {
    if es != [] {
      StepKeepsDeadline(s, es[0]);
      RunKeepsDeadline(Step(s, es[0]), es[1..]);
    }
  }

  /** The line is free: nothing sent yet, the last command answered, or two seconds gone since it. */
  predicate Free(s: State) {
    s.log == [] || s.log[|s.log| - 1].Terminator? || s.log[|s.log| - 1].at + 2000 <= s.now
  }

  lemma FreeSends(s: State)
    requires SpacingInv(s) && DeadlineInv(s) && s.taken < |s.enqueued|
    ensures var t, item := Step(Step(s, Expire), Send), s.enqueued[s.taken];
      if Free(s) then
        && t.taken == s.taken + 1 && t.log == s.log + [Sent(item, s.now)] && t.waiting
        && t.written == s.written + (if Sendable(item) then [item] else [])
      else t == s
  {
    if s.log != [] && s.log[|s.log| - 1].Sent? {
      assert Unanswered(s.log, |s.log| - 1);
    }
  }

  /** In every run, with a command queued: the reader's next pass sends exactly the next one if the line is
    * free, and nothing otherwise. */
  lemma NextGoesOutWhenFree(es: seq<Event>)
    requires Exec(INITIAL, es).taken < |Exec(INITIAL, es).enqueued|
    ensures var s := Exec(INITIAL, es);
      var t, item := Step(Step(s, Expire), Send), s.enqueued[s.taken];
      if Free(s) then
        && t.taken == s.taken + 1 && t.log == s.log + [Sent(item, s.now)] && t.waiting
        && t.written == s.written + (if Sendable(item) then [item] else [])
      else t == s
  {
    SendsAreSpaced(INITIAL, es);
    RunKeepsDeadline(INITIAL, es);
    FreeSends(Exec(INITIAL, es));
  }

  // ---------------------------------------------------------------------------------------
  // What an accepted response is worth
  // ---------------------------------------------------------------------------------------

  predicate Acked(s: State, call: nat) {
    exists i :: 0 <= i < |s.accepted| && AckOf(s, i, call)
  }

  predicate AckOf(s: State, i: nat, call: nat)
    requires i < |s.accepted|
  {
    var a := s.accepted[i];
    && a.item.call == call && a.item.phase.Param?
    && a.index < |s.responses| && s.responses[a.index].status == 0
  }

  ghost predicate AcceptInv(s: State) {
    && WellFormed(s)
    && |s.returned| + (if s.session.Unlocked? then 0 else 1) == |s.calls|
    && (s.session.Queueing? || s.session.Awaiting? ==> s.since <= |s.responses|)
    && ((s.session.Queueing? || s.session.Awaiting?) && s.pending ==> s.since < |s.responses|)
    && (forall i :: 0 <= i < |s.accepted| ==> s.accepted[i].since <= s.accepted[i].index < |s.responses|)
    && (forall c :: 0 <= c < |s.returned| && s.returned[c] ==> Acked(s, c))
    && (!s.session.Unlocked? && s.session.ok ==> s.session.phase.End? && Acked(s, |s.calls| - 1))
  }

  lemma AckedStays(s: State, t: State)
    requires s.accepted <= t.accepted && s.responses <= t.responses
    ensures forall c :: Acked(s, c) ==> Acked(t, c)
  {
    forall c | Acked(s, c)
      ensures Acked(t, c)
    {
      var i :| 0 <= i < |s.accepted| && AckOf(s, i, c);
      assert AckOf(t, i, c);
    }
  }

  lemma AfterFrame(s: State, ok: bool)
    requires !s.session.Unlocked?
    ensures var t := After(s, ok);
      && t.responses == s.responses && t.accepted == s.accepted && t.calls == s.calls
      && !t.session.Queueing? && !t.session.Awaiting?
      && (if s.session.phase.End? then t.session == Unlocked && t.returned == s.returned + [s.session.ok]
          else
            && t.returned == s.returned && !t.session.Unlocked?
            && (t.session.ok <==> ok && s.session.phase.Param?) && (t.session.ok ==> t.session.phase.End?))
  {
  }

  lemma AfterKeepsAccept(s: State, ok: bool)
    requires AcceptInv(s) && (s.session.Awaiting? || s.session.Queueing?) && s.calls != []
    requires ok && s.session.phase.Param? ==> Acked(s, |s.calls| - 1)
    ensures AcceptInv(After(s, ok))
  {
    AfterFrame(s, ok);
    AckedStays(s, After(s, ok));
  }

  lemma TakeKeepsAccept(s: State)
    requires AcceptInv(s) && s.session.Awaiting? && s.pending
    ensures AcceptInv(StepTake(s))
  {
    var index := |s.responses| - 1;
    var u := s.(pending := false, accepted := s.accepted + [Taken(s)]);
    AckedStays(s, u);
    if s.session.phase.Param? && s.responses[index].status == 0 {
      assert AckOf(u, |s.accepted|, |s.calls| - 1);
    }
    AfterKeepsAccept(u, s.responses[index].status == 0);
  }

  /** The other steps deposit, reset the slot, start a call, or do nothing that matters here. */
  lemma OtherAcceptFrame(s: State, e: Event)
    requires WellFormed(s) && !e.Take? && !e.GiveUp? && !e.Put?
    ensures var t := Step(s, e);
      && t.accepted == s.accepted && t.returned == s.returned
      && (if t.calls == s.calls then t.session == s.session || (e.ClearSlot? && s.session.Clearing?)
          else e.Acquire? && s.session.Unlocked? && |t.calls| == |s.calls| + 1)
  {
  }

  lemma OtherStepKeepsAccept(s: State, e: Event)
    requires AcceptInv(s) && !e.Take? && !e.GiveUp? && !e.Put?
    ensures AcceptInv(Step(s, e))
  {
    OtherAcceptFrame(s, e);
    AckedStays(s, Step(s, e));
  }

  lemma PutKeepsAccept(s: State)
    requires AcceptInv(s) && s.session.Queueing?
    ensures AcceptInv(StepPut(s))
  {
    if StepPut(s).enqueued == s.enqueued {
      AfterKeepsAccept(s, false);
    } else {
      AckedStays(s, StepPut(s));
    }
  }

  lemma StepKeepsAccept(s: State, e: Event)
    requires AcceptInv(s)
    ensures AcceptInv(Step(s, e))
  {
    if e.Take? {
      if s.session.Awaiting? && s.pending { TakeKeepsAccept(s); }
    } else if e.GiveUp? {
      if s.session.Awaiting? { AfterKeepsAccept(s, false); }
    } else if e.Put? {
      if s.session.Queueing? { PutKeepsAccept(s); }
    } else {
      OtherStepKeepsAccept(s, e);
    }
  }

  /** In every run: every accepted response was deposited after its wait reset the slot, and a call
    * that returned success accepted a status-0 response while waiting on its parameter command. */
  lemma {:induction false} SuccessWasAnswered(s: State, es: seq<Event>)
    requires AcceptInv(s)
    ensures AcceptInv(Exec(s, es))
    decreases |es|
  {
    if es != [] {
      StepKeepsAccept(s, es[0]);
      SuccessWasAnswered(Step(s, es[0]), es[1..]);
    }
  }

  // ---------------------------------------------------------------------------------------
  // No parameter command without its enable
  // ---------------------------------------------------------------------------------------

  predicate EnableAckOf(s: State, i: nat, call: nat)
    requires i < |s.accepted|
  {
    var a := s.accepted[i];
    && a.item == Item(call, Enable, ENABLE_CONFIG)
    && a.index < |s.responses| && s.responses[a.index].status == 0
  }

  /** The call's ENABLE_CONFIG wait has accepted a response of status 0. */
  predicate Enabled(s: State, call: nat) {
    exists i :: 0 <= i < |s.accepted| && EnableAckOf(s, i, call)
  }

  predicate ParamEnabled(s: State, k: nat)
    requires k < |s.enqueued|
  {
    s.enqueued[k].phase.Param? ==> Enabled(s, s.enqueued[k].call)
  }

  ghost predicate EnableInv(s: State) {
    && WellFormed(s)
    && (!s.session.Unlocked? && s.session.phase.Param? ==> Enabled(s, |s.calls| - 1))
    && (forall k: nat :: k < |s.enqueued| ==> ParamEnabled(s, k))
  }

  lemma EnabledStays(s: State, t: State, call: nat)
    requires s.accepted <= t.accepted && s.responses <= t.responses && Enabled(s, call)
    ensures Enabled(t, call)
  {
    var i :| 0 <= i < |s.accepted| && EnableAckOf(s, i, call);
    assert EnableAckOf(t, i, call);
  }

  lemma GrowthKeepsEnabled(s: State, t: State)
    requires EnableInv(s) && WellFormed(t) && s.accepted <= t.accepted && s.responses <= t.responses
    requires s.enqueued <= t.enqueued && |t.enqueued| <= |s.enqueued| + 1
    requires |s.enqueued| < |t.enqueued| ==> ParamEnabled(t, |s.enqueued|)
    requires !t.session.Unlocked? && t.session.phase.Param? ==> Enabled(t, |t.calls| - 1)
    ensures EnableInv(t)
  {
    forall k: nat | k < |t.enqueued|
      ensures ParamEnabled(t, k)
    {
      if k < |s.enqueued| {
        assert ParamEnabled(s, k);
        if s.enqueued[k].phase.Param? { EnabledStays(s, t, s.enqueued[k].call); }
      }
    }
  }

  lemma TakeKeepsEnabled(s: State)
    requires EnableInv(s) && s.session.Awaiting? && s.pending
    ensures EnableInv(StepTake(s))
  {
    var t := StepTake(s);
    if s.session.phase.Enable? && s.responses[|s.responses| - 1].status == 0 {
      assert EnableAckOf(t, |s.accepted|, |s.calls| - 1);
    }
    GrowthKeepsEnabled(s, t);
  }

  lemma PutKeepsEnabled(s: State)
    requires EnableInv(s) && s.session.Queueing?
    ensures EnableInv(StepPut(s))
  {
    var t := StepPut(s);
    if s.session.phase.Param? { EnabledStays(s, t, |s.calls| - 1); }
    GrowthKeepsEnabled(s, t);
  }

  /** The other steps leave the queue and the phase alone, or leave the parameter phase. */
  lemma PhaseFrame(s: State, e: Event)
    requires WellFormed(s) && !e.Put? && !e.Take?
    ensures var t := Step(s, e);
      && t.enqueued == s.enqueued
      && (!t.session.Unlocked? && t.session.phase.Param? ==>
            !s.session.Unlocked? && s.session.phase.Param? && t.calls == s.calls)
  {
  }

  lemma StepKeepsEnabled(s: State, e: Event)
    requires EnableInv(s)
    ensures EnableInv(Step(s, e))
  {
    if e.Put? {
      if s.session.Queueing? { PutKeepsEnabled(s); }
    } else if e.Take? {
      if s.session.Awaiting? && s.pending { TakeKeepsEnabled(s); }
    } else {
      var t := Step(s, e);
      PhaseFrame(s, e);
      if !t.session.Unlocked? && t.session.phase.Param? { EnabledStays(s, t, |s.calls| - 1); }
      GrowthKeepsEnabled(s, t);
    }
  }

  /** In every run: a parameter command is queued only after its own call's ENABLE_CONFIG wait has accepted
    * a response of status 0. */
  lemma {:induction false} ParamsAreEnabled(s: State, es: seq<Event>)
    requires EnableInv(s)
    ensures EnableInv(Exec(s, es))
    decreases |es|
  {
    if es != [] {
      StepKeepsEnabled(s, es[0]);
      ParamsAreEnabled(Step(s, es[0]), es[1..]);
    }
  }

  // ---------------------------------------------------------------------------------------
  // An undisturbed call
  // ---------------------------------------------------------------------------------------

  /** The reader has nothing to do. */
  predicate Idle(s: State) { !s.waiting && s.taken == |s.enqueued| }

  /** One send_and_wait: reset, queue, send, answer, take. */
  function Round(r: Response): seq<Event> { [ClearSlot, Put, Send, Answer(Some(r)), Take] }

  lemma {:induction false} ExecAppend(s: State, es: seq<Event>, fs: seq<Event>)
    requires WellFormed(s)
    ensures Exec(s, es + fs) == Exec(Exec(s, es), fs)
    decreases |es|
  {
    if es == [] {
      assert es + fs == fs;
    } else {
      assert (es + fs)[1..] == es[1..] + fs;
      ExecAppend(Step(s, es[0]), es[1..], fs);
    }
  }

  lemma ExecOne(s: State, es: seq<Event>, e: Event)
    requires WellFormed(s)
    ensures Exec(s, es + [e]) == Step(Exec(s, es), e)
  {
    ExecAppend(s, es, [e]);
    assert [e][1..] == [] && Exec(Step(Exec(s, es), e), []) == Step(Exec(s, es), e);
  }

  lemma OneByOne(s: State, r: Response)
    requires WellFormed(s)
    ensures Exec(s, Round(r)) ==
      Step(Step(Step(Step(Step(s, ClearSlot), Put), Send), Answer(Some(r))), Take)
  {
    var a := Answer(Some(r));
    assert Round(r) == [ClearSlot, Put, Send, a] + [Take] && [ClearSlot, Put, Send, a] == [ClearSlot, Put, Send] + [a];
    assert [ClearSlot, Put, Send] == [ClearSlot, Put] + [Send] && [ClearSlot, Put] == [ClearSlot] + [Put];
    assert [ClearSlot] == [] + [ClearSlot] && Exec(s, []) == s;
    ExecOne(s, [], ClearSlot);
    ExecOne(s, [ClearSlot], Put);
    ExecOne(s, [ClearSlot, Put], Send);
    ExecOne(s, [ClearSlot, Put, Send], a);
    ExecOne(s, [ClearSlot, Put, Send, a], Take);
  }

  /** The command goes out and its answer alone decides how the call goes on. */
  lemma UndisturbedRound(s: State, r: Response)
    requires WellFormed(s) && s.session.Clearing? && Idle(s) && Sendable(Current(s))
    ensures var t := Exec(s, Round(r));
      && WellFormed(t) && Idle(t) && t.calls == s.calls
      && t.written == s.written + [Current(s)]
      && (s.session.phase.Enable? ==>
            t.returned == s.returned && t.session == Clearing(if r.status == 0 then Param else End, false))
      && (s.session.phase.Param? ==> t.returned == s.returned && t.session == Clearing(End, r.status == 0))
      && (s.session.phase.End? ==> t.returned == s.returned + [s.session.ok] && t.session == Unlocked)
  {
    var s1 := Step(s, ClearSlot);
    var s2 := Step(s1, Put);
    var s3 := Step(s2, Send);
    var s4 := Step(s3, Answer(Some(r)));
    OneByOne(s, r);
    assert s2.enqueued == s.enqueued + [Current(s)] && s2.session == Awaiting(s.session.phase, s.session.ok);
    assert s3.written == s.written + [Current(s)] && s3.taken == |s3.enqueued|;
    assert s4.pending && s4.responses == s.responses + [r];
  }

  /** A call with the line to itself and every command answered: it writes ENABLE_CONFIG, its command and
    * END_CONFIG, in that order, and succeeds exactly when its command was answered with status 0; if
    * ENABLE_CONFIG was not, the command is not written and the call fails. */
  lemma UndisturbedCall(s: State, c: Call, r: Response, q: Response, p: Response)
    requires WellFormed(s) && s.session.Unlocked? && Idle(s) && |c.cmd.data| <= 126
    ensures var n := |s.calls|;
      var enable, param, end := Item(n, Enable, ENABLE_CONFIG), Item(n, Param, c.cmd), Item(n, End, END_CONFIG);
      if r.status == 0 then
        var t := Exec(Exec(Exec(Step(s, Acquire(c)), Round(r)), Round(q)), Round(p));
        && t.written == s.written + [enable, param, end] && t.returned == s.returned + [q.status == 0]
        && t.session == Unlocked && Idle(t)
      else
        var t := Exec(Exec(Step(s, Acquire(c)), Round(r)), Round(p));
        && t.written == s.written + [enable, end] && t.returned == s.returned + [false]
        && t.session == Unlocked && Idle(t)
  {
    var s0 := Step(s, Acquire(c));
    assert s0.session == Clearing(Enable, false) && Current(s0) == Item(|s.calls|, Enable, ENABLE_CONFIG);
    UndisturbedRound(s0, r);
    if r.status == 0 {
      UndisturbedRest(Exec(s0, Round(r)), q, p);
    } else {
      UndisturbedRound(Exec(s0, Round(r)), p);
    }
  }

  lemma UndisturbedRest(s: State, q: Response, p: Response)
    requires WellFormed(s) && s.session == Clearing(Param, false) && Idle(s) && Sendable(Current(s))
    ensures var t := Exec(Exec(s, Round(q)), Round(p));
      && t.written == s.written + [Current(s)] + [Item(|s.calls| - 1, End, END_CONFIG)]
      && t.returned == s.returned + [q.status == 0] && t.session == Unlocked && Idle(t)
  {
    UndisturbedRound(s, q);
    var m := Exec(s, Round(q));
    assert m.session == Clearing(End, q.status == 0) && m.calls == s.calls;
    assert Current(m) == Item(|s.calls| - 1, End, END_CONFIG);
    UndisturbedRound(m, p);
  }

  lemma InitialSatisfiesInvariants()
    ensures OrderInv(INITIAL) && SpacingInv(INITIAL) && DeadlineInv(INITIAL)
    ensures AcceptInv(INITIAL) && EnableInv(INITIAL)
  {
  }
}
