/** The lock-free command queue of ld2410s_uart/transport.c: one producer, one consumer, eight
  * slots, and two size_t counters that wrap.
  *
  * `State` interleaves the separate loads, slot copies and stores of spsc_enqueue and
  * spsc_dequeue as sequentially consistent steps. `enqueued` and `dequeued` are the whole
  * history of published and removed commands; the code itself never sees them.
  */
module SpscQueue {
  import opened Basics

  const QUEUE_SIZE: nat := 8

  /** `struct transport_cmd`. */
  datatype Command = Command(word: nat, data: seq<nat>)

  const ZEROED := Command(0, [])

  /** A size_t modulus the queue works for: 2^32 and 2^64 qualify. */
  predicate WordSize(word: nat) { QUEUE_SIZE < word && word % QUEUE_SIZE == 0 }

  lemma WordSizes()
    ensures WordSize(0x1_0000_0000) && WordSize(0x1_0000_0000_0000_0000)
  {
  }

  datatype Producer =
    | Idle
    | HeadLoaded(cmd: Command, head: nat)
    | Writing(cmd: Command, head: nat)             // room seen; the slot copy may be under way
    | Written(cmd: Command, head: nat)             // slot copied, counter not yet stored

  datatype Consumer =
    | Resting
    | TailLoaded(tail: nat)
    | Reading(tail: nat)                     // a command seen; the slot copy may be under way
    | Copied(tail: nat, cmd: Command)              // slot copied, counter not yet stored

  datatype State = State(
    word: nat,
    slots: seq<Command>,
    head: nat,
    tail: nat,
    producer: Producer,
    consumer: Consumer,
    enqueued: seq<Command>,
    dequeued: seq<Command>)

  datatype Event =
    | LoadHead(cmd: Command)       // spsc_enqueue: first load
    | CheckRoom              // second load and the comparison
    | WriteSlot
    | StoreHead
    | LoadTail               // spsc_dequeue: first load
    | CheckEmpty             // second load and the comparison
    | ReadSlot
    | StoreTail

  function Init(word: nat): State {
    State(word, [ZEROED, ZEROED, ZEROED, ZEROED, ZEROED, ZEROED, ZEROED, ZEROED], 0, 0, Idle, Resting, [], [])
  }

  /** size_t subtraction. */
  function Minus(a: int, b: int, word: nat): nat
    requires 0 < word
  {
    (a - b) % word
  }

  function Step(s: State, e: Event): State
    requires WordSize(s.word) && |s.slots| == QUEUE_SIZE
  {
    match e
    case LoadHead(cmd) => if s.producer.Idle? then s.(producer := HeadLoaded(cmd, s.head)) else s
    case CheckRoom =>
      if !s.producer.HeadLoaded? then s
      else if Minus(s.producer.head, s.tail, s.word) >= QUEUE_SIZE then s.(producer := Idle)
      else s.(producer := Writing(s.producer.cmd, s.producer.head))
    case WriteSlot =>
      if !s.producer.Writing? then s
      else s.(slots := s.slots[s.producer.head % QUEUE_SIZE := s.producer.cmd],
              producer := Written(s.producer.cmd, s.producer.head))
    case StoreHead =>
      if !s.producer.Written? then s
      else s.(head := (s.producer.head + 1) % s.word, producer := Idle,
              enqueued := s.enqueued + [s.producer.cmd])
    case LoadTail => if s.consumer.Resting? then s.(consumer := TailLoaded(s.tail)) else s
    case CheckEmpty =>
      if !s.consumer.TailLoaded? then s
      else if s.consumer.tail == s.head then s.(consumer := Resting)
      else s.(consumer := Reading(s.consumer.tail))
    case ReadSlot =>
      if !s.consumer.Reading? then s
      else s.(consumer := Copied(s.consumer.tail, s.slots[s.consumer.tail % QUEUE_SIZE]))
    case StoreTail =>
      if !s.consumer.Copied? then s
      else s.(tail := (s.consumer.tail + 1) % s.word, consumer := Resting,
              dequeued := s.dequeued + [s.consumer.cmd])
  }

  function Exec(s: State, es: seq<Event>): (t: State)
    requires WordSize(s.word) && |s.slots| == QUEUE_SIZE
    ensures t.word == s.word && |t.slots| == QUEUE_SIZE
    decreases |es|
  {
    if es == [] then s else Exec(Step(s, es[0]), es[1..])
  }

  ghost predicate Inv(s: State) {
    var h, t := |s.enqueued|, |s.dequeued|;
    && WordSize(s.word) && |s.slots| == QUEUE_SIZE
    && t <= h <= t + QUEUE_SIZE
    && s.head == h % s.word && s.tail == t % s.word
    && s.dequeued <= s.enqueued
    && (forall k: nat {:trigger s.enqueued[k]} :: t <= k < h ==> s.slots[k % QUEUE_SIZE] == s.enqueued[k])
    && match s.producer {
         case Idle => true
         case HeadLoaded(_, head) => head == s.head
         case Writing(_, head) => head == s.head && h < t + QUEUE_SIZE
         case Written(cmd, head) =>
           head == s.head && h < t + QUEUE_SIZE && s.slots[h % QUEUE_SIZE] == cmd
       }
    && match s.consumer {
         case Resting => true
         case TailLoaded(tail) => tail == s.tail
         case Reading(tail) => tail == s.tail && t < h
         case Copied(tail, cmd) => tail == s.tail && t < h && cmd == s.enqueued[t]
       }
  }

  /** Because the slot count divides the word modulus, a wrapped counter selects the same slot as
    * the count it stands for. */
  lemma WrapKeepsSlot(n: nat, word: nat)
    requires WordSize(word)
    ensures (n % word) % QUEUE_SIZE == n % QUEUE_SIZE
  {
    var q, w := n / word, word / QUEUE_SIZE;
    assert word == QUEUE_SIZE * w;
    assert n == QUEUE_SIZE * (w * q) + n % word by {
      assert word * q == QUEUE_SIZE * (w * q);
    }
    var r := n % word;
    assert r == QUEUE_SIZE * (r / QUEUE_SIZE) + r % QUEUE_SIZE;
    assert n == QUEUE_SIZE * (w * q + r / QUEUE_SIZE) + r % QUEUE_SIZE;
    assert n == QUEUE_SIZE * (n / QUEUE_SIZE) + n % QUEUE_SIZE;
    DivModUnique(QUEUE_SIZE, w * q + r / QUEUE_SIZE, r % QUEUE_SIZE, n / QUEUE_SIZE, n % QUEUE_SIZE);
  }

  /** The wrapped difference of two close counters is their true difference. */
  lemma WrapMinus(h: nat, t: nat, word: nat)
    requires t <= h < t + word
    ensures Minus(h % word, t % word, word) == h - t
  {
    var a, b, m := h / word, t / word, h % word - t % word;
    var q := m / word;
    assert h == word * a + h % word && t == word * b + t % word && m == word * q + m % word;
    assert word * (a - b + q) == word * a - word * b + word * q;
    DivModUnique(word, a - b + q, m % word, 0, h - t);
  }

  lemma CheckRoomExact(s: State)
    requires Inv(s) && s.producer.HeadLoaded?
    ensures Step(s, CheckRoom).producer.Writing? <==> |s.enqueued| - |s.dequeued| < QUEUE_SIZE
    ensures Inv(Step(s, CheckRoom))
  {
    WrapMinus(|s.enqueued|, |s.dequeued|, s.word);
  }

  lemma CheckEmptyExact(s: State)
    requires Inv(s) && s.consumer.TailLoaded?
    ensures Step(s, CheckEmpty).consumer.Reading? <==> s.dequeued != s.enqueued
    ensures Inv(Step(s, CheckEmpty))
  {
    if |s.dequeued| < |s.enqueued| {
      ModDistinct(|s.dequeued|, |s.enqueued|, s.word);
    } else {
      assert s.dequeued == s.enqueued;
    }
  }

  lemma WriteSlotKeepsInv(s: State)
    requires Inv(s) && s.producer.Writing?
    ensures Inv(Step(s, WriteSlot))
  {
    var h, t := |s.enqueued|, |s.dequeued|;
    WrapKeepsSlot(h, s.word);
    forall k: nat | t <= k < h
      ensures k % QUEUE_SIZE != h % QUEUE_SIZE
    {
      ModDistinct(k, h, QUEUE_SIZE);
    }
  }

  lemma StoreHeadKeepsInv(s: State)
    requires Inv(s) && s.producer.Written?
    ensures Inv(Step(s, StoreHead))
  {
    ModSucc(|s.enqueued|, s.word);
  }

  lemma ReadSlotKeepsInv(s: State)
    requires Inv(s) && s.consumer.Reading?
    ensures Inv(Step(s, ReadSlot)) && Step(s, ReadSlot).consumer.Copied?
  {
    WrapKeepsSlot(|s.dequeued|, s.word);
    assert s.slots[|s.dequeued| % QUEUE_SIZE] == s.enqueued[|s.dequeued|];
  }

  lemma StoreTailKeepsInv(s: State)
    requires Inv(s) && s.consumer.Copied?
    ensures Inv(Step(s, StoreTail))
  {
    ModSucc(|s.dequeued|, s.word);
  }

  lemma StepKeepsInv(s: State, e: Event)
    requires Inv(s)
    ensures Inv(Step(s, e))
  {
    if e.CheckRoom? && s.producer.HeadLoaded? {
      CheckRoomExact(s);
    } else if e.CheckEmpty? && s.consumer.TailLoaded? {
      CheckEmptyExact(s);
    } else if e.WriteSlot? && s.producer.Writing? {
      WriteSlotKeepsInv(s);
    } else if e.StoreHead? && s.producer.Written? {
      StoreHeadKeepsInv(s);
    } else if e.ReadSlot? && s.consumer.Reading? {
      ReadSlotKeepsInv(s);
    } else if e.StoreTail? && s.consumer.Copied? {
      StoreTailKeepsInv(s);
    }
  }

  /** Under every interleaving: commands come out in the order they went in, none lost, invented
    * or repeated, and at most eight are held. */
  lemma {:induction false} FifoUnderEveryInterleaving(s: State, es: seq<Event>)
    requires Inv(s)
    ensures Inv(Exec(s, es))
    ensures var t := Exec(s, es);
      && t.dequeued <= t.enqueued
      && |t.enqueued| - |t.dequeued| <= QUEUE_SIZE
    decreases |es|
  {
    if es != [] {
      StepKeepsInv(s, es[0]);
      FifoUnderEveryInterleaving(Step(s, es[0]), es[1..]);
    }
  }

  /** While both slot copies are under way they are in different slots, so neither ever sees a
    * half-written command. */
  lemma NoTornCopy(s: State)
    requires Inv(s) && s.producer.Writing? && s.consumer.Reading?
    ensures s.producer.head % QUEUE_SIZE != s.consumer.tail % QUEUE_SIZE
  {
    WrapKeepsSlot(|s.enqueued|, s.word);
    WrapKeepsSlot(|s.dequeued|, s.word);
    ModDistinct(|s.dequeued|, |s.enqueued|, QUEUE_SIZE);
  }

  lemma InitSatisfiesInv(word: nat)
    requires WordSize(word)
    ensures Inv(Init(word))
  {
  }

  // ---------------------------------------------------------------------------------------
  // The queue as an object, each operation run to completion
  // ---------------------------------------------------------------------------------------

  class Queue {
    const word: nat
    const slots: array<Command>
    var head: nat
    var tail: nat
    ghost var enqueued: seq<Command>
    ghost var dequeued: seq<Command>

    ghost function View(): State
      reads this, slots
    {
      State(word, slots[..], head, tail, Idle, Resting, enqueued, dequeued)
    }

    ghost predicate Valid()
      reads this, slots
    {
      Inv(View())
    }

    ghost function Contents(): seq<Command>
      requires Valid()
      reads this, slots
    {
      enqueued[|dequeued|..]
    }

    constructor (word: nat)
      requires WordSize(word)
      ensures Valid() && Contents() == [] && fresh(slots)
    {
      this.word := word;
      slots := new Command[8](_ => ZEROED);
      head, tail := 0, 0;
      enqueued, dequeued := [], [];
    }

    /** spsc_enqueue. */
    method Enqueue(cmd: Command) returns (ok: bool)
      requires Valid()
      modifies this`head, this`enqueued, slots
      ensures Valid()
      ensures ok <==> old(|Contents()|) < QUEUE_SIZE
      ensures Contents() == if ok then old(Contents()) + [cmd] else old(Contents())
    {
      ghost var s0 := View().(producer := HeadLoaded(cmd, head));
      CheckRoomExact(s0);
      var h := head;
      if Minus(h, tail, word) >= QUEUE_SIZE {
        return false;
      }
      ghost var s1 := s0.(producer := Writing(cmd, h));
      WriteSlotKeepsInv(s1);
      slots[h % QUEUE_SIZE] := cmd;
      ghost var s2 := Step(s1, WriteSlot);
      assert slots[..] == s2.slots;
      StoreHeadKeepsInv(s2);
      head := (h + 1) % word;
      enqueued := enqueued + [cmd];
      assert View() == Step(s2, StoreHead);
      ok := true;
    }

    /** spsc_dequeue. */
    method Dequeue() returns (r: Option<Command>)
      requires Valid()
      modifies this`tail, this`dequeued
      ensures Valid()
      ensures r == (if old(Contents()) == [] then None else Some(old(Contents())[0]))
      ensures Contents() == if r.None? then old(Contents()) else old(Contents())[1..]
    {
      ghost var s0 := View().(consumer := TailLoaded(tail));
      CheckEmptyExact(s0);
      var t := tail;
      if t == head {
        return None;
      }
      ghost var s1 := s0.(consumer := Reading(t));
      ReadSlotKeepsInv(s1);
      var cmd := slots[t % QUEUE_SIZE];
      StoreTailKeepsInv(Step(s1, ReadSlot));
      tail := (t + 1) % word;
      dequeued := dequeued + [cmd];
      assert View() == Step(Step(s1, ReadSlot), StoreTail);
      r := Some(cmd);
    }
  }
}
