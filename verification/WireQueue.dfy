/** That Wire's one-step queue is the step-by-step queue of SpscQueue: each of the queue's separate loads,
  * copies and stores either matches the step of Wire that stands for it or is invisible there.
  */
module WireQueue {
  import opened Basics
  import opened Wire
  import SpscQueue

  function Commands(items: seq<Item>): (cs: seq<SpscQueue.Command>)
    ensures |cs| == |items|
    ensures forall i :: 0 <= i < |items| ==> cs[i] == items[i].cmd
  {
    seq(|items|, i requires 0 <= i < |items| => items[i].cmd)
  }

  /** q has been through exactly the puts and sends of s. */
  ghost predicate Represents(q: SpscQueue.State, s: State) {
    && SpscQueue.Inv(q) && WellFormed(s)
    && q.enqueued == Commands(s.enqueued) && |q.dequeued| == s.taken
  }

  lemma InitRepresents(word: nat)
    requires SpscQueue.WordSize(word)
    ensures Represents(SpscQueue.Init(word), INITIAL)
  {
    SpscQueue.InitSatisfiesInv(word);
  }

  /** spsc_enqueue refuses exactly when Wire finds the queue full, and then Wire's Put drops the command. */
  lemma RefusalIsFull(q: SpscQueue.State, s: State)
    requires Represents(q, s) && q.producer.HeadLoaded? && s.session.Queueing?
    ensures var p := SpscQueue.Step(q, SpscQueue.CheckRoom);
      && (p.producer.Idle? <==> SpscQueue.QUEUE_SIZE <= |s.enqueued| - s.taken)
      && (p.producer.Idle? ==> StepPut(s).enqueued == s.enqueued && Represents(p, StepPut(s)))
  {
    SpscQueue.CheckRoomExact(q);
  }

  /** Once the copy is made there is still room, and publishing it is Wire's Put. */
  lemma PublishIsPut(q: SpscQueue.State, s: State)
    requires Represents(q, s) && s.session.Queueing? && |Current(s).cmd.data| <= MAX_DATA
    requires q.producer.Written? && q.producer.cmd == Current(s).cmd
    ensures StepPut(s).enqueued == s.enqueued + [Current(s)]
    ensures Represents(SpscQueue.Step(q, SpscQueue.StoreHead), StepPut(s))
  {
    SpscQueue.StoreHeadKeepsInv(q);
    assert Commands(s.enqueued + [Current(s)]) == Commands(s.enqueued) + [Current(s).cmd];
  }

  /** What spsc_dequeue has copied is the command Wire sends next, and removing it is Wire's Send. */
  lemma RemovalIsSend(q: SpscQueue.State, s: State)
    requires Represents(q, s) && q.consumer.Copied?
    ensures s.taken < |s.enqueued| && q.consumer.cmd == s.enqueued[s.taken].cmd
    ensures Represents(SpscQueue.Step(q, SpscQueue.StoreTail), StepSend(s))
  {
    SpscQueue.StoreTailKeepsInv(q);
  }

  /** spsc_dequeue finds nothing exactly when Wire has nothing to send. */
  lemma EmptyIsNothingToSend(q: SpscQueue.State, s: State)
    requires Represents(q, s) && q.consumer.TailLoaded?
    ensures SpscQueue.Step(q, SpscQueue.CheckEmpty).consumer.Resting? <==> s.taken == |s.enqueued|
  {
    SpscQueue.CheckEmptyExact(q);
  }

  /** The other steps of the queue are invisible to Wire, and Wire's other steps to the queue. */
  lemma OtherQueueSteps(q: SpscQueue.State, e: SpscQueue.Event, s: State)
    requires Represents(q, s)
    requires !(e.StoreHead? && q.producer.Written?) && !(e.StoreTail? && q.consumer.Copied?)
    ensures Represents(SpscQueue.Step(q, e), s)
  {
    SpscQueue.StepKeepsInv(q, e);
  }

  lemma OtherWireSteps(q: SpscQueue.State, s: State, e: Event)
    requires Represents(q, s) && !e.Put? && !e.Send?
    ensures Represents(q, Step(s, e))
  {
  }
}
