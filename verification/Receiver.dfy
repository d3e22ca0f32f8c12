/**
 The message queue of aoo.receive~: stream messages with a positive sample offset wait in a
 min-queue for a one-shot clock; all others go out at once.

 Every method is one `Scheduling.Step`, so the theorems about runs of the scheduler hold of
 every sequence of calls.
 */
module Receivers {
  import opened Basics
  import opened PriorityQueues
  import opened Scheduling
  import opened DataCodec

  datatype StreamMessage = StreamMessage(source: Endpoint, channel: int, ty: DataType, data: seq<Byte>)

  // What becomes of a message: it is put out, or dropped because its endpoint is not valid.
  datatype Outcome = PutOut(message: StreamMessage) | Dropped(message: StreamMessage)

  function OutcomeOf(m: StreamMessage): Outcome {
    if m.source.address.valid then PutOut(m) else Dropped(m)
  }

  function Outcomes(sent: seq<Item<StreamMessage>>): (r: seq<Outcome>)
    ensures |r| == |sent|
    ensures forall i :: 0 <= i < |sent| ==>
              r[i] == if sent[i].data.source.address.valid then PutOut(sent[i].data) else Dropped(sent[i].data)
  {
    seq(|sent|, i requires 0 <= i < |sent| => OutcomeOf(sent[i].data))
  }

  // The sign of sample offset / sample rate * 1000 in floating point: before DSP is on, the rate
  // is 0 and the quotient is infinite or not a number.
  predicate IsDelayed(sampleOffset: int, sampleRate: nat) {
    if sampleRate == 0 then sampleOffset > 0
    else sampleOffset as real / sampleRate as real * 1000.0 > 0.0
  }

  lemma IsDelayedIff(sampleOffset: int, sampleRate: nat)
    ensures IsDelayed(sampleOffset, sampleRate) <==> sampleOffset > 0
  {
  }

  class AooReceive {
    const queue: PriorityQueue<StreamMessage>
    // what the queue clock is armed for
    var queueClock: Option<real>
    // whether the object has a node
    var hasNode: bool
    // what became of the messages so far
    ghost var output: seq<Outcome>

    ghost predicate Valid()
      reads this, queue
    {
      queue.Valid() && ArmedForEarliest(Queue())
    }

    ghost function Queue(): QueueState<StreamMessage>
      reads this, queue
    {
      QueueState(queue.Items(), queueClock)
    }

    constructor ()
      ensures Valid() && Queue() == QueueState(multiset{}, None) && output == []
      ensures fresh(queue)
    {
      queue := new PriorityQueue<StreamMessage>();
      queueClock := None;
      hasNode := false;
      output := [];
    }

    // Writing down the endpoint takes a node.
    method Dispatch(m: StreamMessage)
      requires hasNode
      modifies this`output
      ensures output == old(output) + [if m.source.address.valid then PutOut(m) else Dropped(m)]
    {
      if !m.source.address.valid {
        output := output + [Dropped(m)];
        return;
      }
      output := output + [PutOut(m)];
    }

    // Puts the message on the queue and re-arms the clock if it is the next due element.
    method Schedule(m: StreamMessage, abstime: real)
      requires Valid()
      modifies this`queueClock, queue
      ensures Valid() && Queue() == Enqueue(old(Queue()), Item(m, abstime))
    {
      EnqueueKeepsArmed(Queue(), Item(m, abstime));
      if !queue.Empty() {
        queue.TopIsEarliest();
      }
      if queue.Empty() || abstime < queue.Top().time {
        queueClock := Some(abstime);
      }
      queue.Push(Item(m, abstime));
    }

    // `abstime` is the system time after the delay, `at` the logical time.
    method HandleStreamMessage(m: StreamMessage, sampleOffset: int, sampleRate: nat, abstime: real, ghost at: real)
      requires Valid() && (sampleOffset <= 0 ==> hasNode)
      modifies this`queueClock, this`output, queue
      ensures Valid()
      ensures Step(old(Queue()), if sampleOffset > 0 then Enqueued(Item(m, abstime), at) else Idle(at), Queue())
      ensures output == if sampleOffset > 0 then old(output)
                        else old(output) + [if m.source.address.valid then PutOut(m) else Dropped(m)]
    {
      IsDelayedIff(sampleOffset, sampleRate);
      if IsDelayed(sampleOffset, sampleRate) {
        Schedule(m, abstime);
      } else {
        Dispatch(m);
      }
    }

    // What a tick that started with `start` and `before` has done after sending `sent`.
    ghost predicate HasSent(start: QueueState<StreamMessage>, before: seq<Outcome>,
                            now: real, sent: seq<Item<StreamMessage>>)
      reads this, queue
    {
      && queue.Valid()
      && PartlyDrained(start.items, now, sent, queue.Items())
      && output == before + Outcomes(sent)
    }

    // A queue tick needs the node exactly when something is due.
    predicate NodeIfDue(now: real)
      reads this, queue
    {
      !queue.Empty() && queue.Top().time <= now ==> hasNode
    }

    method DispatchTop(ghost start: QueueState<StreamMessage>, ghost before: seq<Outcome>,
                       now: real, ghost sent: seq<Item<StreamMessage>>)
      requires HasSent(start, before, now, sent) && hasNode && !queue.Empty() && queue.Top().time <= now
      modifies this`output, queue
      ensures HasSent(start, before, now, sent + [old(queue.Top())])
      ensures |queue.Items()| < |old(queue.Items())|
    {
      ghost var top := queue.Top();
      queue.TopIsEarliest();
      SendEarliest(start.items, now, sent, queue.Items(), top);
      assert Outcomes(sent + [top]) == Outcomes(sent) + [OutcomeOf(top.data)];
      Dispatch(queue.Top().data);
      queue.Pop();
    }

    method SendDue(ghost start: QueueState<StreamMessage>, ghost before: seq<Outcome>,
                   now: real)
      returns (ghost sent: seq<Item<StreamMessage>>)
      requires HasSent(start, before, now, []) && NodeIfDue(now)
      modifies this`output, queue
      ensures HasSent(start, before, now, sent)
      ensures queue.Empty() || queue.Top().time > now
    {
      sent := [];
      while !queue.Empty() && queue.Top().time <= now
        invariant HasSent(start, before, now, sent) && NodeIfDue(now)
        decreases |queue.Items()|
      {
        ghost var top := queue.Top();
        DispatchTop(start, before, now, sent);
        sent := sent + [top];
      }
    }

    // The one-shot queue clock has fired, which disarms it.
    method QueueTick(now: real) returns (ghost sent: seq<Item<StreamMessage>>)
      requires Valid() && NodeIfDue(now)
      modifies this`queueClock, this`output, queue
      ensures Valid()
      ensures Step(old(Queue()), Ticked(now, sent), Queue())
      ensures output == old(output) + Outcomes(sent)
    {
      ghost var start := Queue();
      queueClock := None;
      sent := SendDue(start, output, now);
      if !queue.Empty() {
        queue.TopIsEarliest();
        queueClock := Some(queue.Top().time);
        NothingElseDue(start, now, sent, queue.Top(), Queue());
      }
    }
  }
}
