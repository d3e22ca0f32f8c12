/**
 Scheduling with a min-queue and a one-shot clock, as aoo.client does for peer messages and
 aoo.receive~ for stream messages.

 The queue is abstracted to a multiset of items, the clock to the time it is armed for.
 `Enqueue` and `Drained` specify the two operations; which of several simultaneous items comes
 first is left open. The theorems hold of every run: any interleaving of enqueues and ticks.
 */
module Scheduling {
  import opened Basics
  import opened PriorityQueues

  datatype QueueState<T(==)> = QueueState(items: multiset<Item<T>>, armed: Option<real>)

  // The clock is armed exactly for the earliest item, and for nothing if there is none.
  ghost predicate ArmedForEarliest<T>(s: QueueState<T>) {
    match s.armed
    case None => s.items == multiset{}
    case Some(t) => exists x :: x in s.items && Earliest(s.items, x) && x.time == t
  }

  // A new item goes to the queue, and re-arms the clock if it is due before all others.
  ghost function Enqueue<T>(s: QueueState<T>, x: Item<T>): QueueState<T> {
    QueueState(s.items + multiset{x},
               if forall y :: y in s.items ==> x.time < y.time then Some(x.time) else s.armed)
  }

  ghost predicate InOrder<T>(sent: seq<Item<T>>) {
    forall i, j :: 0 <= i < j < |sent| ==> sent[i].time <= sent[j].time
  }

  // A tick at `now` sends `sent`: all that is due, nothing that is not, in order of due time.
  ghost predicate Drained<T>(s: QueueState<T>, now: real, sent: seq<Item<T>>, s': QueueState<T>) {
    && s.items == multiset(sent) + s'.items
    && InOrder(sent)
    && (forall x :: x in sent ==> x.time <= now)
    && (forall y :: y in s'.items ==> now < y.time)
    && ArmedForEarliest(s')
  }

  // Item by item: all copies that are due are sent, all others stay.
  lemma DrainIsExact<T>(s: QueueState<T>, now: real, sent: seq<Item<T>>, s': QueueState<T>, x: Item<T>)
    requires Drained(s, now, sent, s')
    ensures multiset(sent)[x] == if x.time <= now then s.items[x] else 0
    ensures s'.items[x] == if x.time <= now then 0 else s.items[x]
  {
  }

  // What a tick sends, up to simultaneous items, and what it leaves is determined.
  lemma DrainIsUnique<T>(s: QueueState<T>, now: real, sent1: seq<Item<T>>, s1: QueueState<T>,
                         sent2: seq<Item<T>>, s2: QueueState<T>)
    requires Drained(s, now, sent1, s1) && Drained(s, now, sent2, s2)
    ensures multiset(sent1) == multiset(sent2) && s1 == s2
  {
    forall x: Item<T> ensures multiset(sent1)[x] == multiset(sent2)[x] && s1.items[x] == s2.items[x] {
      DrainIsExact(s, now, sent1, s1, x);
      DrainIsExact(s, now, sent2, s2, x);
    }
    assert s1.items == s2.items;
    ArmedIsUnique(s1, s2);
  }

  lemma ArmedIsUnique<T>(s1: QueueState<T>, s2: QueueState<T>)
    requires s1.items == s2.items && ArmedForEarliest(s1) && ArmedForEarliest(s2)
    ensures s1.armed == s2.armed
  {
  }

  // The state of a tick that has sent `sent` so far and has `items` left.
  ghost predicate PartlyDrained<T>(start: multiset<Item<T>>, now: real, sent: seq<Item<T>>, items: multiset<Item<T>>) {
    && start == multiset(sent) + items
    && InOrder(sent)
    && (forall x :: x in sent ==> x.time <= now)
    && (forall x, y :: x in sent && y in items ==> x.time <= y.time)
  }

  lemma SendEarliest<T>(start: multiset<Item<T>>, now: real, sent: seq<Item<T>>, items: multiset<Item<T>>, x: Item<T>)
    requires PartlyDrained(start, now, sent, items)
    requires Earliest(items, x) && x.time <= now
    ensures PartlyDrained(start, now, sent + [x], items - multiset{x})
  {
  }

  lemma NothingElseDue<T>(s: QueueState<T>, now: real, sent: seq<Item<T>>, x: Item<T>, s': QueueState<T>)
    requires PartlyDrained(s.items, now, sent, s'.items)
    requires if s'.items == multiset{} then s'.armed == None
             else Earliest(s'.items, x) && now < x.time && s'.armed == Some(x.time)
    ensures Drained(s, now, sent, s')
  {
  }

  // The clock never fires in vain: if it fires when armed, something is sent.
  lemma TickMakesProgress<T>(s: QueueState<T>, now: real, sent: seq<Item<T>>, s': QueueState<T>)
    requires ArmedForEarliest(s) && s.armed.Some? && s.armed.value <= now
    requires Drained(s, now, sent, s')
    ensures sent != []
  {
  }

  // ---------- Runs ----------

  // `at` and `now` are the logical time of the step; an idle step leaves the queue alone.
  datatype Event<T> =
    | Enqueued(item: Item<T>, at: real)
    | Ticked(now: real, sent: seq<Item<T>>)
    | Idle(at: real)

  function TimeOf<T(==)>(e: Event<T>): real {
    match e
    case Enqueued(_, at) => at
    case Ticked(now, _) => now
    case Idle(at) => at
  }

  ghost predicate Step<T>(s: QueueState<T>, e: Event<T>, s': QueueState<T>) {
    match e
    case Enqueued(x, _) => s' == Enqueue(s, x)
    case Ticked(now, sent) => Drained(s, now, sent, s')
    case Idle(_) => s' == s
  }

  ghost predicate IsRun<T>(states: seq<QueueState<T>>, events: seq<Event<T>>) {
    && |states| == |events| + 1
    && states[0] == QueueState(multiset{}, None)
    && (forall i :: 0 <= i < |events| ==> Step(states[i], events[i], states[i + 1]))
  }

  // Logical time never goes back.
  ghost predicate TimeFlows<T>(events: seq<Event<T>>) {
    forall i, j :: 0 <= i < j < |events| ==> TimeOf(events[i]) <= TimeOf(events[j])
  }

  // No item is enqueued for a time that has already passed.
  ghost predicate ForTheFuture<T>(events: seq<Event<T>>) {
    forall i :: 0 <= i < |events| && events[i].Enqueued? ==> events[i].at <= events[i].item.time
  }

  // Everything the run sent, in the order it was sent.
  function Sent<T(==)>(events: seq<Event<T>>): seq<Item<T>> {
    if events == [] then [] else
      var e := events[|events| - 1];
      Sent(events[..|events| - 1]) + if e.Ticked? then e.sent else []
  }

  ghost function AllEnqueued<T>(events: seq<Event<T>>): multiset<Item<T>> {
    if events == [] then multiset{} else
      var e := events[|events| - 1];
      AllEnqueued(events[..|events| - 1]) + if e.Enqueued? then multiset{e.item} else multiset{}
  }

  lemma EnqueueKeepsArmed<T>(s: QueueState<T>, x: Item<T>)
    requires ArmedForEarliest(s)
    ensures ArmedForEarliest(Enqueue(s, x))
  {
  }

  /** In every reachable state the clock is armed for exactly the earliest item. */
  lemma {:induction false} ArmedInvariant<T>(states: seq<QueueState<T>>, events: seq<Event<T>>)
    requires IsRun(states, events)
    ensures ArmedForEarliest(states[|events|])
  {
    var n := |events| - 1;
    if n >= 0 {
      ArmedInvariant(states[..n + 1], events[..n]);
      assert Step(states[n], events[n], states[n + 1]);
      if events[n].Enqueued? {
        EnqueueKeepsArmed(states[n], events[n].item);
      }
    }
  }

  // Nothing but a tick happens once the time has come that the clock is armed for.
  ghost predicate ClockKeepsUp<T>(states: seq<QueueState<T>>, events: seq<Event<T>>)
    requires |states| > |events|
  {
    forall i :: 0 <= i < |events| && !events[i].Ticked? && states[i].armed.Some? ==>
      TimeOf(events[i]) <= states[i].armed.value
  }

  ghost predicate NothingOverdue<T>(states: seq<QueueState<T>>, events: seq<Event<T>>)
    requires |states| > |events|
  {
    forall i, x :: 0 <= i < |events| && !events[i].Ticked? && x in states[i].items ==> TimeOf(events[i]) <= x.time
  }

  lemma ArmedAt<T>(states: seq<QueueState<T>>, events: seq<Event<T>>, i: nat)
    requires IsRun(states, events) && i <= |events|
    ensures ArmedForEarliest(states[i])
  {
    ArmedInvariant(states[..i + 1], events[..i]);
  }

  lemma OverdueIff<T>(s: QueueState<T>, at: real)
    requires ArmedForEarliest(s)
    ensures (s.armed.Some? ==> at <= s.armed.value) <==> forall x :: x in s.items ==> at <= x.time
  {
  }

  /**
   Timeliness: no item is ever found waiting past its due time if and only if the clock keeps
   up. So one armed time is enough for a whole queue.
   */
  lemma TimelyIff<T>(states: seq<QueueState<T>>, events: seq<Event<T>>)
    requires IsRun(states, events)
    ensures NothingOverdue(states, events) <==> ClockKeepsUp(states, events)
  {
    forall i | 0 <= i < |events|
      ensures var at := TimeOf(events[i]);
              (states[i].armed.Some? ==> at <= states[i].armed.value) <==>
              forall x :: x in states[i].items ==> at <= x.time
    {
      ArmedAt(states, events, i);
      OverdueIff(states[i], TimeOf(events[i]));
    }
  }

  // Every tick happens at the very time that the clock is armed for.
  ghost predicate FiresOnTime<T>(states: seq<QueueState<T>>, events: seq<Event<T>>)
    requires |states| > |events|
  {
    forall i :: 0 <= i < |events| && events[i].Ticked? ==> states[i].armed == Some(events[i].now)
  }

  // Every tick sends something, and each item at its due time.
  ghost predicate SendsOnTime<T>(now: real, sent: seq<Item<T>>) {
    sent != [] && forall x :: x in sent ==> x.time == now
  }

  lemma TickOnTimeIff<T>(s: QueueState<T>, now: real, sent: seq<Item<T>>, s': QueueState<T>)
    requires ArmedForEarliest(s) && Drained(s, now, sent, s')
    ensures s.armed == Some(now) <==> SendsOnTime(now, sent)
  {
    forall x ensures x in sent <==> x in s.items && x.time <= now {
      DrainIsExact(s, now, sent, s', x);
      assert x in sent <==> x in multiset(sent);
    }
    if s.armed.Some? {
      var x :| x in s.items && Earliest(s.items, x) && s.armed == Some(x.time);
      assert x.time <= now ==> x in sent;
    }
    if sent != [] {
      assert sent[0] in sent;
    }
  }

  /** All items leave at their due times if and only if the clock fires at the times it is armed for. */
  lemma OnTimeIff<T>(states: seq<QueueState<T>>, events: seq<Event<T>>)
    requires IsRun(states, events)
    ensures FiresOnTime(states, events) <==>
            forall i :: 0 <= i < |events| && events[i].Ticked? ==> SendsOnTime(events[i].now, events[i].sent)
  {
    forall i | 0 <= i < |events| && events[i].Ticked?
      ensures states[i].armed == Some(events[i].now) <==> SendsOnTime(events[i].now, events[i].sent)
    {
      ArmedAt(states, events, i);
      assert Step(states[i], events[i], states[i + 1]);
      TickOnTimeIff(states[i], events[i].now, events[i].sent, states[i + 1]);
    }
  }

  /** Over every run, what was enqueued is what was sent plus what is still queued. */
  lemma {:induction false} QueueConservation<T>(states: seq<QueueState<T>>, events: seq<Event<T>>)
    requires IsRun(states, events)
    ensures AllEnqueued(events) == multiset(Sent(events)) + states[|events|].items
  {
    var n := |events| - 1;
    if n >= 0 {
      QueueConservation(states[..n + 1], events[..n]);
      assert Step(states[n], events[n], states[n + 1]);
      if events[n].Ticked? {
        assert multiset(Sent(events)) == multiset(Sent(events[..n])) + multiset(events[n].sent);
      }
    }
  }

  // ---------- Order over the whole run ----------

  // Some tick after event `i` sends the item.
  ghost predicate SentAfter<T>(events: seq<Event<T>>, i: nat, x: Item<T>) {
    exists j :: i < j < |events| && events[j].Ticked? && x in events[j].sent
  }

  // If event `i` enqueues an item that is sent later on, nothing that has left before is due
  // after it.
  ghost predicate InTimeAt<T>(events: seq<Event<T>>, i: nat)
    requires i < |events|
  {
    events[i].Enqueued? && SentAfter(events, i, events[i].item) ==>
      forall y :: y in Sent(events[..i]) ==> y.time <= events[i].item.time
  }

  ghost predicate AllInTime<T>(events: seq<Event<T>>) {
    forall i :: 0 <= i < |events| ==> InTimeAt(events, i)
  }

  // Event `i` enqueued `x` when `y` had already left.
  ghost predicate CameAfter<T>(events: seq<Event<T>>, i: nat, x: Item<T>, y: Item<T>)
    requires i < |events|
  {
    events[i].Enqueued? && events[i].item == x && y in Sent(events[..i])
  }

  // A step lets no item wait that is due before one it sends; what waits has waited before or
  // is the item just enqueued.
  lemma WaitingStep<T>(s: QueueState<T>, e: Event<T>, s': QueueState<T>, x: Item<T>)
    requires Step(s, e, s') && x in s'.items
    ensures x in s.items || (e.Enqueued? && e.item == x)
    ensures e.Ticked? ==> forall y :: y in e.sent ==> y.time < x.time
  {
  }

  lemma SentTo<T>(events: seq<Event<T>>, i: nat)
    requires i < |events|
    ensures Sent(events[..i + 1]) == Sent(events[..i]) + if events[i].Ticked? then events[i].sent else []
  {
    assert events[..i + 1][..i] == events[..i];
  }

  // What the first `n` events sent.
  ghost function SentUpTo<T>(events: seq<Event<T>>, n: nat): seq<Item<T>>
    requires n <= |events|
  {
    if n == 0 then [] else
      SentUpTo(events, n - 1) + if events[n - 1].Ticked? then events[n - 1].sent else []
  }

  lemma {:induction false} SentOfPrefix<T>(events: seq<Event<T>>, n: nat)
    requires n <= |events|
    ensures Sent(events[..n]) == SentUpTo(events, n)
  {
    if n > 0 {
      SentOfPrefix(events, n - 1);
      SentTo(events, n - 1);
    }
  }

  lemma {:induction false} SentGrows<T>(events: seq<Event<T>>, i: nat, j: nat)
    requires i <= j <= |events|
    ensures SentUpTo(events, i) <= SentUpTo(events, j)
    ensures forall x :: x in SentUpTo(events, i) ==> x in SentUpTo(events, j)
  {
    if i < j {
      SentGrows(events, i, j - 1);
    }
  }

  lemma {:induction false} WaitingUpTo<T>(states: seq<QueueState<T>>, events: seq<Event<T>>, n: nat, x: Item<T>, y: Item<T>)
    returns (i: nat)
    requires IsRun(states, events) && n <= |events|
    requires x in states[n].items && y in SentUpTo(events, n) && x.time < y.time
    ensures i < n && events[i].Enqueued? && events[i].item == x && y in SentUpTo(events, i)
  {
    i := n - 1;
    WaitingStep(states[i], events[i], states[n], x);
    if !(events[i].Enqueued? && events[i].item == x && y in SentUpTo(events, i)) {
      i := WaitingUpTo(states, events, n - 1, x, y);
    }
  }

  // A waiting item that is due before one that has left was enqueued after that one left.
  lemma WaitingCameAfter<T>(states: seq<QueueState<T>>, events: seq<Event<T>>, n: nat, x: Item<T>, y: Item<T>)
    returns (i: nat)
    requires IsRun(states, events) && n <= |events|
    requires x in states[n].items && y in Sent(events[..n]) && x.time < y.time
    ensures i < n && CameAfter(events, i, x, y)
  {
    SentOfPrefix(events, n);
    i := WaitingUpTo(states, events, n, x, y);
    SentOfPrefix(events, i);
  }

  lemma OrderAcross<T>(all: seq<Item<T>>, before: seq<Item<T>>, sent: seq<Item<T>>, x: Item<T>, y: Item<T>)
    requires InOrder(all) && before + sent <= all && x in sent && y in before
    ensures y.time <= x.time
  {
    var k :| 0 <= k < |before| && before[k] == y;
    var l :| 0 <= l < |sent| && sent[l] == x;
    assert all[k] == (before + sent)[k] && all[|before| + l] == (before + sent)[|before| + l];
  }

  // What event `j` sends stands behind everything sent before.
  lemma SentSplits<T>(events: seq<Event<T>>, i: nat, j: nat, y: Item<T>)
    requires i < j < |events| && events[j].Ticked? && y in SentUpTo(events, i)
    ensures y in SentUpTo(events, j)
    ensures SentUpTo(events, j) + events[j].sent <= SentUpTo(events, |events|)
  {
    SentGrows(events, i, j);
    SentGrows(events, j + 1, |events|);
  }

  // What a tick sends comes after everything sent before.
  lemma SentAfterPrefix<T>(events: seq<Event<T>>, i: nat, j: nat, x: Item<T>, y: Item<T>)
    requires i < j < |events| && events[j].Ticked? && x in events[j].sent && y in Sent(events[..i])
    requires InOrder(Sent(events))
    ensures y.time <= x.time
  {
    SentOfPrefix(events, i);
    SentOfPrefix(events, |events|);
    assert events[..|events|] == events;
    SentSplits(events, i, j, y);
    OrderAcross(Sent(events), SentUpTo(events, j), events[j].sent, x, y);
  }

  lemma PrefixInTime<T>(events: seq<Event<T>>)
    requires events != [] && AllInTime(events)
    ensures AllInTime(events[..|events| - 1])
  {
    var front := events[..|events| - 1];
    forall i | 0 <= i < |front| ensures InTimeAt(front, i) {
      assert InTimeAt(events, i) && front[..i] == events[..i];
      if front[i].Enqueued? && SentAfter(front, i, front[i].item) {
        var j :| i < j < |front| && front[j].Ticked? && front[i].item in front[j].sent;
        assert events[j].Ticked? && front[i].item in events[j].sent;
      }
    }
  }

  // If the last tick sends an item that is due before one that has left, not all was in time.
  lemma OvertakenIsLate<T>(states: seq<QueueState<T>>, events: seq<Event<T>>, x: Item<T>, y: Item<T>)
    requires IsRun(states, events) && events != [] && events[|events| - 1].Ticked?
    requires x in events[|events| - 1].sent && y in Sent(events[..|events| - 1])
    requires x.time < y.time
    ensures !AllInTime(events)
  {
    var n := |events| - 1;
    assert Step(states[n], events[n], states[n + 1]);
    assert x in multiset(events[n].sent) && x in states[n].items;
    var i := WaitingCameAfter(states, events, n, x, y);
    assert SentAfter(events, i, x);
    assert !InTimeAt(events, i);
  }

  lemma OrderJoins<T>(before: seq<Item<T>>, sent: seq<Item<T>>)
    requires InOrder(before) && InOrder(sent)
    requires forall x, y :: x in sent && y in before ==> y.time <= x.time
    ensures InOrder(before + sent)
  {
  }

  lemma {:induction false} InTimeIsInOrder<T>(states: seq<QueueState<T>>, events: seq<Event<T>>)
    requires IsRun(states, events) && AllInTime(events)
    ensures InOrder(Sent(events))
  {
    var n := |events| - 1;
    if n >= 0 {
      PrefixInTime(events);
      InTimeIsInOrder(states[..n + 1], events[..n]);
      if events[n].Ticked? {
        assert Step(states[n], events[n], states[n + 1]);
        forall x, y | x in events[n].sent && y in Sent(events[..n]) ensures y.time <= x.time {
          if x.time < y.time {
            OvertakenIsLate(states, events, x, y);
          }
        }
        OrderJoins(Sent(events[..n]), events[n].sent);
      }
    }
  }

  /**
   Whole-run order, exactly: the items of a run leave in the order of their due times, across
   ticks, if and only if each item that is sent was enqueued while nothing due later had left.
   Nothing is assumed about the times.
   */
  lemma DispatchOrderIff<T>(states: seq<QueueState<T>>, events: seq<Event<T>>)
    requires IsRun(states, events)
    ensures InOrder(Sent(events)) <==> AllInTime(events)
  {
    if AllInTime(events) {
      InTimeIsInOrder(states, events);
    }
    if InOrder(Sent(events)) {
      forall i, y | 0 <= i < |events| && events[i].Enqueued? && SentAfter(events, i, events[i].item)
                    && y in Sent(events[..i])
        ensures y.time <= events[i].item.time
      {
        var j :| i < j < |events| && events[j].Ticked? && events[i].item in events[j].sent;
        SentAfterPrefix(events, i, j, events[i].item, y);
      }
    }
  }

  lemma {:induction false} NothingSentEarly<T>(states: seq<QueueState<T>>, events: seq<Event<T>>, x: Item<T>)
    requires IsRun(states, events) && TimeFlows(events)
    requires x in Sent(events)
    ensures x.time <= TimeOf(events[|events| - 1])
  {
    var n := |events| - 1;
    assert Step(states[n], events[n], states[n + 1]);
    if x in Sent(events[..n]) {
      NothingSentEarly(states[..n + 1], events[..n], x);
      assert n > 0 && TimeOf(events[n - 1]) <= TimeOf(events[n]);
    }
  }

  /**
   If logical time never goes back and no item is enqueued for the past, all items of the whole
   run leave in the order of their due times, across ticks.
   */
  lemma DispatchOrder<T>(states: seq<QueueState<T>>, events: seq<Event<T>>)
    requires IsRun(states, events) && TimeFlows(events) && ForTheFuture(events)
    ensures InOrder(Sent(events))
  {
    forall i | 0 <= i < |events| ensures InTimeAt(events, i) {
      assert IsRun(states[..i + 1], events[..i]);
      forall y | y in Sent(events[..i]) ensures y.time <= TimeOf(events[i]) {
        NothingSentEarly(states[..i + 1], events[..i], y);
        assert i > 0 && TimeOf(events[i - 1]) <= TimeOf(events[i]);
      }
    }
    DispatchOrderIff(states, events);
  }

  /**
   After a tick at `now`, the run has sent every item due by then exactly as often as it was
   enqueued, and no item that is due later, whatever the due times were.
   */
  lemma SentExactlyWhatWasDue<T>(states: seq<QueueState<T>>, events: seq<Event<T>>, x: Item<T>)
    requires IsRun(states, events) && TimeFlows(events)
    requires events != [] && events[|events| - 1].Ticked?
    ensures multiset(Sent(events))[x] ==
            if x.time <= events[|events| - 1].now then AllEnqueued(events)[x] else 0
  {
    var n := |events| - 1;
    QueueConservation(states, events);
    assert Step(states[n], events[n], states[n + 1]);
    if x in Sent(events) {
      NothingSentEarly(states, events, x);
    }
    assert x in multiset(Sent(events)) <==> x in Sent(events);
  }

  // ---------- The system time that items are scheduled for ----------

  // The time after a delay, as the code computes it: a product, not a sum.
  function ClockGetSysTimeAfter(systime: real, delay: real): real {
    systime * delay
  }

  // The due time lies in the future exactly for delays of at least one millisecond.
  lemma FutureIff(systime: real, delay: real)
    requires systime > 0.0
    ensures systime <= ClockGetSysTimeAfter(systime, delay) <==> delay >= 1.0
  {
  }

  // It is the time that the name promises, the system time plus the delay, only by accident.
  lemma AfterIff(systime: real, delay: real)
    ensures ClockGetSysTimeAfter(systime, delay) == systime + delay <==> (systime - 1.0) * (delay - 1.0) == 1.0
  {
    assert (systime - 1.0) * (delay - 1.0) == systime * delay - systime - delay + 1.0;
  }

  // The due times are the code's own: each is computed from the system time and the delay at
  // the enqueue. The system time does not lag behind logical time.
  ghost predicate OwnDueTimes<T>(events: seq<Event<T>>, systimes: seq<real>, delays: seq<real>) {
    && |systimes| == |delays| == |events|
    && (forall i :: 0 <= i < |events| && events[i].Enqueued? ==>
          0.0 <= events[i].at <= systimes[i] && events[i].item.time == ClockGetSysTimeAfter(systimes[i], delays[i]))
  }

  lemma LongDelayIsAhead(at: real, systime: real, delay: real)
    requires 0.0 <= at <= systime && delay >= 1.0
    ensures at <= ClockGetSysTimeAfter(systime, delay)
  {
    if systime > 0.0 {
      FutureIff(systime, delay);
    }
  }

  /** With the code's own due times, delays of at least a millisecond keep the whole run in order. */
  lemma LongDelaysKeepOrder<T>(states: seq<QueueState<T>>, events: seq<Event<T>>, systimes: seq<real>, delays: seq<real>)
    requires IsRun(states, events) && TimeFlows(events) && OwnDueTimes(events, systimes, delays)
    requires forall i :: 0 <= i < |events| && events[i].Enqueued? ==> delays[i] >= 1.0
    ensures InOrder(Sent(events))
  {
    forall i | 0 <= i < |events| && events[i].Enqueued? ensures events[i].at <= events[i].item.time {
      LongDelayIsAhead(events[i].at, systimes[i], delays[i]);
    }
    DispatchOrder(states, events);
  }

  // A queue that holds a single due item is emptied by a tick.
  lemma SingleItemTick<T>(s: QueueState<T>, x: Item<T>, now: real)
    requires s == QueueState(multiset{}, None) && x.time <= now
    ensures Step(Enqueue(s, x), Ticked(now, [x]), s)
  {
  }

  // The later message is due at 10 ms; the other, enqueued at 10 ms, at 5 ms.
  const LATE := Item(1, ClockGetSysTimeAfter(2.0, 5.0))
  const EARLY := Item(2, ClockGetSysTimeAfter(10.0, 0.5))

  const SHORT_DELAY_RUN: seq<Event<int>> :=
    [Enqueued(LATE, 2.0), Ticked(10.0, [LATE]), Enqueued(EARLY, 10.0), Ticked(10.0, [EARLY])]

  lemma ShortDelayRunIsRun() returns (states: seq<QueueState<int>>)
    ensures IsRun(states, SHORT_DELAY_RUN)
  {
    var empty: QueueState<int> := QueueState(multiset{}, None);
    states := [empty, Enqueue(empty, LATE), empty, Enqueue(empty, EARLY), empty];
    SingleItemTick(empty, LATE, 10.0);
    SingleItemTick(empty, EARLY, 10.0);
  }

  lemma SentAround<T>(events: seq<Event<T>>)
    requires |events| == 4 && events[0].Enqueued? && events[1].Ticked? && events[2].Enqueued? && events[3].Ticked?
    ensures Sent(events) == events[1].sent + events[3].sent
  {
    SentOfPrefix(events, 4);
    assert events[..4] == events;
    assert SentUpTo(events, 1) == [];
    assert SentUpTo(events, 2) == events[1].sent;
    assert SentUpTo(events, 3) == events[1].sent;
  }

  /**
   Whole-run order can fail for the code's own due times: a message with a delay of half a
   millisecond is enqueued for the past, when one that is due later has already left.
   */
  lemma ShortDelayBreaksOrder()
    ensures exists states :: IsRun(states, SHORT_DELAY_RUN)
    ensures OwnDueTimes(SHORT_DELAY_RUN, [2.0, 10.0, 10.0, 10.0], [5.0, 0.0, 0.5, 0.0])
    ensures TimeFlows(SHORT_DELAY_RUN) && !InOrder(Sent(SHORT_DELAY_RUN))
  {
    var states := ShortDelayRunIsRun();
    SentAround(SHORT_DELAY_RUN);
    var sent := Sent(SHORT_DELAY_RUN);
    assert sent == [LATE, EARLY];
    assert sent[0].time > sent[1].time;
  }
}
