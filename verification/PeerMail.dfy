/**
 Peer messages of aoo.client: what becomes of a message between its arrival and the outlet.

 A message is put on the queue, dispatched at once or discarded; a dispatch is refused when the
 sender is not on the peer list at that moment. The peer list, the settings and the clocks may
 change arbitrarily between the steps of a run.
 */
module PeerMail {
  import opened Basics
  import opened PriorityQueues
  import opened Scheduling
  import opened DataCodec
  import M = Membership

  datatype PeerMessage = PeerMessage(delay: real, group: int, user: int, ty: DataType, data: seq<Byte>)

  function Sender(m: PeerMessage): M.Key {
    (m.group, m.user)
  }

  datatype Settings = Settings(schedule: bool, discardLate: bool, extraDelay: real)

  // A message as the network delivers it, with the time it is meant for.
  datatype Arrival = Arrival(group: int, user: int, time: real, ty: DataType, data: seq<Byte>)

  // The two time tags that mean "now": the empty one and the smallest one.
  const EMPTY_TIME := 0.0
  const IMMEDIATE_TIME := 1.0 / 4294967296.0

  predicate IsTimed(a: Arrival) {
    a.time != EMPTY_TIME && a.time != IMMEDIATE_TIME
  }

  // The delay in milliseconds that the message is output with. Only automatically scheduled
  // messages get the extra delay.
  function DelayOf(cfg: Settings, now: real, a: Arrival): (delay: real)
    ensures !IsTimed(a) ==> delay == 0.0
    ensures IsTimed(a) && !cfg.schedule ==> now + delay / 1000.0 == a.time
    ensures IsTimed(a) && cfg.schedule ==> now + (delay - cfg.extraDelay) / 1000.0 == a.time
  {
    if !IsTimed(a) then 0.0
    else (a.time - now) * 1000.0 + if cfg.schedule then cfg.extraDelay else 0.0
  }

  function Stamped(cfg: Settings, now: real, a: Arrival): PeerMessage {
    PeerMessage(DelayOf(cfg, now, a), a.group, a.user, a.ty, a.data)
  }

  predicate IsQueued(cfg: Settings, now: real, a: Arrival) {
    IsTimed(a) && cfg.schedule && DelayOf(cfg, now, a) >= 0.0
  }

  predicate IsDiscarded(cfg: Settings, now: real, a: Arrival) {
    IsTimed(a) && cfg.schedule && cfg.discardLate && DelayOf(cfg, now, a) < 0.0
  }

  /**
   What becomes of an arrival, by its time and the settings alone: with scheduling on, a message
   with a time waits if the extra delay makes up for its lateness, and may be discarded if not.
   The message is what arrived, with its delay.
   */
  lemma FateIff(cfg: Settings, now: real, a: Arrival)
    ensures IsQueued(cfg, now, a) <==>
            cfg.schedule && a.time != 0.0 && a.time * 4294967296.0 != 1.0 && now * 1000.0 <= a.time * 1000.0 + cfg.extraDelay
    ensures IsDiscarded(cfg, now, a) <==>
            cfg.schedule && cfg.discardLate && a.time != 0.0 && a.time * 4294967296.0 != 1.0
            && now * 1000.0 > a.time * 1000.0 + cfg.extraDelay
    ensures Stamped(cfg, now, a) == PeerMessage(DelayOf(cfg, now, a), a.group, a.user, a.ty, a.data)
  {
  }

  // The queue, and the messages that have left in one of the three ways.
  datatype Mail = Mail(queue: QueueState<PeerMessage>,
                       dispatched: seq<PeerMessage>, refused: seq<PeerMessage>, discarded: seq<PeerMessage>)

  ghost function NoMail(): Mail {
    Mail(QueueState(multiset{}, None), [], [], [])
  }

  ghost function Deliver(s: Mail, listed: set<M.Key>, m: PeerMessage): Mail {
    if Sender(m) in listed then s.(dispatched := s.dispatched + [m]) else s.(refused := s.refused + [m])
  }

  ghost function DeliverAll(s: Mail, listed: set<M.Key>, ms: seq<PeerMessage>): Mail {
    if ms == [] then s else Deliver(DeliverAll(s, listed, ms[..|ms| - 1]), listed, ms[|ms| - 1])
  }

  ghost function Receive(s: Mail, cfg: Settings, now: real, a: Arrival, abstime: real, listed: set<M.Key>): Mail {
    var m := Stamped(cfg, now, a);
    if IsQueued(cfg, now, a) then s.(queue := Enqueue(s.queue, Item(m, abstime)))
    else if IsDiscarded(cfg, now, a) then s.(discarded := s.discarded + [m])
    else Deliver(s, listed, m)
  }

  function Payloads<T>(items: seq<Item<T>>): (r: seq<T>)
    ensures |r| == |items|
  {
    seq(|items|, i requires 0 <= i < |items| => items[i].data)
  }

  ghost predicate Ticks(s: Mail, at: real, sent: seq<Item<PeerMessage>>, listed: set<M.Key>, s': Mail) {
    && Drained(s.queue, at, sent, s'.queue)
    && s' == DeliverAll(s, listed, Payloads(sent)).(queue := s'.queue)
  }

  // ---------- Runs ----------

  // `now` is OSC time, `at` is logical time, `listed` are the peers at that moment.
  datatype MailEvent =
    | Received(cfg: Settings, now: real, arrival: Arrival, abstime: real, at: real, listed: set<M.Key>)
    | QueueTicked(at: real, sent: seq<Item<PeerMessage>>, listed: set<M.Key>)

  ghost predicate MailStep(s: Mail, e: MailEvent, s': Mail) {
    match e
    case Received(cfg, now, a, abstime, _, listed) => s' == Receive(s, cfg, now, a, abstime, listed)
    case QueueTicked(at, sent, listed) => Ticks(s, at, sent, listed, s')
  }

  ghost predicate IsMailRun(states: seq<Mail>, events: seq<MailEvent>) {
    && |states| == |events| + 1
    && states[0] == NoMail()
    && (forall i :: 0 <= i < |events| ==> MailStep(states[i], events[i], states[i + 1]))
  }

  // The message that arrives, field by field.
  ghost function Incoming(e: MailEvent): multiset<PeerMessage> {
    match e
    case Received(cfg, now, a, _, _, _) => multiset{PeerMessage(DelayOf(cfg, now, a), a.group, a.user, a.ty, a.data)}
    case QueueTicked(_, _, _) => multiset{}
  }

  // Everything received: what arrived, with the delay it is to be output with.
  ghost function ReceivedBy(events: seq<MailEvent>): multiset<PeerMessage> {
    if events == [] then multiset{} else
      var e := events[|events| - 1];
      ReceivedBy(events[..|events| - 1]) + Incoming(e)
  }

  function DiscardedBy(events: seq<MailEvent>): seq<PeerMessage> {
    if events == [] then [] else
      var e := events[|events| - 1];
      DiscardedBy(events[..|events| - 1]) +
      if e.Received? && IsDiscarded(e.cfg, e.now, e.arrival) then [Stamped(e.cfg, e.now, e.arrival)] else []
  }

  // The messages that the event tries to dispatch.
  function Attempted(e: MailEvent): seq<PeerMessage> {
    match e
    case Received(cfg, now, a, _, _, _) =>
      if IsQueued(cfg, now, a) || IsDiscarded(cfg, now, a) then [] else [Stamped(cfg, now, a)]
    case QueueTicked(_, sent, _) => Payloads(sent)
  }

  // ---------- Counting queued messages ----------

  // The messages among the items, with multiplicity.
  ghost function DataOf<T>(items: multiset<Item<T>>): multiset<T> {
    if items == multiset{} then multiset{} else
      var x :| x in items;
      multiset{x.data} + DataOf(items - multiset{x})
  }

  lemma {:induction false} DataOfPick<T>(items: multiset<Item<T>>) returns (y: Item<T>)
    requires items != multiset{}
    ensures y in items && DataOf(items) == multiset{y.data} + DataOf(items - multiset{y})
  {
    y :| y in items && DataOf(items) == multiset{y.data} + DataOf(items - multiset{y});
  }

  lemma Exchange<X>(s: multiset<X>, x: X, y: X)
    ensures s + multiset{x} - multiset{x} == s
    ensures y in s ==> s - multiset{y} + multiset{y} == s
    ensures y in s ==> s + multiset{x} - multiset{y} == s - multiset{y} + multiset{x}
  {
  }

  lemma Shuffle<X>(s: multiset<X>, x: X, y: X)
    ensures multiset{y} + (s + multiset{x}) == (s + multiset{y}) + multiset{x}
  {
  }

  lemma {:induction false} DataOfAdd<T>(items: multiset<Item<T>>, x: Item<T>)
    ensures DataOf(items + multiset{x}) == DataOf(items) + multiset{x.data}
    decreases |items|
  {
    var y := DataOfPick(items + multiset{x});
    var rest := items - multiset{y};
    Exchange(items, x, y);
    if y != x {
      assert items + multiset{x} - multiset{y} == rest + multiset{x} && rest + multiset{y} == items;
      DataOfAdd(rest, x);
      DataOfAdd(rest, y);
      Shuffle(DataOf(rest), x.data, y.data);
    }
  }

  lemma UnionSnoc<X>(s: multiset<X>, front: seq<X>, x: X)
    ensures s + multiset(front + [x]) == s + multiset(front) + multiset{x}
  {
  }

  lemma PayloadsSnoc<T>(sent: seq<Item<T>>)
    requires sent != []
    ensures sent == sent[..|sent| - 1] + [sent[|sent| - 1]]
    ensures Payloads(sent) == Payloads(sent[..|sent| - 1]) + [sent[|sent| - 1].data]
  {
  }

  lemma {:induction false} DataOfUnion<T>(items: multiset<Item<T>>, sent: seq<Item<T>>)
    ensures DataOf(items + multiset(sent)) == DataOf(items) + multiset(Payloads(sent))
  {
    if sent == [] {
      assert items + multiset(sent) == items;
    } else {
      var front, last := sent[..|sent| - 1], sent[|sent| - 1];
      DataOfUnion(items, front);
      DataOfAdd(items + multiset(front), last);
      PayloadsSnoc(sent);
      UnionSnoc(items, front, last);
      UnionSnoc(DataOf(items), Payloads(front), last.data);
    }
  }

  // What was delivered or refused, with multiplicity.
  ghost function Handled(s: Mail): multiset<PeerMessage> {
    multiset(s.dispatched) + multiset(s.refused)
  }

  lemma DeliverCounts(s: Mail, listed: set<M.Key>, m: PeerMessage)
    ensures Handled(Deliver(s, listed, m)) == Handled(s) + multiset{m}
  {
  }

  // Delivering messages accounts for each of them, and touches nothing else.
  lemma {:induction false} DeliverAllCounts(s: Mail, listed: set<M.Key>, ms: seq<PeerMessage>)
    ensures Handled(DeliverAll(s, listed, ms)) == Handled(s) + multiset(ms)
    ensures DeliverAll(s, listed, ms).discarded == s.discarded
    ensures DeliverAll(s, listed, ms).queue == s.queue
  {
    if ms != [] {
      var front, last := ms[..|ms| - 1], ms[|ms| - 1];
      DeliverAllCounts(s, listed, front);
      DeliverCounts(DeliverAll(s, listed, front), listed, last);
      UnionSnoc(Handled(s), front, last);
      assert ms == front + [last];
    }
  }

  // ---------- Theorems ----------

  ghost function Accounted(s: Mail): multiset<PeerMessage> {
    Handled(s) + multiset(s.discarded) + DataOf(s.queue.items)
  }

  lemma {:induction false} ReceiveConserves(s: Mail, cfg: Settings, now: real, a: Arrival, abstime: real, listed: set<M.Key>)
    ensures Accounted(Receive(s, cfg, now, a, abstime, listed)) == Accounted(s) + multiset{Stamped(cfg, now, a)}
  {
    var m := Stamped(cfg, now, a);
    DataOfAdd(s.queue.items, Item(m, abstime));
    DeliverCounts(s, listed, m);
  }

  lemma {:induction false} TickConserves(s: Mail, at: real, sent: seq<Item<PeerMessage>>, listed: set<M.Key>, s': Mail)
    requires Ticks(s, at, sent, listed, s')
    ensures Accounted(s') == Accounted(s)
  {
    DeliverAllCounts(s, listed, Payloads(sent));
    DataOfUnion(s'.queue.items, sent);
    assert s.queue.items == s'.queue.items + multiset(sent);
    assert Handled(s') == Handled(s) + multiset(Payloads(sent));
  }

  lemma StepConserves(s: Mail, e: MailEvent, s': Mail)
    requires MailStep(s, e, s')
    ensures Accounted(s') == Accounted(s) + Incoming(e)
  {
    match e
    case Received(cfg, now, a, abstime, _, listed) => ReceiveConserves(s, cfg, now, a, abstime, listed);
    case QueueTicked(at, sent, listed) => TickConserves(s, at, sent, listed, s');
  }

  /**
   Conservation: over every run, the messages received are, with multiplicity and delay, the
   ones dispatched, refused, discarded and still queued.
   */
  lemma {:induction false} MessageConservation(states: seq<Mail>, events: seq<MailEvent>)
    requires IsMailRun(states, events)
    ensures ReceivedBy(events) == Accounted(states[|events|])
  {
    var n := |events| - 1;
    if n >= 0 {
      MessageConservation(states[..n + 1], events[..n]);
      StepConserves(states[n], events[n], states[n + 1]);
    } else {
      assert states[0] == NoMail();
    }
  }

  /**
   Discards happen exactly for timed messages that are late with scheduling and discard_late
   on, where late means a negative delay after the extra delay was added.
   */
  lemma {:induction false} DiscardsExactlyLateOnes(states: seq<Mail>, events: seq<MailEvent>)
    requires IsMailRun(states, events)
    ensures states[|events|].discarded == DiscardedBy(events)
    ensures forall m :: m in states[|events|].discarded ==> m.delay < 0.0
  {
    var n := |events| - 1;
    if n >= 0 {
      DiscardsExactlyLateOnes(states[..n + 1], events[..n]);
      assert MailStep(states[n], events[n], states[n + 1]);
      if events[n].QueueTicked? {
        DeliverAllCounts(states[n], events[n].listed, Payloads(events[n].sent));
      }
    }
  }

  ghost predicate AllListed(ms: seq<PeerMessage>, listed: set<M.Key>) {
    forall m :: m in ms ==> (m.group, m.user) in listed
  }

  lemma {:induction false} DeliverAllRefuses(s: Mail, listed: set<M.Key>, ms: seq<PeerMessage>)
    ensures DeliverAll(s, listed, ms).refused == [] <==> s.refused == [] && AllListed(ms, listed)
  {
    if ms != [] {
      var front, last := ms[..|ms| - 1], ms[|ms| - 1];
      DeliverAllRefuses(s, listed, front);
      assert ms == front + [last];
      assert AllListed(ms, listed) <==> AllListed(front, listed) && (last.group, last.user) in listed;
    }
  }

  lemma StepRefuses(s: Mail, e: MailEvent, s': Mail)
    requires MailStep(s, e, s')
    ensures s'.refused == [] <==> s.refused == [] && AllListed(Attempted(e), e.listed)
  {
    if e.QueueTicked? {
      DeliverAllRefuses(s, e.listed, Payloads(e.sent));
    }
  }

  /**
   A run refuses no message exactly when every message it tries to dispatch comes from a peer
   that is listed at that moment.
   */
  lemma {:induction false} NothingRefusedIff(states: seq<Mail>, events: seq<MailEvent>)
    requires IsMailRun(states, events)
    ensures states[|events|].refused == [] <==>
            forall i :: 0 <= i < |events| ==> AllListed(Attempted(events[i]), events[i].listed)
  {
    var n := |events| - 1;
    if n >= 0 {
      NothingRefusedIff(states[..n + 1], events[..n]);
      StepRefuses(states[n], events[n], states[n + 1]);
      assert forall i :: 0 <= i < n ==> events[..n][i] == events[i];
    }
  }

  // The messages whose senders are listed, or those whose senders are not, in order.
  ghost function From(ms: seq<PeerMessage>, listed: set<M.Key>, wanted: bool): seq<PeerMessage> {
    if ms == [] then [] else
      var m := ms[|ms| - 1];
      From(ms[..|ms| - 1], listed, wanted) + if ((m.group, m.user) in listed) == wanted then [m] else []
  }

  // All that a run tries to dispatch and whose senders are, or are not, listed at that moment.
  ghost function AttemptedBy(events: seq<MailEvent>, wanted: bool): seq<PeerMessage> {
    if events == [] then [] else
      var e := events[|events| - 1];
      AttemptedBy(events[..|events| - 1], wanted) + From(Attempted(e), e.listed, wanted)
  }

  lemma {:induction false} DeliverAllSplits(s: Mail, listed: set<M.Key>, ms: seq<PeerMessage>)
    ensures DeliverAll(s, listed, ms).dispatched == s.dispatched + From(ms, listed, true)
    ensures DeliverAll(s, listed, ms).refused == s.refused + From(ms, listed, false)
  {
    if ms != [] {
      DeliverAllSplits(s, listed, ms[..|ms| - 1]);
    }
  }

  lemma StepSplits(s: Mail, e: MailEvent, s': Mail)
    requires MailStep(s, e, s')
    ensures s'.dispatched == s.dispatched + From(Attempted(e), e.listed, true)
    ensures s'.refused == s.refused + From(Attempted(e), e.listed, false)
  {
    if e.QueueTicked? {
      DeliverAllSplits(s, e.listed, Payloads(e.sent));
    } else if Attempted(e) != [] {
      DeliverAllSplits(s, e.listed, Attempted(e));
      assert DeliverAll(s, e.listed, Attempted(e)) == Deliver(s, e.listed, Attempted(e)[0]);
    }
  }

  /**
   Of all messages that a run tries to dispatch, at once or from the queue, exactly those of
   listed senders are dispatched and all others are refused, in order.
   */
  lemma {:induction false} DispatchedExactly(states: seq<Mail>, events: seq<MailEvent>)
    requires IsMailRun(states, events)
    ensures states[|events|].dispatched == AttemptedBy(events, true)
    ensures states[|events|].refused == AttemptedBy(events, false)
  {
    var n := |events| - 1;
    if n >= 0 {
      DispatchedExactly(states[..n + 1], events[..n]);
      StepSplits(states[n], events[n], states[n + 1]);
    } else {
      assert states[0] == NoMail();
    }
  }

  // ---------- The queue inside ----------

  ghost function QueueEvent(e: MailEvent): Event<PeerMessage> {
    match e
    case Received(cfg, now, a, abstime, at, _) =>
      if IsQueued(cfg, now, a) then Enqueued(Item(Stamped(cfg, now, a), abstime), at) else Idle(at)
    case QueueTicked(at, sent, _) => Ticked(at, sent)
  }

  ghost function QueueEvents(events: seq<MailEvent>): (r: seq<Event<PeerMessage>>)
    ensures |r| == |events|
  {
    seq(|events|, i requires 0 <= i < |events| => QueueEvent(events[i]))
  }

  ghost function QueueStates(states: seq<Mail>): (r: seq<QueueState<PeerMessage>>)
    ensures |r| == |states|
  {
    seq(|states|, i requires 0 <= i < |states| => states[i].queue)
  }

  // Every run of the mail is a run of its queue.
  lemma MailRunIsQueueRun(states: seq<Mail>, events: seq<MailEvent>)
    requires IsMailRun(states, events)
    ensures IsRun(QueueStates(states), QueueEvents(events))
  {
    forall i | 0 <= i < |events|
      ensures Step(QueueStates(states)[i], QueueEvents(events)[i], QueueStates(states)[i + 1])
    {
      assert MailStep(states[i], events[i], states[i + 1]);
    }
  }

  // No message is scheduled for a logical time that has passed, and logical time never goes back.
  ghost predicate WellTimed(events: seq<MailEvent>) {
    && (forall i, j :: 0 <= i < j < |events| ==> events[i].at <= events[j].at)
    && (forall i :: 0 <= i < |events| && events[i].Received? && IsQueued(events[i].cfg, events[i].now, events[i].arrival) ==>
          events[i].at <= events[i].abstime)
  }

  /**
   In every reachable state of the client the queue clock is armed for exactly the earliest
   message. Messages leave the queue in the order of their due times if and only if none that is
   sent was enqueued after one due later had left; in particular in a well-timed run.
   */
  lemma QueueTheorems(states: seq<Mail>, events: seq<MailEvent>)
    requires IsMailRun(states, events)
    ensures ArmedForEarliest(states[|events|].queue)
    ensures InOrder(Sent(QueueEvents(events))) <==> AllInTime(QueueEvents(events))
    ensures WellTimed(events) ==> InOrder(Sent(QueueEvents(events)))
  {
    MailRunIsQueueRun(states, events);
    DispatchOrderIff(QueueStates(states), QueueEvents(events));
    ArmedInvariant(QueueStates(states), QueueEvents(events));
    if WellTimed(events) {
      forall i | 0 <= i < |events| ensures TimeOf(QueueEvents(events)[i]) == events[i].at {
      }
      DispatchOrder(QueueStates(states), QueueEvents(events));
    }
  }
}
