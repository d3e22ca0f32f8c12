/**
 The lists and the messages of aoo.client together: runs in which replies, events, user
 messages, arriving peer messages and queue ticks interleave in any way.
 */
module ClientRun {
  import opened Membership
  import opened Replies
  import opened PeerMail
  import opened PriorityQueues
  import opened Scheduling
  import opened DataCodec
  import opened Traces

  datatype Call = Lists(step: Step) | Message(event: MailEvent)

  // The steps of a run that concern the lists.
  function StepsOf(calls: seq<Call>): seq<Step> {
    if calls == [] then [] else
      var c := calls[|calls| - 1];
      StepsOf(calls[..|calls| - 1]) + if c.Lists? then [c.step] else []
  }

  // The lists before call `i`.
  ghost function ListsBefore(calls: seq<Call>, i: nat): Members
    requires i <= |calls|
  {
    Run(StepsOf(calls[..i])).members
  }

  // Everything that took effect on the lists before call `i`.
  ghost function LogBefore(calls: seq<Call>, i: nat): seq<Effect>
    requires i <= |calls|
  {
    LogOf(StepsOf(calls[..i]))
  }

  ghost predicate CallIsMeant(calls: seq<Call>, i: nat)
    requires i < |calls|
  {
    match calls[i]
    case Lists(step) => step.Happens? ==> !step.effect.Replied?
    case Message(e) => e.listed == Keys(ListsBefore(calls, i).peers)
  }

  ghost predicate Takes(s: Mail, c: Call, s': Mail) {
    match c
    case Lists(_) => s' == s
    case Message(e) => MailStep(s, e, s')
  }

  // A run of the client: messages are dispatched against the peer list of the moment.
  ghost predicate IsClientRun(mails: seq<Mail>, calls: seq<Call>) {
    && |mails| == |calls| + 1
    && mails[0] == NoMail()
    && (forall i :: 0 <= i < |calls| ==> CallIsMeant(calls, i))
    && (forall i :: 0 <= i < |calls| ==> Takes(mails[i], calls[i], mails[i + 1]))
  }

  // The sender is a peer, read off the log alone.
  ghost predicate IsPeerBy(log: seq<Effect>, k: Key) {
    IsListedBy(PeerMarks(log, k))
  }

  ghost predicate AllPeers(calls: seq<Call>, i: nat)
    requires i < |calls|
  {
    calls[i].Message? ==> forall m :: m in Attempted(calls[i].event) ==> IsPeerBy(LogBefore(calls, i), (m.group, m.user))
  }

  lemma ListedIffPeer(calls: seq<Call>, i: nat, k: Key)
    requires i <= |calls|
    ensures k in Keys(ListsBefore(calls, i).peers) <==> IsPeerBy(LogBefore(calls, i), k)
  {
    RunFollowsLog(StepsOf(calls[..i]));
    KeyTrace(LogBefore(calls, i), k);
    HasPeerIff(ListsBefore(calls, i).peers, k);
  }

  lemma PrefixIsRun(mails: seq<Mail>, calls: seq<Call>)
    requires IsClientRun(mails, calls) && calls != []
    ensures IsClientRun(mails[..|calls|], calls[..|calls| - 1])
  {
    var front := calls[..|calls| - 1];
    forall i | 0 <= i < |front| ensures CallIsMeant(front, i) {
      assert CallIsMeant(calls, i);
      assert front[..i] == calls[..i];
    }
  }

  lemma ListedIffPeers(calls: seq<Call>, i: nat)
    requires i < |calls| && calls[i].Message? && CallIsMeant(calls, i)
    ensures AllListed(Attempted(calls[i].event), calls[i].event.listed) <==> AllPeers(calls, i)
  {
    var e := calls[i].event;
    forall m | m in Attempted(e)
      ensures (m.group, m.user) in e.listed <==> IsPeerBy(LogBefore(calls, i), (m.group, m.user))
    {
      ListedIffPeer(calls, i, (m.group, m.user));
    }
  }

  lemma CallRefuses(mails: seq<Mail>, calls: seq<Call>, i: nat)
    requires IsClientRun(mails, calls) && i < |calls|
    ensures mails[i + 1].refused == [] <==> mails[i].refused == [] && AllPeers(calls, i)
  {
    assert CallIsMeant(calls, i) && Takes(mails[i], calls[i], mails[i + 1]);
    if calls[i].Message? {
      StepRefuses(mails[i], calls[i].event, mails[i + 1]);
      ListedIffPeers(calls, i);
    }
  }

  ghost predicate AllPeersUpTo(calls: seq<Call>, n: nat)
    requires n <= |calls|
  {
    forall i :: 0 <= i < n ==> AllPeers(calls, i)
  }

  // If the i-th call refuses nothing exactly when `ok[i]`, nothing is refused exactly when all are.
  lemma {:induction false} RefusedUpTo(mails: seq<Mail>, ok: seq<bool>, n: nat)
    requires |mails| == |ok| + 1 && n <= |ok| && mails[0].refused == []
    requires forall i :: 0 <= i < |ok| ==> (mails[i + 1].refused == [] <==> mails[i].refused == [] && ok[i])
    ensures mails[n].refused == [] <==> forall i :: 0 <= i < n ==> ok[i]
  {
    if n > 0 {
      RefusedUpTo(mails, ok, n - 1);
      assert mails[n].refused == [] <==> mails[n - 1].refused == [] && ok[n - 1];
    }
  }

  lemma PeersUpTo(calls: seq<Call>, ok: seq<bool>, n: nat)
    requires n <= |calls| == |ok|
    requires forall i :: 0 <= i < |ok| ==> (ok[i] <==> AllPeers(calls, i))
    ensures AllPeersUpTo(calls, n) <==> forall i :: 0 <= i < n ==> ok[i]
  {
    if AllPeersUpTo(calls, n) {
      assert forall i :: 0 <= i < n ==> AllPeers(calls, i);
    }
  }

  /**
   At any point of a run, no message has been refused exactly when each message that was
   dispatched, at once or from the queue, came from a peer whose join was in the log with no
   removing entry since.
   */
  lemma RefusalsTraced(mails: seq<Mail>, calls: seq<Call>, n: nat)
    requires IsClientRun(mails, calls) && n <= |calls|
    ensures mails[n].refused == [] <==> AllPeersUpTo(calls, n)
  {
    var ok := seq(|calls|, i requires 0 <= i < |calls| => AllPeers(calls, i));
    forall i | 0 <= i < |ok| ensures mails[i + 1].refused == [] <==> mails[i].refused == [] && ok[i] {
      CallRefuses(mails, calls, i);
    }
    RefusedUpTo(mails, ok, n);
    PeersUpTo(calls, ok, n);
  }

  // The part of a run that concerns messages.
  function MessagesOf(calls: seq<Call>): seq<MailEvent> {
    if calls == [] then [] else
      var c := calls[|calls| - 1];
      MessagesOf(calls[..|calls| - 1]) + if c.Message? then [c.event] else []
  }

  lemma ReceivedSnoc(events: seq<MailEvent>, e: MailEvent)
    ensures ReceivedBy(events + [e]) == ReceivedBy(events) + Incoming(e)
  {
    assert (events + [e])[..|events|] == events;
  }

  lemma NextMessage(calls: seq<Call>, n: nat)
    requires n < |calls|
    ensures MessagesOf(calls[..n + 1]) == MessagesOf(calls[..n]) + if calls[n].Message? then [calls[n].event] else []
  {
    assert calls[..n + 1][..n] == calls[..n];
  }

  // One call receives and accounts for the same.
  lemma CallConserves(s: Mail, calls: seq<Call>, n: nat, s': Mail)
    requires n < |calls| && Takes(s, calls[n], s')
    requires ReceivedBy(MessagesOf(calls[..n])) == Accounted(s)
    ensures ReceivedBy(MessagesOf(calls[..n + 1])) == Accounted(s')
  {
    NextMessage(calls, n);
    if calls[n].Message? {
      ReceivedSnoc(MessagesOf(calls[..n]), calls[n].event);
      StepConserves(s, calls[n].event, s');
    } else {
      assert MessagesOf(calls[..n + 1]) == MessagesOf(calls[..n]);
    }
  }

  /**
   At any point of a run, no message is lost, duplicated or changed, whatever happens to the lists
   in between.
   */
  lemma {:induction false} NothingLost(mails: seq<Mail>, calls: seq<Call>, n: nat)
    requires IsClientRun(mails, calls) && n <= |calls|
    ensures ReceivedBy(MessagesOf(calls[..n])) == Accounted(mails[n])
  {
    if n == 0 {
      assert mails[0] == NoMail();
    } else {
      NothingLost(mails, calls, n - 1);
      CallConserves(mails[n - 1], calls, n - 1, mails[n]);
    }
  }

  // ---------- Ticks of the client ----------

  // What the client's node delivers when it is polled. The times of a message are `now`, the OSC
  // time, and `abstime`, the system time after the delay.
  datatype Polled = ListEvent(effect: Effect) | MessageEvent(now: real, arrival: Arrival, abstime: real)

  datatype Whole = Whole(lists: ClientState, mail: Mail)

  ghost function AfterPolled(w: Whole, cfg: Settings, e: Polled): Whole {
    match e
    case ListEvent(effect) => w.(lists := Next(w.lists, Happens(effect)))
    case MessageEvent(now, a, abstime) =>
      w.(mail := Receive(w.mail, cfg, now, a, abstime, Keys(w.lists.members.peers)))
  }

  ghost function AfterAllPolled(w: Whole, cfg: Settings, events: seq<Polled>): Whole {
    if events == [] then w
    else AfterPolled(AfterAllPolled(w, cfg, events[..|events| - 1]), cfg, events[|events| - 1])
  }

  lemma NextPolled(w: Whole, cfg: Settings, events: seq<Polled>, i: nat)
    requires i < |events|
    ensures AfterAllPolled(w, cfg, events[..i + 1]) == AfterPolled(AfterAllPolled(w, cfg, events[..i]), cfg, events[i])
  {
    assert events[..i + 1][..i] == events[..i];
  }

  // A tick of the client: everything that is polled, then the replies.
  ghost function AfterTick(w: Whole, cfg: Settings, events: seq<Polled>, gotLock: bool): Whole {
    var polled := AfterAllPolled(w, cfg, events);
    polled.(lists := Next(polled.lists, RunReplies(gotLock)))
  }

  // A run that ends in the given state.
  ghost predicate Reaches(mails: seq<Mail>, calls: seq<Call>, w: Whole) {
    IsClientRun(mails, calls) && mails[|calls|] == w.mail && Run(StepsOf(calls)) == w.lists
  }

  // What a call means in a state, whatever the run before it.
  ghost predicate IsCall(w: Whole, c: Call, w': Whole) {
    && Takes(w.mail, c, w'.mail)
    && match c
       case Lists(step) => (step.Happens? ==> !step.effect.Replied?) && w'.lists == Next(w.lists, step)
       case Message(e) => e.listed == Keys(w.lists.members.peers) && w'.lists == w.lists
  }

  lemma StepsExtend(calls: seq<Call>, c: Call)
    ensures StepsOf(calls + [c]) == if c.Lists? then StepsOf(calls) + [c.step] else StepsOf(calls)
  {
    assert (calls + [c])[..|calls|] == calls;
  }

  lemma RunExtends(steps: seq<Step>, step: Step)
    ensures Run(steps + [step]) == Next(Run(steps), step)
  {
    assert (steps + [step])[..|steps|] == steps;
  }

  lemma MeantBefore(calls: seq<Call>, c: Call, i: nat)
    requires i < |calls| && CallIsMeant(calls, i)
    ensures CallIsMeant(calls + [c], i)
  {
    assert (calls + [c])[..i] == calls[..i];
  }

  lemma MeantLast(mails: seq<Mail>, calls: seq<Call>, w: Whole, c: Call, w': Whole)
    requires Reaches(mails, calls, w) && IsCall(w, c, w')
    ensures CallIsMeant(calls + [c], |calls|)
  {
    assert (calls + [c])[..|calls|] == calls;
  }

  lemma MailsExtend(mails: seq<Mail>, calls: seq<Call>, c: Call, mail': Mail)
    requires IsClientRun(mails, calls) && Takes(mails[|calls|], c, mail') && CallIsMeant(calls + [c], |calls|)
    ensures IsClientRun(mails + [mail'], calls + [c])
  {
    forall i | 0 <= i < |calls| ensures CallIsMeant(calls + [c], i) {
      MeantBefore(calls, c, i);
    }
  }

  lemma CallExtendsRun(mails: seq<Mail>, calls: seq<Call>, w: Whole, c: Call, w': Whole)
    requires Reaches(mails, calls, w) && IsCall(w, c, w')
    ensures Reaches(mails + [w'.mail], calls + [c], w')
  {
    MeantLast(mails, calls, w, c, w');
    MailsExtend(mails, calls, c, w'.mail);
    StepsExtend(calls, c);
    if c.Lists? {
      RunExtends(StepsOf(calls), c.step);
    }
  }

  // One polled event or message is one call; `at` is the logical time.
  ghost function CallOf(w: Whole, cfg: Settings, e: Polled, at: real): Call {
    match e
    case ListEvent(effect) => Lists(Happens(effect))
    case MessageEvent(now, a, abstime) => Message(Received(cfg, now, a, abstime, at, Keys(w.lists.members.peers)))
  }

  // The call is what the polled event or message stands for.
  ghost predicate Polls(c: Call, cfg: Settings, e: Polled, at: real) {
    match e
    case ListEvent(effect) => c == Lists(Happens(effect))
    case MessageEvent(now, a, abstime) =>
      c.Message? && c.event.Received? && c.event == Received(cfg, now, a, abstime, at, c.event.listed)
  }

  lemma PollExtendsRun(mails: seq<Mail>, calls: seq<Call>, polls: seq<Call>, w: Whole, cfg: Settings, e: Polled, at: real)
    requires Reaches(mails, calls + polls, w) && (e.ListEvent? ==> !e.effect.Replied?)
    ensures Reaches(mails + [AfterPolled(w, cfg, e).mail], calls + (polls + [CallOf(w, cfg, e, at)]), AfterPolled(w, cfg, e))
    ensures Polls(CallOf(w, cfg, e, at), cfg, e, at)
  {
    CallExtendsRun(mails, calls + polls, w, CallOf(w, cfg, e, at), AfterPolled(w, cfg, e));
    assert calls + polls + [CallOf(w, cfg, e, at)] == calls + (polls + [CallOf(w, cfg, e, at)]);
  }

  ghost predicate AllPolled(polls: seq<Call>, cfg: Settings, events: seq<Polled>, at: real) {
    |polls| == |events| && forall i :: 0 <= i < |events| ==> Polls(polls[i], cfg, events[i], at)
  }

  lemma {:induction false} PollsExtendRun(mails: seq<Mail>, calls: seq<Call>, w: Whole,
                                          cfg: Settings, events: seq<Polled>, at: real)
    returns (mails': seq<Mail>, polls: seq<Call>)
    requires Reaches(mails, calls, w)
    requires forall i :: 0 <= i < |events| && events[i].ListEvent? ==> !events[i].effect.Replied?
    ensures Reaches(mails', calls + polls, AfterAllPolled(w, cfg, events))
    ensures mails <= mails' && AllPolled(polls, cfg, events, at)
  {
    if events == [] {
      assert calls + [] == calls;
      return mails, [];
    }
    var front, e := events[..|events| - 1], events[|events| - 1];
    mails', polls := PollsExtendRun(mails, calls, w, cfg, front, at);
    var w' := AfterAllPolled(w, cfg, front);
    PollExtendsRun(mails', calls, polls, w', cfg, e, at);
    mails', polls := mails' + [AfterPolled(w', cfg, e).mail], polls + [CallOf(w', cfg, e, at)];
  }

  lemma {:induction false} StepsAreRun(mails: seq<Mail>, calls: seq<Call>)
    requires IsClientRun(mails, calls)
    ensures Replies.IsRun(StepsOf(calls))
  {
    if calls != [] {
      PrefixIsRun(mails, calls);
      StepsAreRun(mails[..|calls|], calls[..|calls| - 1]);
      assert CallIsMeant(calls, |calls| - 1);
    }
  }

  // If a run ends with running the replies, the lock decides.
  lemma RepliesOfRun(mails: seq<Mail>, calls: seq<Call>, gotLock: bool)
    requires IsClientRun(mails, calls + [Lists(RunReplies(gotLock))])
    ensures var steps := StepsOf(calls + [Lists(RunReplies(gotLock))]);
            && steps == StepsOf(calls) + [RunReplies(gotLock)]
            && (gotLock ==> Run(steps).pending == [] && Executed(LogOf(steps)) == Pushed(steps))
            && (!gotLock ==> Run(steps) == Run(StepsOf(calls)) && LogOf(steps) == LogOf(StepsOf(calls)))
  {
    var steps := StepsOf(calls + [Lists(RunReplies(gotLock))]);
    StepsExtend(calls, Lists(RunReplies(gotLock)));
    StepsAreRun(mails, calls + [Lists(RunReplies(gotLock))]);
    assert steps[..|steps| - 1] == StepsOf(calls);
    LockRunsAll(steps);
  }

  /**
   A tick of the client extends any run by the calls that it stands for: each polled event or
   message in order, then the replies. So the theorems about runs hold of ticks. With the lock
   all replies pushed so far have then been executed, in order, and none is pending; without it
   the polled events are all that has happened.
   */
  lemma TickExtendsRun(mails: seq<Mail>, calls: seq<Call>, w: Whole,
                       cfg: Settings, events: seq<Polled>, gotLock: bool, at: real)
    returns (mails': seq<Mail>, polls: seq<Call>)
    requires Reaches(mails, calls, w)
    requires forall i :: 0 <= i < |events| && events[i].ListEvent? ==> !events[i].effect.Replied?
    ensures Reaches(mails', calls + polls + [Lists(RunReplies(gotLock))], AfterTick(w, cfg, events, gotLock))
    ensures mails <= mails' && AllPolled(polls, cfg, events, at)
    ensures var steps := StepsOf(calls + polls + [Lists(RunReplies(gotLock))]);
            gotLock ==> AfterTick(w, cfg, events, gotLock).lists.pending == []
                        && Executed(LogOf(steps)) == Pushed(steps)
    ensures !gotLock ==> AfterTick(w, cfg, events, gotLock) == AfterAllPolled(w, cfg, events)
  {
    mails', polls := PollsExtendRun(mails, calls, w, cfg, events, at);
    var polled, done := AfterAllPolled(w, cfg, events), AfterTick(w, cfg, events, gotLock);
    CallExtendsRun(mails', calls + polls, polled, Lists(RunReplies(gotLock)), done);
    mails' := mails' + [done.mail];
    RepliesOfRun(mails', calls + polls, gotLock);
  }

  // ---------- A refused message ----------

  lemma NextStep(calls: seq<Call>, i: nat)
    requires i < |calls|
    ensures StepsOf(calls[..i + 1]) == StepsOf(calls[..i]) + if calls[i].Lists? then [calls[i].step] else []
  {
    assert calls[..i + 1][..i] == calls[..i];
  }

  // The first and the third of the calls are for the lists.
  lemma StepsAround(calls: seq<Call>)
    requires |calls| > 3 && calls[0].Lists? && calls[1].Message? && calls[2].Lists?
    ensures StepsOf(calls[..1]) == [calls[0].step]
    ensures StepsOf(calls[..3]) == [calls[0].step, calls[2].step]
  {
    NextStep(calls, 0);
    NextStep(calls, 1);
    NextStep(calls, 2);
  }

  lemma JoinAndLeave(p: Peer)
    ensures Run([Happens(PeerJoin(p))]).members.peers == [p]
    ensures Run([Happens(PeerJoin(p)), Happens(PeerLeave(KeyOf(p)))]).members.peers == []
  {
    var steps := [Happens(PeerJoin(p)), Happens(PeerLeave(KeyOf(p)))];
    RunTo(steps, 0);
    assert steps[..1] == [Happens(PeerJoin(p))] && Run(steps[..1]).members.peers == [p];
    RunTo(steps, 1);
    assert steps[..2] == steps;
  }

  // Four calls: a peer joins, sends a message, and leaves before the message is due.
  lemma ListsWhilePeerLeaves(p: Peer, received: MailEvent, ticked: MailEvent)
    ensures var calls := [Lists(Happens(PeerJoin(p))), Message(received),
                          Lists(Happens(PeerLeave(KeyOf(p)))), Message(ticked)];
            && Keys(ListsBefore(calls, 1).peers) == {KeyOf(p)}
            && ListsBefore(calls, 3).peers == []
  {
    StepsAround([Lists(Happens(PeerJoin(p))), Message(received),
                 Lists(Happens(PeerLeave(KeyOf(p)))), Message(ticked)]);
    JoinAndLeave(p);
  }

  /**
   A dispatch can be refused although the sender was a peer when its message arrived: the peer
   leaves while the message waits in the queue.
   */
  lemma PeerLeavesWhileMessageWaits() returns (mails: seq<Mail>, calls: seq<Call>)
    ensures IsClientRun(mails, calls)
    ensures forall i :: 0 <= i < |calls| && calls[i].Message? && calls[i].event.Received? ==>
              IsPeerBy(LogBefore(calls, i), (calls[i].event.arrival.group, calls[i].event.arrival.user))
    ensures mails[|calls|].refused != []
  {
    var p := Peer("group", "user", 1, 2, 0);
    var a := Arrival(1, 2, 10.0, Int16, [0, 7]);
    var cfg := Settings(true, false, 0.0);
    var m := Stamped(cfg, 9.0, a);
    var x := Item(m, 1000.0);
    var received := Received(cfg, 9.0, a, 1000.0, 0.0, {(1, 2)});
    var ticked := QueueTicked(1000.0, [x], {});
    var s1 := NoMail().(queue := Enqueue(NoMail().queue, x));
    var s2 := NoMail().(refused := [m]);
    calls := [Lists(Happens(PeerJoin(p))), Message(received), Lists(Happens(PeerLeave((1, 2)))), Message(ticked)];
    mails := [NoMail(), NoMail(), s1, s1, s2];
    ListsWhilePeerLeaves(p, received, ticked);
    ListedIffPeer(calls, 1, (1, 2));
    SingleItemTick(NoMail().queue, x, 1000.0);
    assert Payloads([x]) == [m];
    assert DeliverAll(s1, {}, [m][..0]) == s1;
    assert Takes(s1, calls[3], s2);
    assert Takes(NoMail(), calls[1], s1);
  }
}
