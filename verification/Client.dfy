/**
 The aoo.client object: its lists, its reply list and its message queue, updated in place.

 Each method is tied to one step of the specifications: `Replies.Next` for the lists and the
 replies, `PeerMail.Receive` and `PeerMail.Ticks` for the messages. The theorems of those
 modules therefore hold of every sequence of calls.
 */
module Clients {
  import opened Basics
  import opened PriorityQueues
  import opened Scheduling
  import opened Membership
  import opened Replies
  import opened PeerMail
  import opened ClientRun

  // ---------- Erasing while searching ----------

  lemma EraseLater<X>(s: seq<X>, i: nat)
    requires 0 < i < |s|
    ensures [s[0]] + (s[1..][..i - 1] + s[1..][i..]) == s[..i] + s[i + 1..]
  {
  }

  lemma {:induction false} EraseFirstPeer(peers: seq<Peer>, k: Key, i: nat)
    requires i <= |peers| && forall j :: 0 <= j < i ==> KeyOf(peers[j]) != k
    requires i < |peers| ==> KeyOf(peers[i]) == k
    ensures WithoutPeer(peers, k) == if i < |peers| then peers[..i] + peers[i + 1..] else peers
  {
    if i > 0 {
      EraseFirstPeer(peers[1..], k, i - 1);
      if i < |peers| {
        EraseLater(peers, i);
      }
    }
  }

  lemma {:induction false} EraseFirstGroup(groups: seq<Group>, id: int, i: nat)
    requires i <= |groups| && forall j :: 0 <= j < i ==> groups[j].id != id
    requires i < |groups| ==> groups[i].id == id
    ensures WithoutGroup(groups, id) == if i < |groups| then groups[..i] + groups[i + 1..] else groups
  {
    if i > 0 {
      EraseFirstGroup(groups[1..], id, i - 1);
      if i < |groups| {
        EraseLater(groups, i);
      }
    }
  }

  // Erasing the next peer of the group, or going past one of another group, leaves what is to
  // remain unchanged.
  lemma OutsideGroupStep(peers: seq<Peer>, it: nat, id: int)
    requires it < |peers|
    ensures var erased := peers[..it] + peers[it + 1..];
            peers[it].group == id ==>
              peers[..it] + OutsideGroup(peers[it..], id) == erased[..it] + OutsideGroup(erased[it..], id)
    ensures peers[it].group != id ==>
              peers[..it] + OutsideGroup(peers[it..], id) == peers[..it + 1] + OutsideGroup(peers[it + 1..], id)
  {
    var erased := peers[..it] + peers[it + 1..];
    assert erased[..it] == peers[..it] && erased[it..] == peers[it + 1..];
    assert peers[it..][1..] == peers[it + 1..];
    assert peers[..it + 1] == peers[..it] + [peers[it]];
  }

  class AooClient {
    var peers: seq<Peer>
    var groups: seq<Group>
    var connected: bool
    var replies: seq<Reply>

    var schedule: bool
    var discardLate: bool
    var extraDelay: real
    const queue: PriorityQueue<PeerMessage>
    // what the queue clock is armed for
    var queueClock: Option<real>

    // the outputs so far
    ghost var stateOut: seq<bool>
    ghost var dispatched: seq<PeerMessage>
    ghost var refused: seq<PeerMessage>
    ghost var discarded: seq<PeerMessage>

    ghost predicate Valid()
      reads this, queue
    {
      queue.Valid() && ArmedForEarliest(MailState().queue)
    }

    ghost function State(): ClientState
      reads this
    {
      ClientState(Members(peers, groups, connected, stateOut), replies)
    }

    ghost function MailState(): Mail
      reads this, queue
    {
      Mail(QueueState(queue.Items(), queueClock), dispatched, refused, discarded)
    }

    function Config(): Settings
      reads this
    {
      Settings(schedule, discardLate, extraDelay)
    }

    constructor ()
      ensures Valid() && State() == FRESH && MailState() == NoMail()
      ensures Config() == Settings(true, false, 0.0)
      ensures fresh(queue)
    {
      peers, groups, connected, replies := [], [], false, [];
      schedule, discardLate, extraDelay := true, false, 0.0;
      queue := new PriorityQueue<PeerMessage>();
      queueClock := None;
      stateOut, dispatched, refused, discarded := [], [], [], [];
    }

    // ---------- Lookup ----------

    method FindPeer(group: int, user: int) returns (r: Option<Peer>)
      ensures r.Some? <==> HasPeer(peers, (group, user))
      ensures r.Some? <==> (group, user) in Keys(peers)
      ensures r.Some? ==> r.value in peers && r.value.group == group && r.value.user == user
    {
      for i := 0 to |peers|
        invariant forall j :: 0 <= j < i ==> KeyOf(peers[j]) != (group, user)
      {
        if peers[i].group == group && peers[i].user == user {
          return Some(peers[i]);
        }
      }
      return None;
    }

    method FindGroup(id: int) returns (r: Option<Group>)
      ensures r.Some? <==> HasGroup(groups, id)
      ensures r.Some? ==> r.value in groups && r.value.id == id
    {
      for i := 0 to |groups|
        invariant forall j :: 0 <= j < i ==> groups[j].id != id
      {
        if groups[i].id == id {
          return Some(groups[i]);
        }
      }
      return None;
    }

    // ---------- Events, commands and replies ----------

    method AddPeer(p: Peer)
      modifies this`peers
      ensures State() == Next(old(State()), Happens(PeerJoin(p)))
    {
      var known := FindPeer(p.group, p.user);
      if known.Some? {
        return;
      }
      peers := peers + [p];
    }

    method RemovePeer(k: Key)
      modifies this`peers
      ensures State() == Next(old(State()), Happens(PeerLeave(k)))
    {
      for i := 0 to |peers|
        invariant peers == old(peers)
        invariant forall j :: 0 <= j < i ==> KeyOf(peers[j]) != k
      {
        if KeyOf(peers[i]) == k {
          EraseFirstPeer(peers, k, i);
          peers := peers[..i] + peers[i + 1..];
          return;
        }
      }
      EraseFirstPeer(peers, k, |peers|);
    }

    method Forget(nowConnected: bool)
      modifies this`peers, this`groups, this`connected, this`stateOut
      ensures State() == ClientState(Members([], [], nowConnected, old(stateOut) + [nowConnected]), replies)
    {
      peers, groups := [], [];
      connected := nowConnected;
      stateOut := stateOut + [nowConnected];
    }

    // A membership event from the network library, or the disconnect message of the user.
    method Handle(e: Effect)
      requires !e.Replied?
      modifies this`peers, this`groups, this`connected, this`stateOut
      ensures State() == Next(old(State()), Happens(e))
    {
      match e
      case PeerJoin(p) => AddPeer(p);
      case PeerLeave(k) => RemovePeer(k);
      case PeerNotice(_) =>
      case ServerLost => Forget(false);
      case Disconnect =>
        if !connected {
          return;
        }
        Forget(false);
    }

    method PushReply(r: Reply)
      modifies this`replies
      ensures State() == Next(old(State()), Push(r))
    {
      replies := replies + [r];
    }

    // Takes all peers of the group off the list, erasing while iterating.
    method EraseGroupPeers(id: int)
      modifies this`peers
      ensures peers == OutsideGroup(old(peers), id)
    {
      var it := 0;
      while it < |peers|
        invariant 0 <= it <= |peers|
        invariant OutsideGroup(old(peers), id) == peers[..it] + OutsideGroup(peers[it..], id)
        decreases |peers| - it
      {
        OutsideGroupStep(peers, it, id);
        if peers[it].group == id {
          peers := peers[..it] + peers[it + 1..];
        } else {
          it := it + 1;
        }
      }
    }

    method LeaveGroup(id: int)
      modifies this`peers, this`groups
      ensures State() == old(State()).(members := ApplyReply(old(State()).members, GroupLeaveOk(id)))
    {
      for i := 0 to |groups|
        invariant groups == old(groups) && peers == old(peers)
        invariant forall j :: 0 <= j < i ==> groups[j].id != id
      {
        if groups[i].id == id {
          EraseFirstGroup(groups, id, i);
          groups := groups[..i] + groups[i + 1..];
          EraseGroupPeers(id);
          return;
        }
      }
    }

    method RunReply(r: Reply)
      modifies this`peers, this`groups, this`connected, this`stateOut
      ensures State() == old(State()).(members := ApplyReply(old(State()).members, r))
    {
      match r
      case ConnectOk => Forget(true);
      case ConnectFailed =>
        if !connected {
          stateOut := stateOut + [false];
        }
      case GroupJoinOk(name, id) =>
        var known := FindGroup(id);
        if known.None? {
          groups := groups + [Group(name, id)];
        }
      case GroupJoinFailed(_) =>
      case GroupLeaveOk(id) => LeaveGroup(id);
      case GroupLeaveFailed(_) =>
    }

    // The reply half of a tick: runs all pending replies unless the lock is taken.
    method RunPending(gotLock: bool)
      modifies this`peers, this`groups, this`connected, this`stateOut, this`replies
      ensures State() == Next(old(State()), RunReplies(gotLock))
    {
      if gotLock {
        for i := 0 to |replies|
          invariant replies == old(replies)
          invariant State().members == ApplyReplies(old(State()).members, replies[..i])
        {
          RunReply(replies[i]);
          assert replies[..i + 1][..i] == replies[..i];
        }
        assert replies[..|replies|] == replies;
        replies := [];
      }
    }

    // ---------- Messages ----------

    // Puts the message out, unless its sender is not listed.
    method DispatchMessage(m: PeerMessage)
      modifies this`dispatched, this`refused
      ensures MailState() == Deliver(old(MailState()), Keys(peers), m)
    {
      var peer := FindPeer(m.group, m.user);
      if peer.None? {
        refused := refused + [m];
        return;
      }
      dispatched := dispatched + [m];
    }

    // Puts the message on the queue and re-arms the clock if it is the next due element.
    method Schedule(m: PeerMessage, abstime: real)
      requires Valid()
      modifies this`queueClock, queue
      ensures Valid()
      ensures MailState() == old(MailState()).(queue := Enqueue(old(MailState()).queue, Item(m, abstime)))
    {
      ghost var before := MailState().queue;
      EnqueueKeepsArmed(before, Item(m, abstime));
      if !queue.Empty() {
        queue.TopIsEarliest();
      }
      if queue.Empty() || abstime < queue.Top().time {
        queueClock := Some(abstime);
      }
      queue.Push(Item(m, abstime));
    }

    // Early messages wait and late ones may be discarded, unless scheduling is off.
    method HandleTimed(m: PeerMessage, abstime: real)
      requires Valid()
      modifies this`queueClock, this`dispatched, this`refused, this`discarded, queue
      ensures Valid()
      ensures MailState() ==
              if schedule && m.delay >= 0.0
              then old(MailState()).(queue := Enqueue(old(MailState()).queue, Item(m, abstime)))
              else if schedule && discardLate then old(MailState()).(discarded := old(discarded) + [m])
              else Deliver(old(MailState()), Keys(peers), m)
    {
      if schedule && m.delay >= 0.0 {
        Schedule(m, abstime);
      } else if !schedule || !discardLate {
        DispatchMessage(m);
      } else {
        discarded := discarded + [m];
      }
    }

    // `now` is OSC time, dejittered or not; `abstime` is the system time after the delay.
    method HandleMessage(now: real, a: Arrival, abstime: real)
      requires Valid()
      modifies this`queueClock, this`dispatched, this`refused, this`discarded, queue
      ensures Valid()
      ensures MailState() == Receive(old(MailState()), Config(), now, a, abstime, Keys(peers))
    {
      if a.time != EMPTY_TIME && a.time != IMMEDIATE_TIME {
        var delay := (a.time - now) * 1000.0;
        if schedule {
          // only automatically scheduled messages get the extra delay
          delay := delay + extraDelay;
        }
        assert delay == DelayOf(Config(), now, a);
        HandleTimed(PeerMessage(delay, a.group, a.user, a.ty, a.data), abstime);
      } else {
        DispatchMessage(PeerMessage(0.0, a.group, a.user, a.ty, a.data));
      }
    }

    // One event of a poll.
    method Poll(e: Polled)
      requires Valid() && (e.ListEvent? ==> !e.effect.Replied?)
      modifies this`peers, this`groups, this`connected, this`stateOut
      modifies this`queueClock, this`dispatched, this`refused, this`discarded, queue
      ensures Valid()
      ensures Whole(State(), MailState()) == AfterPolled(old(Whole(State(), MailState())), Config(), e)
    {
      match e
      case ListEvent(effect) => Handle(effect);
      case MessageEvent(now, a, abstime) => HandleMessage(now, a, abstime);
    }

    // Delivers the events and messages that are due.
    method PollAll(events: seq<Polled>)
      requires Valid() && forall i :: 0 <= i < |events| && events[i].ListEvent? ==> !events[i].effect.Replied?
      modifies this`peers, this`groups, this`connected, this`stateOut
      modifies this`queueClock, this`dispatched, this`refused, this`discarded, queue
      ensures Valid()
      ensures Whole(State(), MailState()) == AfterAllPolled(old(Whole(State(), MailState())), Config(), events)
    {
      ghost var start := Whole(State(), MailState());
      for i := 0 to |events|
        invariant Valid() && Whole(State(), MailState()) == AfterAllPolled(start, Config(), events[..i])
      {
        Poll(events[i]);
        NextPolled(start, Config(), events, i);
      }
      assert events[..|events|] == events;
    }

    // A tick of the client: polls, then runs the replies.
    method Tick(events: seq<Polled>, gotLock: bool)
      requires Valid() && forall i :: 0 <= i < |events| && events[i].ListEvent? ==> !events[i].effect.Replied?
      modifies this`peers, this`groups, this`connected, this`stateOut, this`replies
      modifies this`queueClock, this`dispatched, this`refused, this`discarded, queue
      ensures Valid()
      ensures Whole(State(), MailState()) == AfterTick(old(Whole(State(), MailState())), Config(), events, gotLock)
      ensures gotLock ==> replies == []
    {
      PollAll(events);
      RunPending(gotLock);
    }

    // What a queue tick that started in `start` has done after sending `sent`.
    ghost predicate HasSent(start: Mail, now: real, sent: seq<Item<PeerMessage>>)
      reads this, queue
    {
      && queue.Valid()
      && PartlyDrained(start.queue.items, now, sent, queue.Items())
      && MailState() == DeliverAll(start, Keys(peers), Payloads(sent)).(queue := MailState().queue)
    }

    // One round of the queue tick.
    method DispatchTop(ghost start: Mail, now: real, ghost sent: seq<Item<PeerMessage>>)
      requires HasSent(start, now, sent) && !queue.Empty() && queue.Top().time <= now
      modifies this`dispatched, this`refused, queue
      ensures HasSent(start, now, sent + [old(queue.Top())])
      ensures |queue.Items()| < |old(queue.Items())|
    {
      queue.TopIsEarliest();
      SendEarliest(start.queue.items, now, sent, queue.Items(), queue.Top());
      DeliverOneMore(start, Keys(peers), sent, queue.Top());
      DispatchMessage(queue.Top().data);
      queue.Pop();
    }

    // Dispatches and pops until the top is not due.
    method SendDue(ghost start: Mail, now: real) returns (ghost sent: seq<Item<PeerMessage>>)
      requires HasSent(start, now, [])
      modifies this`dispatched, this`refused, queue
      ensures HasSent(start, now, sent)
      ensures queue.Empty() || queue.Top().time > now
    {
      sent := [];
      while !queue.Empty() && queue.Top().time <= now
        invariant HasSent(start, now, sent)
        decreases |queue.Items()|
      {
        ghost var top := queue.Top();
        DispatchTop(start, now, sent);
        sent := sent + [top];
      }
    }

    // The one-shot queue clock has fired, which disarms it.
    method QueueTick(now: real) returns (ghost sent: seq<Item<PeerMessage>>)
      requires Valid()
      modifies this`queueClock, this`dispatched, this`refused, queue
      ensures Valid()
      ensures Ticks(old(MailState()), now, sent, Keys(peers), MailState())
    {
      ghost var start := MailState();
      queueClock := None;
      sent := SendDue(start, now);
      Rearm(start, now, sent);
    }

    // Re-arms the clock for what is left.
    method Rearm(ghost start: Mail, now: real, ghost sent: seq<Item<PeerMessage>>)
      requires HasSent(start, now, sent) && queueClock == None
      requires queue.Empty() || queue.Top().time > now
      modifies this`queueClock
      ensures Valid() && Ticks(start, now, sent, Keys(peers), MailState())
    {
      if !queue.Empty() {
        queue.TopIsEarliest();
        queueClock := Some(queue.Top().time);
        NothingElseDue(start.queue, now, sent, queue.Top(), MailState().queue);
      }
    }
  }

  lemma DeliverOneMore(s: Mail, listed: set<Key>, sent: seq<Item<PeerMessage>>, x: Item<PeerMessage>)
    ensures DeliverAll(s, listed, Payloads(sent + [x])) == Deliver(DeliverAll(s, listed, Payloads(sent)), listed, x.data)
  {
    assert Payloads(sent + [x])[..|sent|] == Payloads(sent);
  }
}
