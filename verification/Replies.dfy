/**
 The reply list between the threads of aoo.client. The network thread pushes replies at any
 time; the scheduler thread delivers events and messages, and on each tick runs all pending
 replies if it gets the lock, and none if it does not.
 */
module Replies {
  import opened Membership
  import opened Traces

  datatype ClientState = ClientState(members: Members, pending: seq<Reply>)

  datatype Step =
    | Push(reply: Reply)
    | Happens(effect: Effect)
    | RunReplies(gotLock: bool)

  const FRESH := ClientState(NOBODY, [])

  ghost function ApplyReplies(m: Members, rs: seq<Reply>): Members {
    if rs == [] then m else ApplyReply(ApplyReplies(m, rs[..|rs| - 1]), rs[|rs| - 1])
  }

  ghost function Next(s: ClientState, step: Step): ClientState {
    match step
    case Push(r) => s.(pending := s.pending + [r])
    case Happens(e) => s.(members := Apply(s.members, e))
    case RunReplies(gotLock) =>
      if gotLock then ClientState(ApplyReplies(s.members, s.pending), []) else s
  }

  // Replies take effect only through the list.
  ghost predicate IsRun(steps: seq<Step>) {
    forall i :: 0 <= i < |steps| && steps[i].Happens? ==> !steps[i].effect.Replied?
  }

  ghost function Run(steps: seq<Step>): ClientState {
    if steps == [] then FRESH else Next(Run(steps[..|steps| - 1]), steps[|steps| - 1])
  }

  function AsEffects(rs: seq<Reply>): (r: seq<Effect>)
    ensures |r| == |rs|
  {
    seq(|rs|, i requires 0 <= i < |rs| => Replied(rs[i]))
  }

  // Everything that took effect in the run, in order.
  ghost function LogOf(steps: seq<Step>): seq<Effect> {
    if steps == [] then [] else
      var front, last := steps[..|steps| - 1], steps[|steps| - 1];
      LogOf(front) +
      match last
      case Push(_) => []
      case Happens(e) => [e]
      case RunReplies(gotLock) => if gotLock then AsEffects(Run(front).pending) else []
  }

  function Pushed(steps: seq<Step>): seq<Reply> {
    if steps == [] then [] else
      Pushed(steps[..|steps| - 1]) +
      if steps[|steps| - 1].Push? then [steps[|steps| - 1].reply] else []
  }

  // The replies in a log, in order.
  function Executed(log: seq<Effect>): seq<Reply> {
    if log == [] then [] else
      Executed(log[..|log| - 1]) + if log[|log| - 1].Replied? then [log[|log| - 1].reply] else []
  }

  lemma {:induction false} ExecutedConcat(log: seq<Effect>, rs: seq<Reply>)
    ensures Executed(log + AsEffects(rs)) == Executed(log) + rs
  {
    if rs == [] {
      assert log + AsEffects(rs) == log;
    } else {
      var front := rs[..|rs| - 1];
      ExecutedConcat(log, front);
      assert (log + AsEffects(rs))[..|log| + |front|] == log + AsEffects(front);
      assert Executed(log) + rs == Executed(log) + front + [rs[|rs| - 1]];
    }
  }

  lemma {:induction false} ExecReplies(log: seq<Effect>, rs: seq<Reply>)
    ensures Exec(log + AsEffects(rs)) == ApplyReplies(Exec(log), rs)
  {
    if rs == [] {
      assert log + AsEffects(rs) == log;
    } else {
      var front := rs[..|rs| - 1];
      ExecReplies(log, front);
      assert (log + AsEffects(rs))[..|log| + |front|] == log + AsEffects(front);
    }
  }

  lemma ExecutedOther(log: seq<Effect>, e: Effect)
    requires !e.Replied?
    ensures Executed(log + [e]) == Executed(log)
  {
  }

  // How one more step changes the three sequences.
  lemma StepAdds(steps: seq<Step>)
    requires IsRun(steps) && steps != []
    ensures var front, last := steps[..|steps| - 1], steps[|steps| - 1];
            var ran := if last.RunReplies? && last.gotLock then Run(front).pending else [];
            && Executed(LogOf(steps)) == Executed(LogOf(front)) + ran
            && ran + Run(steps).pending == Run(front).pending + if last.Push? then [last.reply] else []
  {
    var front, last := steps[..|steps| - 1], steps[|steps| - 1];
    var log := LogOf(front);
    match last
    case Push(_) =>
      assert LogOf(steps) == log;
    case Happens(e) =>
      ExecutedOther(log, e);
    case RunReplies(gotLock) =>
      ExecutedConcat(log, Run(front).pending);
      assert !gotLock ==> LogOf(steps) == log;
  }

  lemma Regroup(a: seq<Reply>, b: seq<Reply>, c: seq<Reply>, d: seq<Reply>, e: seq<Reply>)
    requires b + c == d + e
    ensures (a + b) + c == (a + d) + e
  {
    assert (a + b) + c == a + (b + c) && (a + d) + e == a + (d + e);
  }

  /**
   Exactly-once FIFO: under any interleaving, the replies executed so far followed by the
   pending ones are the replies pushed, in the order they were pushed.
   */
  lemma {:induction false} ExactlyOnceInOrder(steps: seq<Step>)
    requires IsRun(steps)
    ensures Executed(LogOf(steps)) + Run(steps).pending == Pushed(steps)
  {
    if steps != [] {
      var front, last := steps[..|steps| - 1], steps[|steps| - 1];
      ExactlyOnceInOrder(front);
      StepAdds(steps);
      var ran := if last.RunReplies? && last.gotLock then Run(front).pending else [];
      var pushed := if last.Push? then [last.reply] else [];
      Regroup(Executed(LogOf(front)), ran, Run(steps).pending, Run(front).pending, pushed);
    }
  }

  /**
   A tick with the lock runs everything: afterwards nothing is pending and all pushed replies
   have been executed. Without the lock it runs nothing.
   */
  lemma LockRunsAll(steps: seq<Step>)
    requires IsRun(steps) && steps != [] && steps[|steps| - 1].RunReplies?
    ensures steps[|steps| - 1].gotLock ==> Run(steps).pending == [] && Executed(LogOf(steps)) == Pushed(steps)
    ensures !steps[|steps| - 1].gotLock ==>
              Run(steps) == Run(steps[..|steps| - 1]) && LogOf(steps) == LogOf(steps[..|steps| - 1])
  {
    ExactlyOnceInOrder(steps);
  }

  // The effects in a log that are not replies, and those of a run, in order.
  function Others(log: seq<Effect>): seq<Effect> {
    if log == [] then [] else
      Others(log[..|log| - 1]) + if log[|log| - 1].Replied? then [] else [log[|log| - 1]]
  }

  function Happened(steps: seq<Step>): seq<Effect> {
    if steps == [] then [] else
      Happened(steps[..|steps| - 1]) +
      if steps[|steps| - 1].Happens? then [steps[|steps| - 1].effect] else []
  }

  lemma {:induction false} OthersConcat(log: seq<Effect>, rs: seq<Reply>)
    ensures Others(log + AsEffects(rs)) == Others(log)
  {
    if rs == [] {
      assert log + AsEffects(rs) == log;
    } else {
      OthersConcat(log, rs[..|rs| - 1]);
      assert (log + AsEffects(rs))[..|log| + |rs| - 1] == log + AsEffects(rs[..|rs| - 1]);
    }
  }

  /**
   Every event takes effect at once: the log only grows, and apart from replies it holds the
   events of the run, in order.
   */
  lemma {:induction false} EventsTakeEffect(steps: seq<Step>)
    requires IsRun(steps)
    ensures Others(LogOf(steps)) == Happened(steps)
    ensures steps != [] ==> LogOf(steps[..|steps| - 1]) <= LogOf(steps)
  {
    if steps != [] {
      var front, last := steps[..|steps| - 1], steps[|steps| - 1];
      EventsTakeEffect(front);
      match last
      case Push(_) =>
        assert LogOf(steps) == LogOf(front);
      case Happens(e) =>
        assert (LogOf(front) + [e])[..|LogOf(front)|] == LogOf(front);
      case RunReplies(gotLock) =>
        OthersConcat(LogOf(front), Run(front).pending);
        assert !gotLock ==> LogOf(steps) == LogOf(front);
    }
  }

  // The lists of the client are what its log executes to.
  lemma {:induction false} RunFollowsLog(steps: seq<Step>)
    ensures Run(steps).members == Exec(LogOf(steps))
  {
    if steps != [] {
      var front, last := steps[..|steps| - 1], steps[|steps| - 1];
      RunFollowsLog(front);
      match last
      case Push(_) =>
        assert LogOf(steps) == LogOf(front);
      case Happens(e) =>
        assert (LogOf(front) + [e])[..|LogOf(front)|] == LogOf(front);
      case RunReplies(gotLock) =>
        ExecReplies(LogOf(front), Run(front).pending);
        assert !gotLock ==> LogOf(steps) == LogOf(front);
    }
  }

  /**
   The trace theorems for the threads: after any interleaving, peers, groups and the connected
   flag are exactly as the log of effects says, in which each pushed reply occurs at most once
   and in push order.
   */
  lemma ListsOfRun(steps: seq<Step>, p: Peer, g: Group)
    requires IsRun(steps)
    ensures p in Run(steps).members.peers <==> IsRecordedBy(PeerMarks(LogOf(steps), KeyOf(p)), p)
    ensures g in Run(steps).members.groups <==> IsRecordedBy(GroupMarks(LogOf(steps), g.id), g)
    ensures HasGroup(Run(steps).members.groups, g.id) <==> IsListedBy(GroupMarks(LogOf(steps), g.id))
    ensures Run(steps).members.connected <==> ConnectedBy(LogOf(steps))
    ensures Executed(LogOf(steps)) <= Pushed(steps)
  {
    RunFollowsLog(steps);
    PeerTrace(LogOf(steps), p);
    GroupTrace(LogOf(steps), g);
    ConnectedTrace(LogOf(steps));
    ExactlyOnceInOrder(steps);
  }

  /**
   When a client that is not connected holds a group or a peer: exactly when the log has no
   standing connect reply but a join that nothing has removed since.
   */
  lemma DisconnectedListsIff(steps: seq<Step>)
    requires IsRun(steps)
    ensures var m, log := Run(steps).members, LogOf(steps);
            && (!m.connected && m.groups != [] <==> !ConnectedBy(log) && !GroupsGone(log))
            && (!m.connected && m.peers != [] <==> !ConnectedBy(log) && !PeersGone(log))
  {
    RunFollowsLog(steps);
    ConnectedTrace(LogOf(steps));
    EmptyIff(LogOf(steps));
  }

  lemma RunTo(steps: seq<Step>, i: nat)
    requires i < |steps|
    ensures Run(steps[..i + 1]) == Next(Run(steps[..i]), steps[i])
  {
    assert steps[..i + 1][..i] == steps[..i];
  }

  lemma SingleReply(m: Members, r: Reply)
    ensures ApplyReplies(m, [r]) == ApplyReply(m, r)
  {
  }

  lemma NotEmptyByJoin(log: seq<Effect>)
    requires !EmptyUnlessConnected(Exec(log))
    ensures !JoinsOnlyConnected(log)
  {
    EmptyUnlessConnectedIff(log);
    assert log[..|log|] == log;
  }

  // The reply to a join is pushed before the user disconnects, and runs afterwards.
  function LateSteps(name: string, id: int): seq<Step> {
    [Push(ConnectOk), RunReplies(true), Push(GroupJoinOk(name, id)), Happens(Disconnect), RunReplies(true)]
  }

  lemma RunOfFive(s: seq<Step>)
    requires |s| == 5
    ensures Run(s) == Next(Next(Next(Next(Next(FRESH, s[0]), s[1]), s[2]), s[3]), s[4])
  {
    RunTo(s, 0);
    RunTo(s, 1);
    RunTo(s, 2);
    RunTo(s, 3);
    RunTo(s, 4);
    assert s[..5] == s;
  }

  lemma ConnectsFirst()
    ensures Next(Next(FRESH, Push(ConnectOk)), RunReplies(true)) == ClientState(Members([], [], true, [true]), [])
  {
    SingleReply(NOBODY, ConnectOk);
    assert [] + [ConnectOk] == [ConnectOk];
  }

  lemma JoinsLast(s: ClientState, name: string, id: int)
    requires s == ClientState(Members([], [], true, [true]), [])
    ensures Next(Next(Next(s, Push(GroupJoinOk(name, id))), Happens(Disconnect)), RunReplies(true)) ==
            ClientState(Members([], [Group(name, id)], false, [true, false]), [])
  {
    var join, offline := GroupJoinOk(name, id), Members([], [], false, [true, false]);
    assert Next(s, Push(join)) == ClientState(s.members, [join]);
    assert Next(ClientState(s.members, [join]), Happens(Disconnect)) == ClientState(offline, [join]);
    SingleReply(offline, join);
  }

  lemma LateRun(name: string, id: int)
    ensures Run(LateSteps(name, id)) == ClientState(Members([], [Group(name, id)], false, [true, false]), [])
  {
    RunOfFive(LateSteps(name, id));
    ConnectsFirst();
    JoinsLast(ClientState(Members([], [], true, [true]), []), name, id);
  }

  /**
   A reply that is still pending when the user disconnects lands afterwards: a client that is
   not connected can hold a group.
   */
  lemma LateReplyAfterDisconnect(name: string, id: int) returns (steps: seq<Step>)
    ensures IsRun(steps)
    ensures !JoinsOnlyConnected(LogOf(steps))
    ensures !Run(steps).members.connected && Run(steps).members.groups == [Group(name, id)]
  {
    steps := LateSteps(name, id);
    LateRun(name, id);
    RunFollowsLog(steps);
    NotEmptyByJoin(LogOf(steps));
  }
}
