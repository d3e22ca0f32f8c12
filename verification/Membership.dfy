/**
 Membership of aoo.client: the peer list, the group list and the connected flag.

 `Apply` says what one event, one server reply or one disconnect message does to the lists.
 The second half describes the same lists without any state, by looking back over the log of
 everything that happened; the trace theorems say that the two descriptions agree for every
 log. Nothing is assumed about the order in which events and replies arrive.
 */
module Membership {
  import opened Basics
  import opened Traces

  datatype Peer = Peer(groupName: string, userName: string, group: int, user: int, address: int)
  datatype Group = Group(name: string, id: int)

  type Key = (int, int)

  function KeyOf(p: Peer): Key {
    (p.group, p.user)
  }

  // The replies that the network thread queues for the scheduler thread.
  datatype Reply =
    | ConnectOk
    | ConnectFailed
    | GroupJoinOk(name: string, id: int)
    | GroupJoinFailed(name: string)
    | GroupLeaveOk(id: int)
    | GroupLeaveFailed(id: int)

  datatype Effect =
    | PeerJoin(peer: Peer)
    | PeerLeave(key: Key)
    | PeerNotice(key: Key)
    | ServerLost
    | Disconnect
    | Replied(reply: Reply)

  // `stateOut` is everything the connection outlet has put out.
  datatype Members = Members(peers: seq<Peer>, groups: seq<Group>, connected: bool, stateOut: seq<bool>)

  const NOBODY := Members([], [], false, [])

  // ---------- The lists ----------

  ghost predicate HasPeer(peers: seq<Peer>, k: Key) {
    exists i :: 0 <= i < |peers| && KeyOf(peers[i]) == k
  }

  ghost predicate HasGroup(groups: seq<Group>, id: int) {
    exists i :: 0 <= i < |groups| && groups[i].id == id
  }

  ghost function Keys(peers: seq<Peer>): set<Key> {
    set p | p in peers :: KeyOf(p)
  }

  function WithoutPeer(peers: seq<Peer>, k: Key): seq<Peer> {
    if peers == [] then []
    else if KeyOf(peers[0]) == k then peers[1..]
    else [peers[0]] + WithoutPeer(peers[1..], k)
  }

  function WithoutGroup(groups: seq<Group>, id: int): seq<Group> {
    if groups == [] then []
    else if groups[0].id == id then groups[1..]
    else [groups[0]] + WithoutGroup(groups[1..], id)
  }

  function OutsideGroup(peers: seq<Peer>, id: int): seq<Peer> {
    if peers == [] then []
    else (if peers[0].group == id then [] else [peers[0]]) + OutsideGroup(peers[1..], id)
  }

  ghost predicate UniquePeers(peers: seq<Peer>) {
    forall i, j :: 0 <= i < j < |peers| ==> KeyOf(peers[i]) != KeyOf(peers[j])
  }

  ghost predicate UniqueGroups(groups: seq<Group>) {
    forall i, j :: 0 <= i < j < |groups| ==> groups[i].id != groups[j].id
  }

  // ---------- One effect ----------

  ghost function Apply(m: Members, e: Effect): Members {
    match e
    case PeerJoin(p) => if HasPeer(m.peers, KeyOf(p)) then m else m.(peers := m.peers + [p])
    case PeerLeave(k) => m.(peers := WithoutPeer(m.peers, k))
    case PeerNotice(_) => m
    case ServerLost => Members([], [], false, m.stateOut + [false])
    case Disconnect => if m.connected then Members([], [], false, m.stateOut + [false]) else m
    case Replied(r) => ApplyReply(m, r)
  }

  ghost function ApplyReply(m: Members, r: Reply): Members {
    match r
    case ConnectOk => Members([], [], true, m.stateOut + [true])
    case ConnectFailed => if m.connected then m else m.(stateOut := m.stateOut + [false])
    case GroupJoinOk(name, id) => if HasGroup(m.groups, id) then m else m.(groups := m.groups + [Group(name, id)])
    case GroupJoinFailed(_) => m
    case GroupLeaveOk(id) =>
      if HasGroup(m.groups, id)
      then m.(groups := WithoutGroup(m.groups, id), peers := OutsideGroup(m.peers, id))
      else m
    case GroupLeaveFailed(_) => m
  }

  ghost function Exec(log: seq<Effect>): Members {
    if log == [] then NOBODY else Apply(Exec(log[..|log| - 1]), log[|log| - 1])
  }

  lemma WithoutPeerKeeps(peers: seq<Peer>, k: Key)
    requires UniquePeers(peers)
    ensures UniquePeers(WithoutPeer(peers, k))
    ensures forall p :: p in WithoutPeer(peers, k) <==> p in peers && KeyOf(p) != k
  {
  }

  lemma WithoutGroupKeeps(groups: seq<Group>, id: int)
    requires UniqueGroups(groups)
    ensures UniqueGroups(WithoutGroup(groups, id))
    ensures forall g :: g in WithoutGroup(groups, id) <==> g in groups && g.id != id
  {
  }

  lemma {:induction false} OutsideGroupMember(peers: seq<Peer>, id: int, p: Peer)
    ensures p in OutsideGroup(peers, id) <==> p in peers && p.group != id
  {
    if peers != [] {
      OutsideGroupMember(peers[1..], id, p);
      assert p in peers <==> p == peers[0] || p in peers[1..];
    }
  }

  lemma {:induction false} OutsideGroupUnique(peers: seq<Peer>, id: int)
    requires UniquePeers(peers)
    ensures UniquePeers(OutsideGroup(peers, id))
  {
    if peers != [] {
      var rest := OutsideGroup(peers[1..], id);
      OutsideGroupUnique(peers[1..], id);
      forall j | 0 <= j < |rest| ensures KeyOf(rest[j]) != KeyOf(peers[0]) {
        OutsideGroupMember(peers[1..], id, rest[j]);
        var i :| 0 <= i < |peers[1..]| && peers[1..][i] == rest[j];
        assert peers[i + 1] == rest[j];
      }
    }
  }

  lemma OutsideGroupKeeps(peers: seq<Peer>, id: int)
    requires UniquePeers(peers)
    ensures UniquePeers(OutsideGroup(peers, id))
    ensures forall p :: p in OutsideGroup(peers, id) <==> p in peers && p.group != id
  {
    OutsideGroupUnique(peers, id);
    forall p ensures p in OutsideGroup(peers, id) <==> p in peers && p.group != id {
      OutsideGroupMember(peers, id, p);
    }
  }

  // No key and no group is ever listed twice.
  lemma {:induction false} ListsAreUnique(log: seq<Effect>)
    ensures UniquePeers(Exec(log).peers) && UniqueGroups(Exec(log).groups)
  {
    if log != [] {
      var m, e := Exec(log[..|log| - 1]), log[|log| - 1];
      ListsAreUnique(log[..|log| - 1]);
      if e.PeerLeave? {
        WithoutPeerKeeps(m.peers, e.key);
      } else if e.Replied? && e.reply.GroupLeaveOk? {
        WithoutGroupKeeps(m.groups, e.reply.id);
        OutsideGroupKeeps(m.peers, e.reply.id);
      }
    }
  }

  // ---------- The lists read off the log ----------

  // Connected: some successful connect reply is not followed by a disconnect of either kind.
  ghost predicate ConnectedBy(log: seq<Effect>) {
    exists i :: 0 <= i < |log| && log[i] == Replied(ConnectOk)
                && forall j :: i < j < |log| ==> log[j] != ServerLost && log[j] != Disconnect
  }

  // The entry that empties both lists. A disconnect message counts only while connected.
  ghost predicate ClearsAt(log: seq<Effect>, i: nat)
    requires i < |log|
  {
    || log[i] == ServerLost
    || log[i] == Replied(ConnectOk)
    || (log[i] == Disconnect && ConnectedBy(log[..i]))
  }

  // What an entry means for a group. A leave reply drops it, if it is there.
  function GroupMark(e: Effect, clears: bool, id: int): Mark<Group> {
    if e.Replied? && e.reply.GroupJoinOk? && e.reply.id == id then Join(Group(e.reply.name, id))
    else if clears || e == Replied(GroupLeaveOk(id)) then Remove
    else Other
  }

  // What an entry means for a peer. A leave reply counts only while its group is listed.
  function PeerMark(e: Effect, clears: bool, groupListed: bool, k: Key): Mark<Peer> {
    if e.PeerJoin? && KeyOf(e.peer) == k then Join(e.peer)
    else if clears || e == PeerLeave(k) || (e == Replied(GroupLeaveOk(k.0)) && groupListed) then Remove
    else Other
  }

  // The log as seen from a group, and from a peer.
  ghost function GroupMarks(log: seq<Effect>, id: int): (marks: seq<Mark<Group>>)
    ensures |marks| == |log|
  {
    seq(|log|, i requires 0 <= i < |log| => GroupMark(log[i], ClearsAt(log, i), id))
  }

  ghost function PeerMarks(log: seq<Effect>, k: Key): (marks: seq<Mark<Peer>>)
    ensures |marks| == |log|
  {
    seq(|log|, i requires 0 <= i < |log| =>
      PeerMark(log[i], ClearsAt(log, i), IsListedBy(GroupMarks(log[..i], k.0)), k))
  }

  // ---------- How the log's reading changes with one more entry ----------

  lemma ConnectedSnoc(log: seq<Effect>, e: Effect)
    ensures ConnectedBy(log + [e]) <==>
            e == Replied(ConnectOk) || (ConnectedBy(log) && e != ServerLost && e != Disconnect)
  {
    var log' := log + [e];
    assert log'[|log|] == e;
    if ConnectedBy(log) && e != ServerLost && e != Disconnect {
      var i :| 0 <= i < |log| && log[i] == Replied(ConnectOk)
               && forall j :: i < j < |log| ==> log[j] != ServerLost && log[j] != Disconnect;
      assert log'[i] == Replied(ConnectOk);
    }
    if ConnectedBy(log') && e != Replied(ConnectOk) {
      var i :| 0 <= i < |log'| && log'[i] == Replied(ConnectOk)
               && forall j :: i < j < |log'| ==> log'[j] != ServerLost && log'[j] != Disconnect;
      assert log[i] == log'[i];
      assert forall j :: i < j < |log| ==> log[j] == log'[j];
    }
  }

  // Marks depend on the log up to their entry only.
  lemma MarksOfPrefix(log: seq<Effect>, n: nat, id: int, k: Key)
    requires n <= |log|
    ensures GroupMarks(log, id)[..n] == GroupMarks(log[..n], id)
    ensures PeerMarks(log, k)[..n] == PeerMarks(log[..n], k)
  {
    forall i | 0 <= i < n ensures log[..n][..i] == log[..i] {
    }
  }

  // ---------- The trace theorems ----------

  /** The connected flag, for every log. */
  lemma {:induction false} ConnectedTrace(log: seq<Effect>)
    ensures Exec(log).connected <==> ConnectedBy(log)
  {
    if log != [] {
      var front, e := log[..|log| - 1], log[|log| - 1];
      assert log == front + [e];
      ConnectedTrace(front);
      ConnectedSnoc(front, e);
    }
  }

  lemma HasGroupIff(groups: seq<Group>, id: int)
    ensures HasGroup(groups, id) <==> exists g :: g in groups && g.id == id
  {
  }

  lemma HasPeerIff(peers: seq<Peer>, k: Key)
    ensures HasPeer(peers, k) <==> exists p :: p in peers && KeyOf(p) == k
    ensures HasPeer(peers, k) <==> k in Keys(peers)
  {
  }

  // The list holds `r` for the group and nothing else.
  ghost predicate GroupIs(groups: seq<Group>, id: int, r: Option<Group>) {
    && (forall g: Group :: g.id == id ==> (g in groups <==> r == Some(g)))
    && (r.Some? ==> r.value.id == id)
  }

  ghost predicate PeerIs(peers: seq<Peer>, k: Key, r: Option<Peer>) {
    && (forall p: Peer :: KeyOf(p) == k ==> (p in peers <==> r == Some(p)))
    && (r.Some? ==> KeyOf(r.value) == k)
  }

  // The effect empties both lists, seen from the state.
  predicate Clears(m: Members, e: Effect) {
    e == ServerLost || e == Replied(ConnectOk) || (e == Disconnect && m.connected)
  }

  // One effect changes the groups as its mark says.
  lemma GroupsAfter(m: Members, e: Effect, id: int, r: Option<Group>)
    requires UniqueGroups(m.groups) && GroupIs(m.groups, id, r)
    ensures GroupIs(Apply(m, e).groups, id, After(r, GroupMark(e, Clears(m, e), id)))
  {
    HasGroupIff(m.groups, id);
    if e.Replied? && e.reply.GroupLeaveOk? {
      WithoutGroupKeeps(m.groups, e.reply.id);
      HasGroupIff(m.groups, e.reply.id);
    }
  }

  lemma {:induction false} GroupsFollowMarks(log: seq<Effect>, id: int)
    ensures GroupIs(Exec(log).groups, id, Current(GroupMarks(log, id)))
  {
    if log != [] {
      var front, e := log[..|log| - 1], log[|log| - 1];
      GroupsFollowMarks(front, id);
      ConnectedTrace(front);
      ListsAreUnique(front);
      MarksOfPrefix(log, |log| - 1, id, (0, 0));
      GroupsAfter(Exec(front), e, id, Current(GroupMarks(front, id)));
    }
  }

  /**
   The group list, for every log: a record is listed exactly when it is that of the first join
   reply of its group since the last entry that drops it, and none follows.
   */
  lemma GroupTrace(log: seq<Effect>, g: Group)
    ensures g in Exec(log).groups <==> IsRecordedBy(GroupMarks(log, g.id), g)
    ensures HasGroup(Exec(log).groups, g.id) <==> IsListedBy(GroupMarks(log, g.id))
  {
    GroupsFollowMarks(log, g.id);
    CurrentIff(GroupMarks(log, g.id), g);
    HasGroupIff(Exec(log).groups, g.id);
  }

  // One effect changes the peers as its mark says.
  lemma PeersAfter(m: Members, e: Effect, k: Key, r: Option<Peer>)
    requires UniquePeers(m.peers) && PeerIs(m.peers, k, r)
    ensures PeerIs(Apply(m, e).peers, k, After(r, PeerMark(e, Clears(m, e), HasGroup(m.groups, k.0), k)))
  {
    HasPeerIff(m.peers, k);
    if e.PeerLeave? {
      WithoutPeerKeeps(m.peers, e.key);
    } else if e.Replied? && e.reply.GroupLeaveOk? {
      OutsideGroupKeeps(m.peers, e.reply.id);
    }
  }

  lemma {:induction false} PeersFollowMarks(log: seq<Effect>, k: Key)
    ensures PeerIs(Exec(log).peers, k, Current(PeerMarks(log, k)))
  {
    if log != [] {
      var front, e := log[..|log| - 1], log[|log| - 1];
      PeersFollowMarks(front, k);
      ConnectedTrace(front);
      ListsAreUnique(front);
      GroupTrace(front, Group("", k.0));
      MarksOfPrefix(log, |log| - 1, 0, k);
      PeersAfter(Exec(front), e, k, Current(PeerMarks(front, k)));
    }
  }

  /**
   The peer list, for every log: a record is listed exactly when it is that of the first join
   of its key since the last removing entry, and none follows.
   */
  lemma PeerTrace(log: seq<Effect>, p: Peer)
    ensures p in Exec(log).peers <==> IsRecordedBy(PeerMarks(log, KeyOf(p)), p)
  {
    PeersFollowMarks(log, KeyOf(p));
    CurrentIff(PeerMarks(log, KeyOf(p)), p);
  }

  /**
   A key is listed exactly when some join of it is not followed by a removing entry, and then
   exactly once.
   */
  lemma {:induction false} KeyTrace(log: seq<Effect>, k: Key)
    ensures HasPeer(Exec(log).peers, k) <==> IsListedBy(PeerMarks(log, k))
    ensures UniquePeers(Exec(log).peers)
  {
    ListsAreUnique(log);
    PeersFollowMarks(log, k);
    HasPeerIff(Exec(log).peers, k);
    CurrentIff(PeerMarks(log, k), Peer("", "", k.0, k.1, 0));
  }

  // ---------- Lists of a client that is not connected ----------

  predicate IsJoin(e: Effect) {
    e.PeerJoin? || (e.Replied? && e.reply.GroupJoinOk?)
  }

  // Nothing joins a list while the client is not connected.
  ghost predicate JoinsOnlyConnected(log: seq<Effect>) {
    forall i :: 0 <= i < |log| && IsJoin(log[i]) ==> ConnectedBy(log[..i])
  }

  predicate EmptyUnlessConnected(m: Members) {
    m.connected || (m.peers == [] && m.groups == [])
  }

  ghost predicate AlwaysEmptyUnlessConnected(log: seq<Effect>) {
    forall n :: 0 <= n <= |log| ==> EmptyUnlessConnected(Exec(log[..n]))
  }

  lemma NextIsEmptyIff(m: Members, e: Effect)
    requires EmptyUnlessConnected(m)
    ensures EmptyUnlessConnected(Apply(m, e)) <==> (IsJoin(e) ==> m.connected)
  {
  }

  lemma SamePrefix(log: seq<Effect>, n: nat)
    requires n < |log|
    ensures log[..|log| - 1][..n] == log[..n]
  {
  }

  lemma PrefixIsEmpty(log: seq<Effect>)
    requires log != []
    ensures AlwaysEmptyUnlessConnected(log) <==>
            AlwaysEmptyUnlessConnected(log[..|log| - 1]) && EmptyUnlessConnected(Exec(log))
  {
    var front := log[..|log| - 1];
    assert log[..|log|] == log;
    forall n | 0 <= n < |log| ensures EmptyUnlessConnected(Exec(front[..n])) <==> EmptyUnlessConnected(Exec(log[..n])) {
      SamePrefix(log, n);
    }
  }

  lemma PrefixJoinsConnected(log: seq<Effect>)
    requires log != []
    ensures JoinsOnlyConnected(log) <==>
            JoinsOnlyConnected(log[..|log| - 1]) && (IsJoin(log[|log| - 1]) ==> ConnectedBy(log[..|log| - 1]))
  {
    var front := log[..|log| - 1];
    forall i | 0 <= i < |front| ensures ConnectedBy(front[..i]) <==> ConnectedBy(log[..i]) {
      SamePrefix(log, i);
    }
  }

  /**
   The lists are empty whenever the client is not connected, all through a log, if and only if
   no join event and no join reply is executed while it is not.
   */
  lemma {:induction false} EmptyUnlessConnectedIff(log: seq<Effect>)
    ensures AlwaysEmptyUnlessConnected(log) <==> JoinsOnlyConnected(log)
  {
    if log == [] {
      assert log[..0] == [];
    } else {
      var front := log[..|log| - 1];
      EmptyUnlessConnectedIff(front);
      PrefixIsEmpty(log);
      PrefixJoinsConnected(log);
      ConnectedTrace(front);
      if AlwaysEmptyUnlessConnected(front) {
        assert front[..|front|] == front;
        NextIsEmptyIff(Exec(front), log[|log| - 1]);
      }
    }
  }

  // Every join, of a group or of a peer, is followed by an entry that removes it again.
  ghost predicate GroupsGone(log: seq<Effect>) {
    forall id :: !IsListedBy(GroupMarks(log, id))
  }

  ghost predicate PeersGone(log: seq<Effect>) {
    forall k :: !IsListedBy(PeerMarks(log, k))
  }

  /** Each list is empty if and only if no join that it remembers still stands. */
  lemma EmptyIff(log: seq<Effect>)
    ensures Exec(log).groups == [] <==> GroupsGone(log)
    ensures Exec(log).peers == [] <==> PeersGone(log)
  {
    var m := Exec(log);
    forall id ensures HasGroup(m.groups, id) <==> IsListedBy(GroupMarks(log, id)) {
      GroupTrace(log, Group("", id));
    }
    forall k ensures HasPeer(m.peers, k) <==> IsListedBy(PeerMarks(log, k)) {
      KeyTrace(log, k);
    }
    if m.groups != [] {
      assert HasGroup(m.groups, m.groups[0].id);
    }
    if m.peers != [] {
      assert HasPeer(m.peers, KeyOf(m.peers[0]));
    }
  }

  /** The connection outlet tells the truth: its last output, if any, is the connected flag. */
  lemma {:induction false} OutletTellsTheTruth(log: seq<Effect>)
    ensures var m := Exec(log);
            m.connected == (m.stateOut != [] && m.stateOut[|m.stateOut| - 1])
  {
    if log != [] {
      OutletTellsTheTruth(log[..|log| - 1]);
    }
  }

  // What an entry makes the connection outlet put out, given whether the client is connected.
  function OutputOf(e: Effect, connected: bool): seq<bool> {
    match e
    case ServerLost => [false]
    case Disconnect => if connected then [false] else []
    case Replied(r) =>
      if r.ConnectOk? then [true] else if r.ConnectFailed? && !connected then [false] else []
    case PeerJoin(_) => []
    case PeerLeave(_) => []
    case PeerNotice(_) => []
  }

  ghost function OutputsBy(log: seq<Effect>): seq<bool> {
    if log == [] then [] else
      var front := log[..|log| - 1];
      OutputsBy(front) + OutputOf(log[|log| - 1], ConnectedBy(front))
  }

  lemma OutputStep(m: Members, e: Effect)
    ensures Apply(m, e).stateOut == m.stateOut + OutputOf(e, m.connected)
  {
  }

  /** All that the connection outlet puts out, read off the log. */
  lemma {:induction false} OutletTrace(log: seq<Effect>)
    ensures Exec(log).stateOut == OutputsBy(log)
  {
    if log != [] {
      var front := log[..|log| - 1];
      OutletTrace(front);
      ConnectedTrace(front);
      OutputStep(Exec(front), log[|log| - 1]);
    }
  }

  // ---------- Order ----------

  // All peers and groups that ever joined, in order.
  function PeersJoined(log: seq<Effect>): seq<Peer> {
    if log == [] then [] else
      var e := log[|log| - 1];
      PeersJoined(log[..|log| - 1]) + if e.PeerJoin? then [e.peer] else []
  }

  function GroupsJoined(log: seq<Effect>): seq<Group> {
    if log == [] then [] else
      var e := log[|log| - 1];
      GroupsJoined(log[..|log| - 1]) +
      if e.Replied? && e.reply.GroupJoinOk? then [Group(e.reply.name, e.reply.id)] else []
  }

  lemma {:induction false} WithoutPeerInOrder(peers: seq<Peer>, k: Key)
    ensures IsSubsequence(WithoutPeer(peers, k), peers)
  {
    if peers == [] {
      NoneIsSubsequence(peers);
    } else if KeyOf(peers[0]) == k {
      SubsequenceOfSelf(peers[1..]);
      SubsequenceOfTail(peers[1..], peers);
    } else {
      WithoutPeerInOrder(peers[1..], k);
      SubsequenceOfTail(WithoutPeer(peers[1..], k), peers);
    }
  }

  lemma {:induction false} WithoutGroupInOrder(groups: seq<Group>, id: int)
    ensures IsSubsequence(WithoutGroup(groups, id), groups)
  {
    if groups == [] {
      NoneIsSubsequence(groups);
    } else if groups[0].id == id {
      SubsequenceOfSelf(groups[1..]);
      SubsequenceOfTail(groups[1..], groups);
    } else {
      WithoutGroupInOrder(groups[1..], id);
      SubsequenceOfTail(WithoutGroup(groups[1..], id), groups);
    }
  }

  lemma {:induction false} OutsideGroupInOrder(peers: seq<Peer>, id: int)
    ensures IsSubsequence(OutsideGroup(peers, id), peers)
  {
    if peers == [] {
      NoneIsSubsequence(peers);
    } else {
      var rest := OutsideGroup(peers[1..], id);
      OutsideGroupInOrder(peers[1..], id);
      SubsequenceOfTail(rest, peers);
      assert OutsideGroup(peers, id) == if peers[0].group == id then rest else [peers[0]] + rest;
    }
  }

  /** Both lists are in the order of the joins, for every log. */
  lemma {:induction false} ListsAreInOrder(log: seq<Effect>)
    ensures IsSubsequence(Exec(log).peers, PeersJoined(log))
    ensures IsSubsequence(Exec(log).groups, GroupsJoined(log))
  {
    if log == [] {
      SubsequenceOfSelf<Peer>([]);
      SubsequenceOfSelf<Group>([]);
    } else {
      var front, e := log[..|log| - 1], log[|log| - 1];
      ListsAreInOrder(front);
      PeersInOrder(Exec(front), e, PeersJoined(front));
      GroupsInOrder(Exec(front), e, GroupsJoined(front));
    }
  }

  lemma PeersInOrder(m: Members, e: Effect, joined: seq<Peer>)
    requires IsSubsequence(m.peers, joined)
    ensures IsSubsequence(Apply(m, e).peers, joined + if e.PeerJoin? then [e.peer] else [])
  {
    NoneIsSubsequence(joined);
    assert joined + [] == joined;
    if e.PeerJoin? {
      SubsequenceSnoc(m.peers, joined, e.peer);
    } else if e.PeerLeave? {
      WithoutPeerInOrder(m.peers, e.key);
      SubsequenceTransitive(WithoutPeer(m.peers, e.key), m.peers, joined);
    } else if e.Replied? && e.reply.GroupLeaveOk? {
      OutsideGroupInOrder(m.peers, e.reply.id);
      SubsequenceTransitive(OutsideGroup(m.peers, e.reply.id), m.peers, joined);
    }
  }

  lemma GroupsInOrder(m: Members, e: Effect, joined: seq<Group>)
    requires IsSubsequence(m.groups, joined)
    ensures IsSubsequence(Apply(m, e).groups,
                          joined + if e.Replied? && e.reply.GroupJoinOk? then [Group(e.reply.name, e.reply.id)] else [])
  {
    NoneIsSubsequence(joined);
    assert joined + [] == joined;
    if e.Replied? && e.reply.GroupJoinOk? {
      SubsequenceSnoc(m.groups, joined, Group(e.reply.name, e.reply.id));
    } else if e.Replied? && e.reply.GroupLeaveOk? {
      WithoutGroupInOrder(m.groups, e.reply.id);
      SubsequenceTransitive(WithoutGroup(m.groups, e.reply.id), m.groups, joined);
    }
  }
}
