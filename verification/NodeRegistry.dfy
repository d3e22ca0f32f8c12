/**
 Lifetime of the network nodes. Clients, senders and receivers on the same port share one node
 per port; nodes are found through Max's object registry and counted by reference.

 The specification (`World` and the functions on it) has no nodes at all: it only says which
 object is attached to which port. `Patcher` is the code with its registry, reference counts
 and pointers, and its invariant `Valid` ties them to that simple picture.
 */
module NodeRegistry {
  import opened Basics

  datatype Kind = ClientKind | SendKind | ReceiveKind

  // `port` is the port asked for last, `attached` says whether the object has a node.
  datatype Attachment = Attachment(kind: Kind, id: int, port: int, attached: bool)

  type World = map<nat, Attachment>

  // ---------- Specification ----------

  predicate IsOn(w: World, o: nat, port: int) {
    o in w && w[o].attached && w[o].port == port
  }

  predicate InUse(w: World, port: int) {
    exists o :: o in w && IsOn(w, o, port)
  }

  predicate HasClient(w: World, port: int) {
    exists o :: o in w && IsOn(w, o, port) && w[o].kind == ClientKind
  }

  // A port takes any object except a second client. If nobody uses the port yet, a node has to
  // be created, which succeeds if the socket setup does.
  predicate CanAttach(w: World, kind: Kind, port: int, setupOk: bool) {
    if InUse(w, port) then !(kind == ClientKind && HasClient(w, port)) else setupOk
  }

  function Detach(w: World, o: nat): World
    requires o in w
  {
    w[o := w[o].(attached := false)]
  }

  function Attach(w: World, o: nat, port: int, setupOk: bool): World
    requires o in w
  {
    w[o := w[o].(port := port, attached := port != 0 && CanAttach(w, w[o].kind, port, setupOk))]
  }

  datatype Command =
    | NewClient(o: nat, port: int, setupOk: bool)
    | NewStream(o: nat, kind: Kind, port: int, id: int, setupOk: bool)
    | ClientPort(o: nat, port: int, setupOk: bool)
    | SetStream(o: nat, port: int, id: int, setupOk: bool)
    | Free(o: nat)

  // The command addresses an object that exists, or a new one, of the right kind.
  predicate IsMeant(w: World, c: Command) {
    match c
    case NewClient(o, _, _) => o !in w
    case NewStream(o, kind, _, _, _) => o !in w && kind != ClientKind
    case ClientPort(o, _, _) => o in w && w[o].kind == ClientKind
    case SetStream(o, _, _, _) => o in w && w[o].kind != ClientKind
    case Free(o) => o in w
  }

  function SetTo(w: World, o: nat, port: int, id: int, setupOk: bool): World
    requires o in w
  {
    if (id == w[o].id && port == w[o].port) || id < 0 || port < 0 then w
    else Attach(Detach(w, o)[o := w[o].(id := id, attached := false)], o, port, setupOk)
  }

  function Perform(w: World, c: Command): World
    requires IsMeant(w, c)
  {
    match c
    case NewClient(o, port, ok) =>
      var w' := w[o := Attachment(ClientKind, 0, 0, false)];
      if port > 0 then Attach(w', o, port, ok) else w'
    case NewStream(o, kind, port, id, ok) =>
      var id' := if id < 0 then 0 else id;
      SetTo(w[o := Attachment(kind, id', 0, false)], o, port, id', ok)
    case ClientPort(o, port, ok) =>
      if port < 0 then w else Attach(Detach(w, o), o, port, ok)
    case SetStream(o, port, id, ok) => SetTo(w, o, port, id, ok)
    case Free(o) => w - {o}
  }

  ghost predicate IsRun(worlds: seq<World>, commands: seq<Command>) {
    && |worlds| == |commands| + 1
    && worlds[0] == map[]
    && (forall i :: 0 <= i < |commands| ==>
          IsMeant(worlds[i], commands[i]) && worlds[i + 1] == Perform(worlds[i], commands[i]))
  }

  ghost predicate OneClientPerPort(w: World) {
    && (forall o :: o in w && w[o].attached ==> w[o].port > 0)
    && (forall o1, o2 ::
          (o1 in w && o2 in w && w[o1].attached && w[o2].attached && w[o1].port == w[o2].port
           && w[o1].kind == ClientKind && w[o2].kind == ClientKind) ==> o1 == o2)
  }

  lemma AttachKeepsOneClient(w: World, o: nat, port: int, setupOk: bool)
    requires OneClientPerPort(w) && o in w && !w[o].attached && port >= 0
    ensures OneClientPerPort(Attach(w, o, port, setupOk))
  {
  }

  // The states in which the commands attach an object: it has no node at that moment.
  lemma ClearedKeepsOneClient(w: World, o: nat, x: Attachment)
    requires OneClientPerPort(w) && !x.attached
    ensures OneClientPerPort(w[o := x])
  {
  }

  lemma SetToKeepsOneClient(w: World, o: nat, port: int, id: int, setupOk: bool)
    requires OneClientPerPort(w) && o in w
    ensures OneClientPerPort(SetTo(w, o, port, id, setupOk))
  {
    if id >= 0 && port >= 0 {
      var x := w[o].(id := id, attached := false);
      assert Detach(w, o)[o := x] == w[o := x];
      ClearedKeepsOneClient(w, o, x);
      AttachKeepsOneClient(w[o := x], o, port, setupOk);
    }
  }

  lemma PerformKeepsOneClient(w: World, c: Command)
    requires OneClientPerPort(w) && IsMeant(w, c)
    ensures OneClientPerPort(Perform(w, c))
  {
    match c
    case NewClient(o, port, ok) =>
      ClearedKeepsOneClient(w, o, Attachment(ClientKind, 0, 0, false));
      if port > 0 {
        AttachKeepsOneClient(w[o := Attachment(ClientKind, 0, 0, false)], o, port, ok);
      }
    case NewStream(o, kind, port, id, ok) =>
      var id' := if id < 0 then 0 else id;
      ClearedKeepsOneClient(w, o, Attachment(kind, id', 0, false));
      SetToKeepsOneClient(w[o := Attachment(kind, id', 0, false)], o, port, id', ok);
    case ClientPort(o, port, ok) =>
      if port >= 0 {
        ClearedKeepsOneClient(w, o, w[o].(attached := false));
        AttachKeepsOneClient(Detach(w, o), o, port, ok);
      }
    case SetStream(o, port, id, ok) => SetToKeepsOneClient(w, o, port, id, ok);
    case Free(o) =>
  }

  /** In every reachable state at most one client is attached to each port. */
  lemma {:induction false} OneClientInvariant(worlds: seq<World>, commands: seq<Command>)
    requires IsRun(worlds, commands)
    ensures OneClientPerPort(worlds[|commands|])
  {
    var n := |commands| - 1;
    if n >= 0 {
      OneClientInvariant(worlds[..n + 1], commands[..n]);
      PerformKeepsOneClient(worlds[n], commands[n]);
    }
  }

  // ---------- Who is where ----------

  // The kind, id and port that the object of a command is to have. A new object takes a bad id
  // or port for 0.
  function AskedKind(w: World, c: Command): Kind
    requires IsMeant(w, c)
  {
    match c
    case NewClient(_, _, _) => ClientKind
    case NewStream(_, kind, _, _, _) => kind
    case ClientPort(o, _, _) => w[o].kind
    case SetStream(o, _, _, _) => w[o].kind
    case Free(o) => w[o].kind
  }

  function AskedId(w: World, c: Command): int
    requires IsMeant(w, c)
  {
    match c
    case NewClient(_, _, _) => 0
    case NewStream(_, _, _, id, _) => if id >= 0 then id else 0
    case ClientPort(o, _, _) => w[o].id
    case SetStream(_, _, id, _) => id
    case Free(o) => w[o].id
  }

  function AskedPort(c: Command): int {
    match c
    case NewClient(_, port, _) => if port >= 0 then port else 0
    case NewStream(_, _, port, _, _) => if port >= 0 then port else 0
    case ClientPort(_, port, _) => port
    case SetStream(_, port, _, _) => port
    case Free(_) => 0
  }

  // The command is accepted and places its object anew. Bad ports and ids are refused; a sender
  // or receiver does nothing if it has the port and the id already.
  predicate Places(w: World, c: Command)
    requires IsMeant(w, c)
  {
    match c
    case NewClient(_, _, _) => true
    case NewStream(_, _, _, _, _) => true
    case ClientPort(_, port, _) => port >= 0
    case SetStream(o, port, id, _) => port >= 0 && id >= 0 && (port != w[o].port || id != w[o].id)
    case Free(_) => false
  }

  // The object gets a node: port 0 means none, another object may hold one already or it is set
  // up now, and a client is not taken if there is another.
  ghost predicate GetsNode(w: World, c: Command)
    requires IsMeant(w, c) && !c.Free?
  {
    var port := AskedPort(c);
    && port != 0
    && (c.setupOk || exists k :: k != c.o && IsOn(w, k, port))
    && (AskedKind(w, c) == ClientKind ==> forall k :: k != c.o && IsOn(w, k, port) ==> w[k].kind != ClientKind)
  }

  lemma AttachIff(w: World, o: nat, port: int, setupOk: bool)
    requires o in w && !w[o].attached && port != 0
    ensures var w' := Attach(w, o, port, setupOk);
            && w'[o].kind == w[o].kind && w'[o].id == w[o].id && w'[o].port == port
            && (w'[o].attached <==>
                && (setupOk || exists k :: k != o && IsOn(w, k, port))
                && (w[o].kind == ClientKind ==> forall k :: k != o && IsOn(w, k, port) ==> w[k].kind != ClientKind))
  {
    assert forall k :: IsOn(w, k, port) ==> InUse(w, port);
  }

  // Removing the object's own node does not change who else is on a port.
  lemma OthersStay(w: World, o: nat, x: Attachment, k: nat, port: int)
    requires k != o
    ensures IsOn(w[o := x], k, port) <==> IsOn(w, k, port)
  {
  }

  /**
   What one command does, object by object: an accepted one gives its object the kind, id and
   port asked for, and a node if it can get one; a refused one changes nothing; a freed object is
   gone; and no command changes any other object.
   */
  lemma PlacementIff(w: World, c: Command)
    requires IsMeant(w, c)
    ensures var w' := Perform(w, c);
            && (c.Free? ==> c.o !in w')
            && (!c.Free? && !Places(w, c) ==> w' == w)
            && (!c.Free? && Places(w, c) ==>
                  c.o in w' && w'[c.o] == Attachment(AskedKind(w, c), AskedId(w, c), AskedPort(c), GetsNode(w, c)))
            && (forall k :: k != c.o ==> (k in w' <==> k in w) && (k in w ==> w'[k] == w[k]))
  {
    if !c.Free? && Places(w, c) {
      var x := Attachment(AskedKind(w, c), AskedId(w, c), if c.NewClient? || c.NewStream? then 0 else w[c.o].port, false);
      var cleared, port := w[c.o := x], AskedPort(c);
      forall k | k != c.o ensures IsOn(cleared, k, port) <==> IsOn(w, k, port) {
        OthersStay(w, c.o, x, k, port);
      }
      if port != 0 {
        AttachIff(cleared, c.o, port, c.setupOk);
        PerformAttaches(w, c, x);
      }
    }
  }

  lemma PerformAttaches(w: World, c: Command, x: Attachment)
    requires IsMeant(w, c) && !c.Free? && Places(w, c) && AskedPort(c) != 0
    requires x == Attachment(AskedKind(w, c), AskedId(w, c), if c.NewClient? || c.NewStream? then 0 else w[c.o].port, false)
    ensures Perform(w, c) == Attach(w[c.o := x], c.o, AskedPort(c), c.setupOk)
  {
    match c
    case NewClient(o, port, ok) =>
    case NewStream(o, kind, port, id, ok) =>
      assert Detach(w[o := x], o)[o := x] == w[o := x];
    case ClientPort(o, port, ok) =>
    case SetStream(o, port, id, ok) =>
      assert Detach(w, o)[o := x] == w[o := x];
    case Free(o) =>
  }

  // Among the first `n` commands, the `i`-th is the last one that placed the object, and it has
  // not been freed since.
  ghost predicate PlacedLastAt(worlds: seq<World>, commands: seq<Command>, n: nat, i: nat, o: nat)
    requires IsRun(worlds, commands) && n <= |commands|
  {
    && i < n && commands[i].o == o && Places(worlds[i], commands[i])
    && (forall j :: i < j < n && commands[j].o == o ==> !commands[j].Free? && !Places(worlds[j], commands[j]))
  }

  /**
   Who is where, at any point of a run: an object is there exactly if a command placed it and none
   has freed it since, and it has the kind, id and port that the last such command asked for and
   a node exactly if it could get one then.
   */
  lemma {:induction false} PlacementTrace(worlds: seq<World>, commands: seq<Command>, n: nat, o: nat)
    requires IsRun(worlds, commands) && n <= |commands|
    ensures o in worlds[n] <==> exists i: nat :: PlacedLastAt(worlds, commands, n, i, o)
    ensures forall i: nat :: PlacedLastAt(worlds, commands, n, i, o) ==>
              var w, c := worlds[i], commands[i];
              o in worlds[n] && worlds[n][o] == Attachment(AskedKind(w, c), AskedId(w, c), AskedPort(c), GetsNode(w, c))
  {
    if n > 0 {
      PlacementTrace(worlds, commands, n - 1, o);
      var m := n - 1;
      var w, c := worlds[m], commands[m];
      PlacementIff(w, c);
      PlacedLater(worlds, commands, n, o);
      if c.o == o && Places(w, c) {
        assert PlacedLastAt(worlds, commands, n, m, o);
      } else if !(c.o == o && c.Free?) {
        assert o in worlds[n] <==> o in w;
        if i: nat :| PlacedLastAt(worlds, commands, m, i, o) {
          assert PlacedLastAt(worlds, commands, n, i, o);
        }
      }
    }
  }

  lemma PlacedLater(worlds: seq<World>, commands: seq<Command>, n: nat, o: nat)
    requires IsRun(worlds, commands) && 0 < n <= |commands|
    ensures var c := commands[n - 1];
            forall i: nat :: PlacedLastAt(worlds, commands, n, i, o) <==>
              if c.o == o && Places(worlds[n - 1], c) then i == n - 1
              else PlacedLastAt(worlds, commands, n - 1, i, o) && !(c.o == o && c.Free?)
  {
  }

  // A sender whose socket could not be set up does not try again when it gets the same port.
  lemma SamePortIsNotRetried(o: nat, port: int) returns (worlds: seq<World>, commands: seq<Command>)
    requires port > 0
    ensures IsRun(worlds, commands) && |commands| == 2
    ensures commands[1] == SetStream(o, port, 0, true) && o in worlds[2] && !worlds[2][o].attached
  {
    commands := [NewStream(o, SendKind, port, 0, false), SetStream(o, port, 0, true)];
    var w := Perform(map[], commands[0]);
    PlacementIff(map[], commands[0]);
    PlacementIff(w, commands[1]);
    worlds := [map[], w, Perform(w, commands[1])];
  }

  // ---------- Code ----------

  class Node {
    const port: int
    var refcount: int
    var clientObj: Option<nat>

    constructor (port: int)
      ensures this.port == port && refcount == 0 && clientObj == None
    {
      this.port := port;
      refcount, clientObj := 0, None;
    }

    // A sender or receiver whose id is taken on this node is reported, but counted all the same.
    method AddObject(o: nat, kind: Kind) returns (ok: bool)
      modifies this
      ensures ok == !(kind == ClientKind && old(clientObj).Some?)
      ensures !ok ==> refcount == old(refcount) && clientObj == old(clientObj)
      ensures ok ==> refcount == old(refcount) + 1
      ensures ok ==> clientObj == if kind == ClientKind then Some(o) else old(clientObj)
    {
      if kind == ClientKind {
        if clientObj.None? {
          clientObj := Some(o);
        } else {
          return false;
        }
      }
      refcount := refcount + 1;
      return true;
    }
  }

  datatype MaxObject = MaxObject(kind: Kind, id: int, port: int, node: Node?)

  // The objects that point to the node of a port.
  function UsersOf(objects: map<nat, MaxObject>, port: int): set<nat> {
    set o | o in objects && objects[o].node != null && objects[o].port == port
  }

  // Every node pointer is the one registered for the object's port.
  ghost predicate PointersAreRight(objects: map<nat, MaxObject>, registered: map<int, Node>) {
    forall o :: o in objects && objects[o].node != null ==>
      objects[o].port > 0 && objects[o].port in registered && registered[objects[o].port] == objects[o].node
  }

  lemma PointersAfter(objects: map<nat, MaxObject>, registered: map<int, Node>,
                      o: nat, x: MaxObject, registered': map<int, Node>)
    requires PointersAreRight(objects, registered)
    requires o in objects && objects[o].node == null
    requires if x.node == null then registered' == registered
             else x.port > 0 && registered' == registered[x.port := x.node]
                  && (x.port in registered ==> registered[x.port] == x.node)
    ensures PointersAreRight(objects[o := x], registered')
  {
  }

  lemma PointersWithout(objects: map<nat, MaxObject>, registered: map<int, Node>, o: nat, registered': map<int, Node>)
    requires PointersAreRight(objects, registered)
    requires o in objects && objects[o].node != null
    requires registered' == if UsersOf(objects, objects[o].port) == {o} then registered - {objects[o].port} else registered
    ensures PointersAreRight(objects[o := objects[o].(node := null)], registered')
  {
    forall k | k in objects && k != o && objects[k].node != null && objects[k].port == objects[o].port
      ensures UsersOf(objects, objects[o].port) != {o}
    {
      assert k in UsersOf(objects, objects[o].port);
    }
  }

  lemma ValuesAfter(m: map<int, Node>, k: int, v: Node)
    ensures m[k := v].Values <= m.Values + {v}
  {
  }

  // Who is attached where, without the nodes.
  function View(objects: map<nat, MaxObject>): World {
    map o | o in objects :: Attachment(objects[o].kind, objects[o].id, objects[o].port, objects[o].node != null)
  }

  lemma ViewAfter(objects: map<nat, MaxObject>, o: nat, x: MaxObject)
    ensures View(objects[o := x]) == View(objects)[o := Attachment(x.kind, x.id, x.port, x.node != null)]
  {
  }

  lemma UsersAfter(objects: map<nat, MaxObject>, o: nat, x: MaxObject, port: int)
    requires o in objects
    ensures UsersOf(objects[o := x], port) ==
            UsersOf(objects, port) - {o} + if x.node != null && x.port == port then {o} else {}
  {
  }

  // The client slot of a node holds the client attached to the port, if there is one.
  predicate SlotIsRight(objects: map<nat, MaxObject>, slot: Option<nat>, port: int) {
    match slot
    case None => forall o :: o in UsersOf(objects, port) ==> objects[o].kind != ClientKind
    case Some(c) => c in UsersOf(objects, port)
                    && forall o :: o in UsersOf(objects, port) ==> (objects[o].kind == ClientKind <==> o == c)
  }

  lemma UsersWithout(objects: map<nat, MaxObject>, o: nat, port: int)
    requires o in objects && objects[o].node != null
    ensures var users, left := UsersOf(objects, port), UsersOf(objects[o := objects[o].(node := null)], port);
            && (port != objects[o].port ==> left == users)
            && (port == objects[o].port ==> |left| == |users| - 1 && (left == {} <==> users == {o}))
  {
    var users := UsersOf(objects, port);
    UsersAfter(objects, o, objects[o].(node := null), port);
    if port == objects[o].port {
      assert users == users - {o} + {o};
    } else {
      assert users - {o} == users;
    }
  }

  // The slot stays right when a node drops an object.
  lemma SlotWithout(objects: map<nat, MaxObject>, slot: Option<nat>, o: nat, port: int)
    requires SlotIsRight(objects, slot, port)
    requires o in objects && objects[o].node != null
    ensures SlotIsRight(objects[o := objects[o].(node := null)],
                        if port == objects[o].port && objects[o].kind == ClientKind then None else slot, port)
  {
  }

  // A node's count and slot stay right when an object without a node is set, provided the
  // node of the object's new port counted it and, for a client, took it into a free slot.
  lemma CountsAfter(objects: map<nat, MaxObject>, o: nat, x: MaxObject, port: int, slot: Option<nat>)
    requires o in objects && objects[o].node == null
    requires SlotIsRight(objects, slot, port)
    requires x.node != null && x.port == port && x.kind == ClientKind ==> slot == None
    ensures var joins := x.node != null && x.port == port;
            && |UsersOf(objects[o := x], port)| == |UsersOf(objects, port)| + (if joins then 1 else 0)
            && (UsersOf(objects[o := x], port) == {} <==> UsersOf(objects, port) == {} && !joins)
            && SlotIsRight(objects[o := x], if joins && x.kind == ClientKind then Some(o) else slot, port)
  {
    UsersAfter(objects, o, x, port);
    assert UsersOf(objects, port) - {o} == UsersOf(objects, port);
  }

  lemma DetachedThenFreed(w: World, o: nat)
    requires o in w
    ensures Detach(w, o) - {o} == Perform(w, Free(o))
  {
  }

  class Patcher {
    // what is registered under the names "aoo_node <port>"
    var registered: map<int, Node>
    var objects: map<nat, MaxObject>
    ghost var freed: set<Node>

    function Attached(): World
      reads this
    {
      View(objects)
    }

    function AttachedTo(port: int): set<nat>
      reads this
    {
      UsersOf(objects, port)
    }

    // The node registered for the port belongs to it, is alive, and counts its users among
    // the given objects.
    ghost predicate NodeServes(objs: map<nat, MaxObject>, p: int)
      requires p in registered
      reads this, registered.Values
    {
      && registered[p].port == p && registered[p] !in freed
      && UsersOf(objs, p) != {} && registered[p].refcount == |UsersOf(objs, p)|
      && SlotIsRight(objs, registered[p].clientObj, p)
    }

    ghost predicate NodeIsRight(p: int)
      requires p in registered
      reads this, registered.Values
    {
      NodeServes(objects, p)
    }

    ghost predicate Valid()
      reads this, registered.Values
    {
      && (forall p :: p in registered ==> NodeIsRight(p))
      && PointersAreRight(objects, registered)
    }

    constructor ()
      ensures Valid() && Attached() == map[] && registered == map[] && freed == {}
    {
      registered, objects, freed := map[], map[], {};
    }

    // A node is registered for a port exactly when an object is attached to it, and its count
    // is the number of those objects; no object points to a freed node.
    lemma RegisteredIff(p: int)
      requires Valid()
      ensures p in registered <==> InUse(Attached(), p)
      ensures p in registered ==> registered[p].refcount == |AttachedTo(p)|
      ensures p in registered ==> (registered[p].clientObj.Some? <==> HasClient(Attached(), p))
      ensures forall o :: o in objects && objects[o].node != null ==>
                            objects[o].node !in freed && objects[o].node.port == objects[o].port
    {
      forall o ensures o in AttachedTo(p) <==> o in Attached() && IsOn(Attached(), o, p) {
      }
      if p in registered {
        var o :| o in AttachedTo(p);
        assert IsOn(Attached(), o, p);
        if registered[p].clientObj.Some? {
          assert IsOn(Attached(), registered[p].clientObj.value, p);
        }
      }
    }

    // Finds or creates the node of the port and adds the object to it.
    method Get(o: nat, kind: Kind, port: int, setupOk: bool) returns (node: Node?)
      requires Valid()
      modifies this`registered, registered.Values
      ensures (node != null) == CanAttach(Attached(), kind, port, setupOk)
      ensures node == null ==> registered == old(registered)
      ensures node != null ==> registered == old(registered)[port := node] && node.port == port
      ensures port in old(registered) && node != null ==> node == old(registered[port])
      ensures port !in old(registered) && node != null ==> fresh(node)
      ensures node != null ==> node.refcount == |AttachedTo(port)| + 1
      ensures node != null ==> node.clientObj == if kind == ClientKind then Some(o)
                                                 else if port in old(registered) then old(registered[port].clientObj)
                                                 else None
      ensures port in old(registered) && node != null && kind == ClientKind ==> old(registered[port].clientObj) == None
      ensures forall p :: p in old(registered) && (p != port || node == null) ==>
                            && registered[p].refcount == old(registered[p].refcount)
                            && registered[p].clientObj == old(registered[p].clientObj)
    {
      RegisteredIff(port);
      if port in registered {
        node := registered[port];
      } else {
        if !setupOk {
          return null;
        }
        node := new Node(port);
        registered := registered[port := node];
        assert AttachedTo(port) == {};
      }
      assert forall p :: p in old(registered) && p != port ==> registered[p].port == p && registered[p] != node;
      var ok := node.AddObject(o, kind);
      if !ok {
        return null;
      }
    }

    // The registry after `Get`, seen with the object already pointing to what it returned.
    method Connect(o: nat, port: int, setupOk: bool) returns (node: Node?)
      requires Valid() && o in objects && objects[o].node == null && port >= 0
      modifies this`registered, registered.Values
      ensures (node != null) == (port != 0 && CanAttach(Attached(), objects[o].kind, port, setupOk))
      ensures registered == if node == null then old(registered) else old(registered)[port := node]
      ensures node != null && port in old(registered) ==> node == old(registered[port])
      ensures node != null && port !in old(registered) ==> fresh(node)
      ensures forall p :: p in registered ==> NodeServes(objects[o := objects[o].(port := port, node := node)], p)
    {
      node := null;
      if port != 0 {
        node := Get(o, objects[o].kind, port, setupOk);
      }
      ghost var x := objects[o].(port := port, node := node);
      forall p | p in registered ensures NodeServes(objects[o := x], p) {
        if p in old(registered) {
          assert old(NodeIsRight(p));
          CountsAfter(objects, o, x, p, old(registered[p].clientObj));
        } else {
          assert UsersOf(objects, p) == {};
          CountsAfter(objects, o, x, p, None);
        }
      }
    }

    // Attaches the object to the port, unless the port is 0 or the node refuses it.
    method AttachObject(o: nat, port: int, setupOk: bool)
      requires Valid() && o in objects && objects[o].node == null && port >= 0
      modifies this`registered, this`objects, registered.Values
      ensures Valid() && fresh(registered.Values - old(registered.Values))
      ensures Attached() == Attach(old(Attached()), o, port, setupOk)
    {
      var node := Connect(o, port, setupOk);
      var x := objects[o].(port := port, node := node);
      ViewAfter(objects, o, x);
      PointersAfter(objects, old(registered), o, x, registered);
      if node != null {
        ValuesAfter(old(registered), port, node);
      }
      objects := objects[o := x];
    }

    // Drops the object from its node, and frees the node with its last object.
    method Release(o: nat)
      requires Valid() && o in objects && objects[o].node != null
      modifies this`registered, this`freed, registered.Values
      ensures var p := objects[o].port;
              registered == if AttachedTo(p) == {o} then old(registered) - {p} else old(registered)
      ensures freed == if AttachedTo(objects[o].port) == {o} then old(freed) + {objects[o].node} else old(freed)
      ensures forall p :: p in registered ==> NodeServes(objects[o := objects[o].(node := null)], p)
    {
      var p := objects[o].port;
      var node: Node := objects[o].node;
      assert NodeIsRight(p);
      UsersWithout(objects, o, p);
      if objects[o].kind == ClientKind {
        node.clientObj := None;
      }
      node.refcount := node.refcount - 1;
      if node.refcount == 0 {
        registered, freed := registered - {p}, freed + {node};
      } else if node.refcount < 0 {
        assert false;
      }
      forall q | q in registered ensures NodeServes(objects[o := objects[o].(node := null)], q) {
        assert old(NodeIsRight(q));
        UsersWithout(objects, o, q);
        SlotWithout(objects, old(registered[q].clientObj), o, q);
      }
    }

    // Takes the object off its node, if it has one.
    method DetachObject(o: nat)
      requires Valid() && o in objects
      modifies this`registered, this`objects, this`freed, registered.Values
      ensures Valid() && registered.Values <= old(registered.Values)
      ensures Attached() == Detach(old(Attached()), o)
      ensures objects == old(objects)[o := old(objects)[o].(node := null)]
      ensures freed == old(freed) + if old(objects)[o].node != null && old(AttachedTo(objects[o].port)) == {o}
                                    then {old(objects)[o].node} else {}
    {
      var x := objects[o].(node := null);
      ViewAfter(objects, o, x);
      if objects[o].node != null {
        Release(o);
        PointersWithout(objects, old(registered), o, registered);
        objects := objects[o := x];
      } else {
        assert objects[o := x] == objects;
      }
    }

    // Moves the object to another port: it always lets go of its node first.
    method Move(o: nat, port: int, setupOk: bool)
      requires Valid() && o in objects && port >= 0
      modifies this`registered, this`objects, this`freed, registered.Values
      ensures Valid() && fresh(registered.Values - old(registered.Values))
      ensures Attached() == Attach(Detach(old(Attached()), o), o, port, setupOk)
    {
      DetachObject(o);
      AttachObject(o, port, setupOk);
    }

    // Creates an object that has no node yet.
    method Create(o: nat, kind: Kind, id: int)
      requires Valid() && o !in objects
      modifies this`objects
      ensures Valid() && Attached() == old(Attached())[o := Attachment(kind, id, 0, false)]
      ensures o in objects && objects[o] == MaxObject(kind, id, 0, null)
    {
      var x := MaxObject(kind, id, 0, null);
      ViewAfter(objects, o, x);
      forall p ensures UsersOf(objects[o := x], p) == UsersOf(objects, p) {
      }
      objects := objects[o := x];
      forall p | p in registered ensures NodeIsRight(p) {
        assert old(NodeIsRight(p));
      }
    }

    // ---------- The objects' own operations ----------

    // The constructor of aoo.client.
    method ClientNew(o: nat, port: int, setupOk: bool)
      requires Valid() && o !in objects
      modifies this`registered, this`objects, registered.Values
      ensures Valid() && fresh(registered.Values - old(registered.Values))
      ensures Attached() == Perform(old(Attached()), NewClient(o, port, setupOk))
    {
      Create(o, ClientKind, 0);
      if port > 0 {
        AttachObject(o, port, setupOk);
      }
    }

    // The "port" message of aoo.client.
    method ClientSetPort(o: nat, port: int, setupOk: bool)
      requires Valid() && o in objects && objects[o].kind == ClientKind
      modifies this`registered, this`objects, this`freed, registered.Values
      ensures Valid() && fresh(registered.Values - old(registered.Values))
      ensures Attached() == Perform(old(Attached()), ClientPort(o, port, setupOk))
    {
      if port < 0 {
        return;
      }
      Move(o, port, setupOk);
    }

    // The "port" and "id" messages of aoo.send~ and aoo.receive~.
    method StreamSet(o: nat, port: int, id: int, setupOk: bool)
      requires Valid() && o in objects && objects[o].kind != ClientKind
      modifies this`registered, this`objects, this`freed, registered.Values
      ensures Valid() && fresh(registered.Values - old(registered.Values))
      ensures Attached() == SetTo(old(Attached()), o, port, id, setupOk)
    {
      if id == objects[o].id && port == objects[o].port {
        return;
      }
      if id < 0 || port < 0 {
        return;
      }
      DetachObject(o);
      SetId(o, id);
      AttachObject(o, port, setupOk);
    }

    method SetId(o: nat, id: int)
      requires Valid() && o in objects && objects[o].node == null
      modifies this`objects
      ensures Valid() && Attached() == old(Attached())[o := old(Attached())[o].(id := id)]
      ensures objects == old(objects)[o := old(objects)[o].(id := id)]
    {
      var x := objects[o].(id := id);
      ViewAfter(objects, o, x);
      forall p ensures UsersOf(objects[o := x], p) == UsersOf(objects, p) {
      }
      objects := objects[o := x];
      forall p | p in registered ensures NodeIsRight(p) {
        assert old(NodeIsRight(p));
      }
    }

    // The constructors of aoo.send~ and aoo.receive~.
    method StreamNew(o: nat, kind: Kind, port: int, id: int, setupOk: bool)
      requires Valid() && o !in objects && kind != ClientKind
      modifies this`registered, this`objects, this`freed, registered.Values
      ensures Valid() && fresh(registered.Values - old(registered.Values))
      ensures Attached() == Perform(old(Attached()), NewStream(o, kind, port, id, setupOk))
    {
      var id' := if id < 0 then 0 else id;
      Create(o, kind, id');
      StreamSet(o, port, id', setupOk);
    }

    // The destructors.
    method FreeObject(o: nat)
      requires Valid() && o in objects
      modifies this`registered, this`objects, this`freed, registered.Values
      ensures Valid() && registered.Values <= old(registered.Values)
      ensures Attached() == Perform(old(Attached()), Free(o))
    {
      DetachObject(o);
      Delete(o);
      DetachedThenFreed(old(Attached()), o);
    }

    // Deletes an object that has no node.
    method Delete(o: nat)
      requires Valid() && o in objects && objects[o].node == null
      modifies this`objects
      ensures Valid() && Attached() == old(Attached()) - {o}
    {
      forall p ensures UsersOf(objects - {o}, p) == UsersOf(objects, p) {
      }
      assert View(objects - {o}) == View(objects) - {o};
      objects := objects - {o};
      forall p | p in registered ensures NodeIsRight(p) {
        assert old(NodeIsRight(p));
      }
    }
  }
}
