/**
 The sink list of aoo.send~ and the "add" and "remove" messages that it puts out.

 `Next` specifies every command and event; `AooSend` is the code with its search and erase
 loops. Which address a host name or peer name stands for, and which peer an address belongs
 to, are inputs of each step: they may change from one step to the next.
 */
module SinkList {
  import opened Atoms
  import opened Basics
  import opened Traces

  datatype Names = Names(group: string, user: string)
  datatype Sink = Sink(endpoint: Endpoint, names: Option<Names>)
  datatype Announcement = Announcement(added: bool, endpoint: Endpoint)

  // `faults` counts how often the removal of an unlisted sink was attempted.
  datatype SendState = SendState(sinks: seq<Sink>, out: seq<Announcement>, hasNode: bool, faults: nat)

  const EMPTY_LIST := SendState([], [], false, 0)

  datatype Command =
    // the user's messages, with the address that the peer name or host name is resolved to
    | Add(argv: seq<Atom>, found: Option<Address>, names: Option<Names>)
    | Remove(argv: seq<Atom>, found: Option<Address>)
    // events from the network library
    | SinkAdded(endpoint: Endpoint, names: Option<Names>)
    | SinkRemoved(endpoint: Endpoint)
    // the object gets or loses its node
    | SetNode(hasNode: bool)

  // ---------- The list ----------

  predicate IsListed(sinks: seq<Sink>, e: Endpoint) {
    exists i :: 0 <= i < |sinks| && sinks[i].endpoint == e
  }

  function CountOf(sinks: seq<Sink>, e: Endpoint): nat {
    if sinks == [] then 0 else (if sinks[0].endpoint == e then 1 else 0) + CountOf(sinks[1..], e)
  }

  function Without(sinks: seq<Sink>, e: Endpoint): seq<Sink> {
    if sinks == [] then []
    else if sinks[0].endpoint == e then sinks[1..]
    else [sinks[0]] + Without(sinks[1..], e)
  }

  // The first sink that was listed under the names and id.
  function FindByNames(sinks: seq<Sink>, names: Names, id: int): Option<Sink> {
    if sinks == [] then None
    else if sinks[0].names == Some(names) && sinks[0].endpoint.id == id then Some(sinks[0])
    else FindByNames(sinks[1..], names, id)
  }

  // ---------- Announcements ----------

  // An announcement is put out only if the endpoint can be written down.
  function Announce(out: seq<Announcement>, added: bool, e: Endpoint): seq<Announcement> {
    if e.address.valid then out + [Announcement(added, e)] else out
  }

  function AnnounceRemovals(out: seq<Announcement>, sinks: seq<Sink>): seq<Announcement>
    decreases sinks
  {
    if sinks == [] then out else AnnounceRemovals(Announce(out, false, sinks[0].endpoint), sinks[1..])
  }

  // ---------- Commands ----------

  // The endpoint that the arguments <group> <user> <id> or <host> <port> <id> stand for. With
  // `check` it must be a listed one.
  function GetSinkArg(s: SendState, argv: seq<Atom>, found: Option<Address>, check: bool): Option<Endpoint> {
    if !s.hasNode || |argv| < 3 then None
    else
      var id := Trunc(GetFloat(argv[2]));
      if argv[1].Sym? then
        var sink := FindByNames(s.sinks, Names(GetSym(argv[0]), GetSym(argv[1])), id);
        if sink.Some? then Some(sink.value.endpoint)
        else if !check && found.Some? then Some(Endpoint(found.value, id))
        else None
      else if found.None? then None
      else if check && !IsListed(s.sinks, Endpoint(found.value, id)) then None
      else Some(Endpoint(found.value, id))
  }

  function AddSink(s: SendState, e: Endpoint, names: Option<Names>): SendState {
    s.(sinks := s.sinks + [Sink(e, names)], out := Announce(s.out, true, e))
  }

  function RemoveSink(s: SendState, e: Endpoint): SendState {
    if IsListed(s.sinks, e)
    then s.(sinks := Without(s.sinks, e), out := Announce(s.out, false, e))
    else s.(faults := s.faults + 1)
  }

  function RemoveAll(s: SendState): SendState {
    s.(sinks := [], out := AnnounceRemovals(s.out, s.sinks))
  }

  function Next(s: SendState, c: Command): SendState {
    match c
    case Add(argv, found, names) =>
      var e := GetSinkArg(s, argv, found, false);
      if e.None? || IsListed(s.sinks, e.value) then s else AddSink(s, e.value, names)
    case Remove(argv, found) =>
      if s.hasNode && argv == [] then RemoveAll(s)
      else
        var e := GetSinkArg(s, argv, found, true);
        if e.None? then s else RemoveSink(s, e.value)
    case SinkAdded(e, names) =>
      if !e.address.valid || IsListed(s.sinks, e) then s else AddSink(s, e, names)
    case SinkRemoved(e) =>
      if !e.address.valid || !IsListed(s.sinks, e) then s else RemoveSink(s, e)
    case SetNode(hasNode) => s.(hasNode := hasNode)
  }

  function Run(commands: seq<Command>): SendState {
    if commands == [] then EMPTY_LIST else Next(Run(commands[..|commands| - 1]), commands[|commands| - 1])
  }

  // ---------- Facts about the list ----------

  lemma {:induction false} CountIff(sinks: seq<Sink>, e: Endpoint)
    ensures CountOf(sinks, e) > 0 <==> IsListed(sinks, e)
  {
    if sinks != [] {
      CountIff(sinks[1..], e);
      if IsListed(sinks, e) && sinks[0].endpoint != e {
        var i :| 0 <= i < |sinks| && sinks[i].endpoint == e;
        assert sinks[1..][i - 1].endpoint == e;
      }
      if IsListed(sinks[1..], e) {
        var i :| 0 <= i < |sinks[1..]| && sinks[1..][i].endpoint == e;
        assert sinks[i + 1].endpoint == e;
      }
    }
  }

  lemma {:induction false} CountSnoc(sinks: seq<Sink>, x: Sink, e: Endpoint)
    ensures CountOf(sinks + [x], e) == CountOf(sinks, e) + if x.endpoint == e then 1 else 0
  {
    if sinks == [] {
      assert sinks + [x] == [x] && [x][1..] == [];
    } else {
      CountSnoc(sinks[1..], x, e);
      assert (sinks + [x])[1..] == sinks[1..] + [x];
    }
  }

  lemma {:induction false} CountWithout(sinks: seq<Sink>, gone: Endpoint, e: Endpoint)
    requires IsListed(sinks, gone)
    ensures CountOf(Without(sinks, gone), e) == CountOf(sinks, e) - if gone == e then 1 else 0
  {
    if sinks[0].endpoint != gone {
      var i :| 0 <= i < |sinks| && sinks[i].endpoint == gone;
      assert sinks[1..][i - 1].endpoint == gone;
      CountWithout(sinks[1..], gone, e);
    }
  }

  lemma {:induction false} FoundByNamesIsListed(sinks: seq<Sink>, names: Names, id: int)
    requires FindByNames(sinks, names, id).Some?
    ensures var x := FindByNames(sinks, names, id).value;
            x.endpoint.id == id && x.names == Some(names) && IsListed(sinks, x.endpoint)
  {
    if !(sinks[0].names == Some(names) && sinks[0].endpoint.id == id) {
      FoundByNamesIsListed(sinks[1..], names, id);
      var x := FindByNames(sinks, names, id).value;
      var i :| 0 <= i < |sinks[1..]| && sinks[1..][i].endpoint == x.endpoint;
      assert sinks[i + 1].endpoint == x.endpoint;
    }
  }

  /** A checked lookup that succeeds, by peer name or by host, yields a listed sink. */
  lemma CheckedLookupIsListed(s: SendState, argv: seq<Atom>, found: Option<Address>)
    requires GetSinkArg(s, argv, found, true).Some?
    ensures IsListed(s.sinks, GetSinkArg(s, argv, found, true).value)
  {
    if argv[1].Sym? {
      FoundByNamesIsListed(s.sinks, Names(GetSym(argv[0]), GetSym(argv[1])), Trunc(GetFloat(argv[2])));
    }
  }

  /** So no run ever tries to remove a sink that is not listed. */
  lemma {:induction false} NoFaults(commands: seq<Command>)
    ensures Run(commands).faults == 0
  {
    if commands != [] {
      var s, c := Run(commands[..|commands| - 1]), commands[|commands| - 1];
      NoFaults(commands[..|commands| - 1]);
      if c.Remove? && GetSinkArg(s, c.argv, c.found, true).Some? {
        CheckedLookupIsListed(s, c.argv, c.found);
      }
    }
  }

  // ---------- The list read off the commands ----------

  // Whether the object has a node: what the last such change says.
  function NodeBy(commands: seq<Command>): bool {
    if commands == [] then false
    else if commands[|commands| - 1].SetNode? then commands[|commands| - 1].hasNode
    else NodeBy(commands[..|commands| - 1])
  }

  lemma {:induction false} NodeTrace(commands: seq<Command>)
    ensures Run(commands).hasNode == NodeBy(commands)
  {
    if commands != [] {
      NodeTrace(commands[..|commands| - 1]);
    }
  }

  // The sink is listed under the names and id, and none before it.
  predicate IsFirstNamed(sinks: seq<Sink>, names: Names, id: int, k: nat) {
    && k < |sinks| && sinks[k].names == Some(names) && sinks[k].endpoint.id == id
    && forall j :: 0 <= j < k ==> !(sinks[j].names == Some(names) && sinks[j].endpoint.id == id)
  }

  ghost predicate IsNamed(sinks: seq<Sink>, names: Names, id: int) {
    exists k :: 0 <= k < |sinks| && sinks[k].names == Some(names) && sinks[k].endpoint.id == id
  }

  // The arguments of "add" ask for the endpoint: <host> <port> <id>, where the host resolves to its
  // address, or <group> <user> <id> of a peer with its address that is not listed by name yet.
  ghost predicate AsksFor(sinks: seq<Sink>, argv: seq<Atom>, found: Option<Address>, e: Endpoint) {
    && |argv| >= 3 && IsInteger(argv[2], e.id) && found == Some(e.address)
    && (argv[1].Sym? ==> !IsNamed(sinks, Names(GetSym(argv[0]), argv[1].s), e.id))
  }

  ghost predicate StandsUnder(sinks: seq<Sink>, names: Names, id: int, e: Endpoint) {
    exists k: nat :: IsFirstNamed(sinks, names, id, k) && sinks[k].endpoint == e
  }

  // The arguments of "remove" stand for the endpoint: <host> <port> <id>, where the host resolves
  // to its address, or the names and id that it is the first to be listed under.
  ghost predicate StandsFor(sinks: seq<Sink>, argv: seq<Atom>, found: Option<Address>, e: Endpoint) {
    && |argv| >= 3 && IsInteger(argv[2], e.id)
    && if argv[1].Sym?
       then StandsUnder(sinks, Names(GetSym(argv[0]), argv[1].s), e.id, e)
       else found == Some(e.address)
  }

  // What a command means for an endpoint.
  ghost function SinkMark(sinks: seq<Sink>, hasNode: bool, c: Command, e: Endpoint): Mark<Sink> {
    match c
    case Add(argv, found, names) =>
      if hasNode && AsksFor(sinks, argv, found, e) then Join(Sink(e, names)) else Other
    case Remove(argv, found) =>
      if hasNode && (argv == [] || StandsFor(sinks, argv, found, e)) then Traces.Remove else Other
    case SinkAdded(x, names) => if x == e && e.address.valid then Join(Sink(e, names)) else Other
    case SinkRemoved(x) => if x == e && e.address.valid then Traces.Remove else Other
    case SetNode(_) => Other
  }

  ghost function SinkMarks(commands: seq<Command>, e: Endpoint): (marks: seq<Mark<Sink>>)
    ensures |marks| == |commands|
  {
    seq(|commands|, i requires 0 <= i < |commands| =>
      SinkMark(Run(commands[..i]).sinks, NodeBy(commands[..i]), commands[i], e))
  }

  lemma FindIff(sinks: seq<Sink>, names: Names, id: int, e: Endpoint)
    ensures FindByNames(sinks, names, id).None? <==> !IsNamed(sinks, names, id)
    ensures FindByNames(sinks, names, id).Some? ==>
              (FindByNames(sinks, names, id).value.endpoint == e <==> StandsUnder(sinks, names, id, e))
    ensures StandsUnder(sinks, names, id, e) ==> IsNamed(sinks, names, id) && e.id == id && IsListed(sinks, e)
  {
    if k :| 0 <= k < |sinks| && sinks[k].names == Some(names) && sinks[k].endpoint.id == id {
      var first := FirstNamed(sinks, names, id, k);
      FindFirst(sinks, names, id, first);
      if j: nat :| IsFirstNamed(sinks, names, id, j) && sinks[j].endpoint == e {
        FindFirst(sinks, names, id, j);
      }
    } else {
      FindFirst(sinks, names, id, |sinks|);
    }
  }

  lemma {:induction false} FirstNamed(sinks: seq<Sink>, names: Names, id: int, k: nat) returns (first: nat)
    requires k < |sinks| && sinks[k].names == Some(names) && sinks[k].endpoint.id == id
    ensures IsFirstNamed(sinks, names, id, first)
  {
    if j :| 0 <= j < k && sinks[j].names == Some(names) && sinks[j].endpoint.id == id {
      first := FirstNamed(sinks, names, id, j);
    } else {
      first := k;
    }
  }

  // The code's lookup for a removal finds what the arguments stand for, if it is listed.
  lemma CheckedLookupIff(s: SendState, argv: seq<Atom>, found: Option<Address>, e: Endpoint)
    ensures GetSinkArg(s, argv, found, true) == Some(e) <==>
            s.hasNode && StandsFor(s.sinks, argv, found, e) && IsListed(s.sinks, e)
  {
    if |argv| >= 3 {
      IntegerIff(argv[2], e.id);
      if argv[1].Sym? {
        FindIff(s.sinks, Names(GetSym(argv[0]), argv[1].s), Trunc(GetFloat(argv[2])), e);
      }
    }
  }

  // The code's lookup for an addition finds what the arguments ask for, or a sink that is listed.
  lemma UncheckedLookupIff(s: SendState, argv: seq<Atom>, found: Option<Address>, e: Endpoint)
    requires !IsListed(s.sinks, e)
    ensures GetSinkArg(s, argv, found, false) == Some(e) <==> s.hasNode && AsksFor(s.sinks, argv, found, e)
  {
    if |argv| >= 3 {
      IntegerIff(argv[2], e.id);
      if argv[1].Sym? {
        FindIff(s.sinks, Names(GetSym(argv[0]), argv[1].s), Trunc(GetFloat(argv[2])), e);
        if FindByNames(s.sinks, Names(GetSym(argv[0]), argv[1].s), Trunc(GetFloat(argv[2]))).Some? {
          FoundByNamesIsListed(s.sinks, Names(GetSym(argv[0]), argv[1].s), Trunc(GetFloat(argv[2])));
        }
      }
    }
  }

  // ---------- Announcements alternate ----------

  // The announcements about one endpoint: true for "add", false for "remove".
  function About(out: seq<Announcement>, e: Endpoint): seq<bool> {
    if out == [] then [] else
      About(out[..|out| - 1], e) + if out[|out| - 1].endpoint == e then [out[|out| - 1].added] else []
  }

  // They alternate, starting with "add".
  predicate Alternates(s: seq<bool>) {
    forall i :: 0 <= i < |s| ==> s[i] == (i % 2 == 0)
  }

  predicate LastIsAdd(s: seq<bool>) {
    s != [] && s[|s| - 1]
  }

  // "add" may follow exactly when the last one was not "add", and "remove" exactly when it was.
  lemma LastAlternates(s: seq<bool>)
    requires Alternates(s)
    ensures Alternates(s + [true]) <==> !LastIsAdd(s)
    ensures Alternates(s + [false]) <==> LastIsAdd(s)
  {
    assert s != [] ==> s[|s| - 1] == ((|s| - 1) % 2 == 0);
    assert (s + [true])[|s|] && !(s + [false])[|s|];
    assert forall i :: 0 <= i < |s| ==> (s + [true])[i] == s[i] && (s + [false])[i] == s[i];
  }

  lemma AboutSnoc(out: seq<Announcement>, a: Announcement, e: Endpoint)
    ensures About(out + [a], e) == About(out, e) + if a.endpoint == e then [a.added] else []
  {
  }

  // The list and the announcements agree about a valid endpoint.
  predicate Consistent(sinks: seq<Sink>, out: seq<Announcement>, e: Endpoint) {
    && Alternates(About(out, e))
    && CountOf(sinks, e) == (if LastIsAdd(About(out, e)) then 1 else 0)
  }

  // Adding an unlisted endpoint keeps all endpoints consistent.
  lemma AddKeeps(s: SendState, x: Endpoint, names: Option<Names>, e: Endpoint)
    requires e.address.valid && Consistent(s.sinks, s.out, e) && !IsListed(s.sinks, x)
    ensures Consistent(AddSink(s, x, names).sinks, AddSink(s, x, names).out, e)
  {
    CountSnoc(s.sinks, Sink(x, names), e);
    CountIff(s.sinks, x);
    AboutSnoc(s.out, Announcement(true, x), e);
    LastAlternates(About(s.out, e));
  }

  lemma RemoveKeeps(s: SendState, x: Endpoint, e: Endpoint)
    requires e.address.valid && Consistent(s.sinks, s.out, e) && IsListed(s.sinks, x)
    ensures Consistent(RemoveSink(s, x).sinks, RemoveSink(s, x).out, e)
  {
    CountWithout(s.sinks, x, e);
    CountIff(s.sinks, x);
    AboutSnoc(s.out, Announcement(false, x), e);
    LastAlternates(About(s.out, e));
  }

  lemma {:induction false} RemoveAllKeeps(sinks: seq<Sink>, out: seq<Announcement>, e: Endpoint)
    requires e.address.valid && Consistent(sinks, out, e)
    ensures Consistent([], AnnounceRemovals(out, sinks), e)
    decreases sinks
  {
    if sinks != [] {
      var x := sinks[0].endpoint;
      AboutSnoc(out, Announcement(false, x), e);
      LastAlternates(About(out, e));
      RemoveAllKeeps(sinks[1..], Announce(out, false, x), e);
    }
  }

  lemma NextKeeps(s: SendState, c: Command, e: Endpoint)
    requires e.address.valid && Consistent(s.sinks, s.out, e)
    ensures Consistent(Next(s, c).sinks, Next(s, c).out, e)
  {
    match c
    case Add(argv, found, names) =>
      var x := GetSinkArg(s, argv, found, false);
      if x.Some? && !IsListed(s.sinks, x.value) {
        AddKeeps(s, x.value, names, e);
      }
    case Remove(argv, found) =>
      if s.hasNode && argv == [] {
        RemoveAllKeeps(s.sinks, s.out, e);
      } else if GetSinkArg(s, argv, found, true).Some? {
        CheckedLookupIsListed(s, argv, found);
        RemoveKeeps(s, GetSinkArg(s, argv, found, true).value, e);
      }
    case SinkAdded(x, names) =>
      if x.address.valid && !IsListed(s.sinks, x) {
        AddKeeps(s, x, names, e);
      }
    case SinkRemoved(x) =>
      if x.address.valid && IsListed(s.sinks, x) {
        RemoveKeeps(s, x, e);
      }
    case SetNode(_) =>
  }

  /**
   Over every run and for every valid endpoint: its announcements alternate, starting with
   "add", and it is on the list, once, exactly when the last one was "add".
   */
  lemma {:induction false} AnnouncementsMatchList(commands: seq<Command>, e: Endpoint)
    requires e.address.valid
    ensures Alternates(About(Run(commands).out, e))
    ensures CountOf(Run(commands).sinks, e) == if LastIsAdd(About(Run(commands).out, e)) then 1 else 0
  {
    if commands != [] {
      AnnouncementsMatchList(commands[..|commands| - 1], e);
      NextKeeps(Run(commands[..|commands| - 1]), commands[|commands| - 1], e);
    }
  }

  lemma {:induction false} SilentRemovals(out: seq<Announcement>, sinks: seq<Sink>, e: Endpoint)
    requires !e.address.valid && About(out, e) == []
    ensures About(AnnounceRemovals(out, sinks), e) == []
    decreases sinks
  {
    if sinks != [] {
      AboutSnoc(out, Announcement(false, sinks[0].endpoint), e);
      SilentRemovals(Announce(out, false, sinks[0].endpoint), sinks[1..], e);
    }
  }

  predicate IsSilent(s: SendState, e: Endpoint) {
    About(s.out, e) == [] && CountOf(s.sinks, e) <= 1
  }

  lemma AddIsSilent(s: SendState, x: Endpoint, names: Option<Names>, e: Endpoint)
    requires !e.address.valid && IsSilent(s, e) && !IsListed(s.sinks, x)
    ensures IsSilent(AddSink(s, x, names), e)
  {
    CountSnoc(s.sinks, Sink(x, names), e);
    CountIff(s.sinks, x);
    AboutSnoc(s.out, Announcement(true, x), e);
  }

  lemma RemoveIsSilent(s: SendState, x: Endpoint, e: Endpoint)
    requires !e.address.valid && IsSilent(s, e)
    ensures IsSilent(RemoveSink(s, x), e)
  {
    if IsListed(s.sinks, x) {
      CountWithout(s.sinks, x, e);
      AboutSnoc(s.out, Announcement(false, x), e);
    }
  }

  lemma NextIsSilent(s: SendState, c: Command, e: Endpoint)
    requires !e.address.valid && IsSilent(s, e)
    ensures IsSilent(Next(s, c), e)
  {
    match c
    case Add(argv, found, names) =>
      var x := GetSinkArg(s, argv, found, false);
      if x.Some? && !IsListed(s.sinks, x.value) {
        AddIsSilent(s, x.value, names, e);
      }
    case Remove(argv, found) =>
      SilentRemovals(s.out, s.sinks, e);
      var x := GetSinkArg(s, argv, found, true);
      if x.Some? {
        RemoveIsSilent(s, x.value, e);
      }
    case SinkAdded(x, names) =>
      if !IsListed(s.sinks, x) {
        AddIsSilent(s, x, names, e);
      }
    case SinkRemoved(x) =>
      RemoveIsSilent(s, x, e);
    case SetNode(_) =>
  }

  // An endpoint that is not valid is never announced, and still listed at most once.
  lemma {:induction false} InvalidIsSilent(commands: seq<Command>, e: Endpoint)
    requires !e.address.valid
    ensures About(Run(commands).out, e) == [] && CountOf(Run(commands).sinks, e) <= 1
  {
    if commands != [] {
      InvalidIsSilent(commands[..|commands| - 1], e);
      NextIsSilent(Run(commands[..|commands| - 1]), commands[|commands| - 1], e);
    }
  }

  // ---------- The trace theorem ----------

  lemma {:induction false} WithoutMember(sinks: seq<Sink>, gone: Endpoint, x: Sink)
    requires x.endpoint != gone
    ensures x in Without(sinks, gone) <==> x in sinks
  {
    if sinks != [] {
      assert x in sinks <==> x == sinks[0] || x in sinks[1..];
      if sinks[0].endpoint != gone {
        WithoutMember(sinks[1..], gone, x);
      }
    }
  }

  lemma CountAtMostOne(commands: seq<Command>, e: Endpoint)
    ensures CountOf(Run(commands).sinks, e) <= 1
  {
    if e.address.valid {
      AnnouncementsMatchList(commands, e);
    } else {
      InvalidIsSilent(commands, e);
    }
  }

  // The list holds `r` for the endpoint and nothing else.
  ghost predicate SinkIs(sinks: seq<Sink>, e: Endpoint, r: Option<Sink>) {
    && (forall x: Sink :: x.endpoint == e ==> (x in sinks <==> r == Some(x)))
    && (r.Some? ==> r.value.endpoint == e)
  }

  lemma SinkIsListed(sinks: seq<Sink>, e: Endpoint, r: Option<Sink>)
    requires SinkIs(sinks, e, r)
    ensures IsListed(sinks, e) <==> r.Some?
  {
    if r.Some? {
      assert r.value in sinks;
    }
    if i :| 0 <= i < |sinks| && sinks[i].endpoint == e {
      assert sinks[i] in sinks;
    }
  }

  lemma AfterAdding(sinks: seq<Sink>, x: Sink, e: Endpoint, r: Option<Sink>)
    requires SinkIs(sinks, e, r) && !IsListed(sinks, x.endpoint)
    ensures SinkIs(sinks + [x], e, if x.endpoint == e then Some(x) else r)
  {
    SinkIsListed(sinks, e, r);
  }

  lemma AfterRemoving(sinks: seq<Sink>, gone: Endpoint, e: Endpoint, r: Option<Sink>)
    requires SinkIs(sinks, e, r) && IsListed(sinks, gone) && CountOf(sinks, gone) <= 1
    ensures SinkIs(Without(sinks, gone), e, if gone == e then None else r)
  {
    if gone == e {
      CountWithout(sinks, e, e);
      CountIff(Without(sinks, e), e);
      assert forall x :: x in Without(sinks, e) ==> IsListed(Without(sinks, e), x.endpoint);
    } else {
      forall x: Sink | x.endpoint == e ensures x in Without(sinks, gone) <==> x in sinks {
        WithoutMember(sinks, gone, x);
      }
    }
  }

  // One command changes what is listed for an endpoint as its mark says.
  lemma SinksAfter(s: SendState, c: Command, e: Endpoint, r: Option<Sink>)
    requires SinkIs(s.sinks, e, r) && forall x :: CountOf(s.sinks, x) <= 1
    ensures SinkIs(Next(s, c).sinks, e, After(r, SinkMark(s.sinks, s.hasNode, c, e)))
  {
    SinkIsListed(s.sinks, e, r);
    match c
    case Add(argv, found, names) =>
      var x := GetSinkArg(s, argv, found, false);
      if r.None? {
        UncheckedLookupIff(s, argv, found, e);
      }
      if x.Some? && !IsListed(s.sinks, x.value) {
        AfterAdding(s.sinks, Sink(x.value, names), e, r);
      }
    case Remove(argv, found) =>
      if !(s.hasNode && argv == []) {
        var x := GetSinkArg(s, argv, found, true);
        CheckedLookupIff(s, argv, found, e);
        if x.Some? {
          CheckedLookupIsListed(s, argv, found);
          AfterRemoving(s.sinks, x.value, e, r);
        }
      }
    case SinkAdded(x, names) =>
      if x.address.valid && !IsListed(s.sinks, x) {
        AfterAdding(s.sinks, Sink(x, names), e, r);
      }
    case SinkRemoved(x) =>
      if x.address.valid && IsListed(s.sinks, x) {
        AfterRemoving(s.sinks, x, e, r);
      }
    case SetNode(_) =>
  }

  lemma SinkMarksOfPrefix(commands: seq<Command>, n: nat, e: Endpoint)
    requires n <= |commands|
    ensures SinkMarks(commands, e)[..n] == SinkMarks(commands[..n], e)
  {
    forall i | 0 <= i < n ensures commands[..n][..i] == commands[..i] {
    }
  }

  lemma {:induction false} SinksFollowMarks(commands: seq<Command>, e: Endpoint)
    ensures SinkIs(Run(commands).sinks, e, Current(SinkMarks(commands, e)))
  {
    if commands != [] {
      var front, c := commands[..|commands| - 1], commands[|commands| - 1];
      SinksFollowMarks(front, e);
      NodeTrace(front);
      SinkMarksOfPrefix(commands, |commands| - 1, e);
      forall x ensures CountOf(Run(front).sinks, x) <= 1 {
        CountAtMostOne(front, x);
      }
      SinksAfter(Run(front), c, e, Current(SinkMarks(front, e)));
    }
  }

  /**
   The list, for every run: a sink is listed exactly when it is that of the first command to add
   its endpoint since the last one that removes it, and none follows.
   */
  lemma SinkTrace(commands: seq<Command>, x: Sink)
    ensures x in Run(commands).sinks <==> IsRecordedBy(SinkMarks(commands, x.endpoint), x)
    ensures IsListed(Run(commands).sinks, x.endpoint) <==> IsListedBy(SinkMarks(commands, x.endpoint))
    ensures CountOf(Run(commands).sinks, x.endpoint) <= 1
  {
    SinksFollowMarks(commands, x.endpoint);
    CurrentIff(SinkMarks(commands, x.endpoint), x);
    SinkIsListed(Run(commands).sinks, x.endpoint, Current(SinkMarks(commands, x.endpoint)));
    CountAtMostOne(commands, x.endpoint);
  }

  // So a command that asks for an endpoint lists it, one that stands for it unlists it, and every
  // other command leaves it as it was.
  lemma CommandDecides(commands: seq<Command>, c: Command, e: Endpoint)
    ensures var mark := SinkMark(Run(commands).sinks, NodeBy(commands), c, e);
            IsListed(Run(commands + [c]).sinks, e) <==>
              mark.Join? || (mark.Other? && IsListed(Run(commands).sinks, e))
  {
    var all := commands + [c];
    assert all[..|commands|] == commands;
    SinkMarksOfPrefix(all, |commands|, e);
    SinksFollowMarks(commands, e);
    SinksFollowMarks(all, e);
    SinkIsListed(Run(commands).sinks, e, Current(SinkMarks(commands, e)));
    SinkIsListed(Run(all).sinks, e, Current(SinkMarks(all, e)));
  }

  // ---------- Order ----------

  // All sinks that the commands name to be added, in order, listed already or not.
  function SinksNamed(commands: seq<Command>): seq<Sink> {
    if commands == [] then [] else
      SinksNamed(commands[..|commands| - 1]) +
      match commands[|commands| - 1]
      case Add(argv, found, names) =>
        if |argv| >= 3 && found.Some? then [Sink(Endpoint(found.value, Trunc(GetFloat(argv[2]))), names)] else []
      case Remove(_, _) => []
      case SinkAdded(e, names) => [Sink(e, names)]
      case SinkRemoved(_) => []
      case SetNode(_) => []
  }

  lemma {:induction false} WithoutInOrder(sinks: seq<Sink>, e: Endpoint)
    ensures IsSubsequence(Without(sinks, e), sinks)
  {
    if sinks == [] {
      NoneIsSubsequence(sinks);
    } else if sinks[0].endpoint == e {
      SubsequenceOfSelf(sinks[1..]);
      SubsequenceOfTail(sinks[1..], sinks);
    } else {
      WithoutInOrder(sinks[1..], e);
      SubsequenceOfTail(Without(sinks[1..], e), sinks);
    }
  }

  // What an addition appends is what the command names, as a sink found by name is listed.
  lemma AddedIsNamed(s: SendState, argv: seq<Atom>, found: Option<Address>)
    requires var e := GetSinkArg(s, argv, found, false); e.Some? && !IsListed(s.sinks, e.value)
    ensures |argv| >= 3 && found.Some?
    ensures GetSinkArg(s, argv, found, false) == Some(Endpoint(found.value, Trunc(GetFloat(argv[2]))))
  {
    if argv[1].Sym? {
      var names, id := Names(GetSym(argv[0]), GetSym(argv[1])), Trunc(GetFloat(argv[2]));
      if FindByNames(s.sinks, names, id).Some? {
        FoundByNamesIsListed(s.sinks, names, id);
      }
    }
  }

  /** The list is in the order in which its sinks were added, for every run. */
  lemma {:induction false} SinksAreInOrder(commands: seq<Command>)
    ensures IsSubsequence(Run(commands).sinks, SinksNamed(commands))
  {
    NoneIsSubsequence(SinksNamed(commands));
    if commands != [] {
      var front := commands[..|commands| - 1];
      var s, named := Run(front), SinksNamed(front);
      SinksAreInOrder(front);
      assert named + [] == named;
      match commands[|commands| - 1]
      case Add(argv, found, names) =>
        var e := GetSinkArg(s, argv, found, false);
        if e.Some? && !IsListed(s.sinks, e.value) {
          AddedIsNamed(s, argv, found);
          SubsequenceSnoc(s.sinks, named, Sink(e.value, names));
        } else if |argv| >= 3 && found.Some? {
          SubsequenceSnoc(s.sinks, named, Sink(Endpoint(found.value, Trunc(GetFloat(argv[2]))), names));
        }
      case Remove(argv, found) =>
        var e := GetSinkArg(s, argv, found, true);
        if e.Some? {
          WithoutInOrder(s.sinks, e.value);
          SubsequenceTransitive(Without(s.sinks, e.value), s.sinks, named);
        }
      case SinkAdded(e, names) =>
        SubsequenceSnoc(s.sinks, named, Sink(e, names));
      case SinkRemoved(e) =>
        WithoutInOrder(s.sinks, e);
        SubsequenceTransitive(Without(s.sinks, e), s.sinks, named);
      case SetNode(_) =>
    }
  }

  // ---------- Announcements of one command ----------

  // Clearing the list announces every valid endpoint on it, once, in list order.
  lemma {:induction false} RemovalsInOrder(out: seq<Announcement>, sinks: seq<Sink>)
    requires AllValid(sinks)
    ensures AnnounceRemovals(out, sinks) ==
            out + seq(|sinks|, i requires 0 <= i < |sinks| => Announcement(false, sinks[i].endpoint))
    decreases sinks
  {
    if sinks != [] {
      RemovalsInOrder(Announce(out, false, sinks[0].endpoint), sinks[1..]);
    }
  }

  lemma {:induction false} AboutRemovals(out: seq<Announcement>, sinks: seq<Sink>, e: Endpoint)
    requires e.address.valid && CountOf(sinks, e) <= 1
    ensures About(AnnounceRemovals(out, sinks), e) == About(out, e) + if CountOf(sinks, e) == 1 then [false] else []
    decreases sinks
  {
    if sinks != [] {
      var x := sinks[0].endpoint;
      AboutSnoc(out, Announcement(false, x), e);
      AboutRemovals(Announce(out, false, x), sinks[1..], e);
    }
  }

  // The announcements that an endpoint gets when its place on the list changes as given.
  function ForChange(before: bool, after: bool): seq<bool> {
    if before == after then [] else [after]
  }

  lemma AddAnnounces(s: SendState, x: Endpoint, names: Option<Names>, e: Endpoint)
    requires e.address.valid && !IsListed(s.sinks, x)
    ensures About(AddSink(s, x, names).out, e) ==
            About(s.out, e) + ForChange(IsListed(s.sinks, e), IsListed(AddSink(s, x, names).sinks, e))
  {
    AboutSnoc(s.out, Announcement(true, x), e);
    CountSnoc(s.sinks, Sink(x, names), e);
    CountIff(s.sinks, e);
    CountIff(s.sinks + [Sink(x, names)], e);
  }

  lemma RemoveAnnounces(s: SendState, x: Endpoint, e: Endpoint)
    requires e.address.valid && IsListed(s.sinks, x) && CountOf(s.sinks, e) <= 1
    ensures About(RemoveSink(s, x).out, e) ==
            About(s.out, e) + ForChange(IsListed(s.sinks, e), IsListed(RemoveSink(s, x).sinks, e))
  {
    AboutSnoc(s.out, Announcement(false, x), e);
    CountWithout(s.sinks, x, e);
    CountIff(s.sinks, e);
    CountIff(Without(s.sinks, x), e);
  }

  lemma NextAnnounces(s: SendState, c: Command, e: Endpoint)
    requires e.address.valid && CountOf(s.sinks, e) <= 1
    ensures About(Next(s, c).out, e) ==
            About(s.out, e) + ForChange(IsListed(s.sinks, e), IsListed(Next(s, c).sinks, e))
  {
    match c
    case Add(argv, found, names) =>
      var x := GetSinkArg(s, argv, found, false);
      if x.Some? && !IsListed(s.sinks, x.value) {
        AddAnnounces(s, x.value, names, e);
      }
    case Remove(argv, found) =>
      if s.hasNode && argv == [] {
        AboutRemovals(s.out, s.sinks, e);
        CountIff(s.sinks, e);
      } else if GetSinkArg(s, argv, found, true).Some? {
        CheckedLookupIsListed(s, argv, found);
        RemoveAnnounces(s, GetSinkArg(s, argv, found, true).value, e);
      }
    case SinkAdded(x, names) =>
      if x.address.valid && !IsListed(s.sinks, x) {
        AddAnnounces(s, x, names, e);
      }
    case SinkRemoved(x) =>
      if x.address.valid && IsListed(s.sinks, x) {
        RemoveAnnounces(s, x, e);
      }
    case SetNode(_) =>
  }

  /**
   In every run, a command announces a valid endpoint exactly if it lists or unlists it, and then
   once.
   */
  lemma ChangesAreAnnounced(commands: seq<Command>, c: Command, e: Endpoint)
    requires e.address.valid
    ensures var before, after := Run(commands), Run(commands + [c]);
            About(after.out, e) ==
            About(before.out, e) +
            if IsListed(before.sinks, e) == IsListed(after.sinks, e) then [] else [IsListed(after.sinks, e)]
  {
    assert (commands + [c])[..|commands|] == commands;
    CountAtMostOne(commands, e);
    NextAnnounces(Run(commands), c, e);
  }

  // The user adds a sink that is not listed yet, and its address is not valid.
  predicate AddsInvalid(s: SendState, c: Command) {
    c.Add? && var e := GetSinkArg(s, c.argv, c.found, false);
              e.Some? && !IsListed(s.sinks, e.value) && !e.value.address.valid
  }

  ghost predicate AllConsistent(s: SendState) {
    forall e :: Consistent(s.sinks, s.out, e)
  }

  predicate AllValid(sinks: seq<Sink>) {
    forall i :: 0 <= i < |sinks| ==> sinks[i].endpoint.address.valid
  }

  lemma {:induction false} WithoutIsValid(sinks: seq<Sink>, e: Endpoint)
    requires AllValid(sinks)
    ensures AllValid(Without(sinks, e))
  {
    if sinks != [] && sinks[0].endpoint != e {
      WithoutIsValid(sinks[1..], e);
    }
  }

  lemma NextIsValidIff(s: SendState, c: Command)
    requires AllValid(s.sinks)
    ensures AllValid(Next(s, c).sinks) <==> !AddsInvalid(s, c)
  {
    match c
    case Add(argv, found, names) =>
      var x := GetSinkArg(s, argv, found, false);
      if x.Some? && !IsListed(s.sinks, x.value) {
        assert Next(s, c).sinks[|s.sinks|].endpoint == x.value;
      }
    case Remove(argv, found) =>
      var x := GetSinkArg(s, argv, found, true);
      if x.Some? {
        WithoutIsValid(s.sinks, x.value);
      }
    case SinkAdded(x, names) =>
    case SinkRemoved(x) =>
      WithoutIsValid(s.sinks, x);
    case SetNode(_) =>
  }

  // In a reachable state, the list agrees with the announcements on all endpoints exactly if it
  // holds no invalid one.
  lemma ConsistentIffValid(commands: seq<Command>)
    ensures AllConsistent(Run(commands)) <==> AllValid(Run(commands).sinks)
  {
    var s := Run(commands);
    forall e ensures Consistent(s.sinks, s.out, e) <==> e.address.valid || !IsListed(s.sinks, e) {
      CountIff(s.sinks, e);
      if e.address.valid {
        AnnouncementsMatchList(commands, e);
      } else {
        InvalidIsSilent(commands, e);
      }
    }
    forall i | 0 <= i < |s.sinks| ensures IsListed(s.sinks, s.sinks[i].endpoint) {
    }
  }

  ghost predicate AlwaysConsistent(commands: seq<Command>) {
    forall n :: 0 <= n <= |commands| ==> AllConsistent(Run(commands[..n]))
  }

  ghost predicate AddsInvalidAt(commands: seq<Command>, i: nat)
    requires i < |commands|
  {
    AddsInvalid(Run(commands[..i]), commands[i])
  }

  ghost predicate NeverAddsInvalid(commands: seq<Command>) {
    forall i :: 0 <= i < |commands| ==> !AddsInvalidAt(commands, i)
  }

  lemma SamePrefix(commands: seq<Command>, n: nat)
    requires n < |commands|
    ensures commands[..|commands| - 1][..n] == commands[..n]
  {
  }

  lemma PrefixIsConsistent(commands: seq<Command>)
    requires commands != []
    ensures AlwaysConsistent(commands) <==> AlwaysConsistent(commands[..|commands| - 1]) && AllConsistent(Run(commands))
  {
    var front := commands[..|commands| - 1];
    assert commands[..|commands|] == commands;
    forall n | 0 <= n < |commands| ensures AllConsistent(Run(front[..n])) <==> AllConsistent(Run(commands[..n])) {
      SamePrefix(commands, n);
    }
  }

  lemma PrefixNeverAdds(commands: seq<Command>)
    requires commands != []
    ensures var front, c := commands[..|commands| - 1], commands[|commands| - 1];
            NeverAddsInvalid(commands) <==> NeverAddsInvalid(front) && !AddsInvalid(Run(front), c)
  {
    var front := commands[..|commands| - 1];
    forall i | 0 <= i < |front| ensures AddsInvalidAt(front, i) <==> AddsInvalidAt(commands, i) {
      SamePrefix(commands, i);
    }
    assert AddsInvalidAt(commands, |front|) <==> AddsInvalid(Run(front), commands[|front|]);
  }

  /**
   The list and the announcements agree on all endpoints, all through a run, if and only if the
   user never adds, while there is a node, an unlisted sink whose address is not valid.
   */
  lemma {:induction false} AgreementIff(commands: seq<Command>)
    ensures AlwaysConsistent(commands) <==> NeverAddsInvalid(commands)
  {
    if commands == [] {
      ConsistentIffValid([]);
      assert commands[..0] == [];
    } else {
      var front := commands[..|commands| - 1];
      AgreementIff(front);
      PrefixIsConsistent(commands);
      PrefixNeverAdds(commands);
      if AlwaysConsistent(front) {
        assert front[..|front|] == front;
        ConsistentIffValid(front);
        ConsistentIffValid(commands);
        NextIsValidIff(Run(front), commands[|commands| - 1]);
      }
    }
  }

  // Such a sink is listed without ever being announced.
  lemma InvalidSinkIsListed() returns (commands: seq<Command>, e: Endpoint)
    ensures IsListed(Run(commands).sinks, e) && Run(commands).out == []
    ensures !Consistent(Run(commands).sinks, Run(commands).out, e)
  {
    var nowhere := Address("", 0, false);
    e := Endpoint(nowhere, 7);
    commands := [SetNode(true), Add([Sym("host"), Float(9999.0), Float(7.0)], Some(nowhere), None)];
    assert commands[..1][..0] == [];
    assert Run(commands[..1]) == EMPTY_LIST.(hasNode := true);
    assert Run(commands).sinks == [Sink(e, None)];
    assert Run(commands).sinks[0].endpoint == e;
    CountIff(Run(commands).sinks, e);
  }

  // ---------- Code ----------

  lemma {:induction false} EraseFirst(sinks: seq<Sink>, e: Endpoint, i: nat)
    requires i < |sinks| && sinks[i].endpoint == e
    requires forall j :: 0 <= j < i ==> sinks[j].endpoint != e
    ensures Without(sinks, e) == sinks[..i] + sinks[i + 1..]
  {
    if i > 0 {
      EraseFirst(sinks[1..], e, i - 1);
    }
  }

  lemma {:induction false} FindFirst(sinks: seq<Sink>, names: Names, id: int, i: nat)
    requires i <= |sinks|
    requires forall j :: 0 <= j < i ==> !(sinks[j].names == Some(names) && sinks[j].endpoint.id == id)
    requires i < |sinks| ==> sinks[i].names == Some(names) && sinks[i].endpoint.id == id
    ensures FindByNames(sinks, names, id) == if i < |sinks| then Some(sinks[i]) else None
  {
    if i > 0 {
      FindFirst(sinks[1..], names, id, i - 1);
    }
  }

  class AooSend {
    var sinks: seq<Sink>
    var hasNode: bool
    ghost var out: seq<Announcement>
    ghost var faults: nat

    ghost function State(): SendState
      reads this
    {
      SendState(sinks, out, hasNode, faults)
    }

    constructor ()
      ensures State() == EMPTY_LIST
    {
      sinks, hasNode, out, faults := [], false, [], 0;
    }

    method FindSink(e: Endpoint) returns (found: bool)
      ensures found <==> IsListed(sinks, e)
    {
      for i := 0 to |sinks|
        invariant forall j :: 0 <= j < i ==> sinks[j].endpoint != e
      {
        if sinks[i].endpoint.address == e.address && sinks[i].endpoint.id == e.id {
          return true;
        }
      }
      return false;
    }

    method Append(e: Endpoint, names: Option<Names>)
      modifies this`sinks, this`out
      ensures State() == AddSink(old(State()), e, names)
    {
      sinks := sinks + [Sink(e, names)];
      out := Announce(out, true, e);
    }

    method Erase(e: Endpoint)
      modifies this`sinks, this`out, this`faults
      ensures State() == RemoveSink(old(State()), e)
    {
      for i := 0 to |sinks|
        invariant State() == old(State())
        invariant forall j :: 0 <= j < i ==> sinks[j].endpoint != e
      {
        if sinks[i].endpoint.address == e.address && sinks[i].endpoint.id == e.id {
          EraseFirst(sinks, e, i);
          sinks := sinks[..i] + sinks[i + 1..];
          out := Announce(out, false, e);
          return;
        }
      }
      faults := faults + 1;
    }

    method EraseAll()
      modifies this`sinks, this`out
      ensures State() == RemoveAll(old(State()))
    {
      var copies := sinks;
      sinks := [];
      assert copies[0..] == copies;
      for i := 0 to |copies|
        invariant sinks == []
        invariant AnnounceRemovals(old(out), copies) == AnnounceRemovals(out, copies[i..])
      {
        assert copies[i..][0] == copies[i] && copies[i..][1..] == copies[i + 1..];
        out := Announce(out, false, copies[i].endpoint);
      }
    }

    method SinkArg(argv: seq<Atom>, found: Option<Address>, check: bool) returns (r: Option<Endpoint>)
      ensures r == GetSinkArg(State(), argv, found, check)
    {
      if !hasNode || |argv| < 3 {
        return None;
      }
      var id := Trunc(GetFloat(argv[2]));
      if argv[1].Sym? {
        ghost var names := Names(GetSym(argv[0]), GetSym(argv[1]));
        for i := 0 to |sinks|
          invariant forall j :: 0 <= j < i ==> !(sinks[j].names == Some(names) && sinks[j].endpoint.id == id)
        {
          if sinks[i].names == Some(Names(GetSym(argv[0]), GetSym(argv[1]))) && sinks[i].endpoint.id == id {
            FindFirst(sinks, names, id, i);
            return Some(Endpoint(sinks[i].endpoint.address, id));
          }
        }
        FindFirst(sinks, names, id, |sinks|);
        if !check && found.Some? {
          return Some(Endpoint(found.value, id));
        }
        return None;
      }
      if found.None? {
        return None;
      }
      if check {
        var listed := FindSink(Endpoint(found.value, id));
        if !listed {
          return None;
        }
      }
      return Some(Endpoint(found.value, id));
    }

    // One message of the user or one event. Events are only delivered while there is a node.
    method Handle(c: Command)
      requires c.SinkAdded? || c.SinkRemoved? ==> hasNode
      modifies this
      ensures State() == Next(old(State()), c)
    {
      match c
      case Add(argv, found, names) =>
        var e := SinkArg(argv, found, false);
        if e.Some? {
          var listed := FindSink(e.value);
          if !listed {
            Append(e.value, names);
          }
        }
      case Remove(argv, found) =>
        if hasNode {
          if argv == [] {
            EraseAll();
          } else {
            var e := SinkArg(argv, found, true);
            if e.Some? {
              Erase(e.value);
            }
          }
        }
      case SinkAdded(e, names) =>
        if e.address.valid {
          var listed := FindSink(e);
          if !listed {
            Append(e, names);
          }
        }
      case SinkRemoved(e) =>
        if e.address.valid {
          var listed := FindSink(e);
          if listed {
            Erase(e);
          }
        }
      case SetNode(b) =>
        hasNode := b;
    }
  }
}
