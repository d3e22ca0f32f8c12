/**
 The callers of the data codec: each computes how many atoms or bytes it needs, and the result
 fills its buffer exactly.
 */
module MessageAtoms {
  import opened Atoms
  import opened DataCodec

  // <offset> <group> <user> <type> <data...>
  method PeerMessageAtoms(fc: FloatBits, delay: real, group: string, user: string, t: DataType, data: seq<Byte>)
    returns (vec: array<Atom>)
    requires data != []
    ensures fresh(vec)
    ensures vec[..] == [Float(delay), Sym(group), Sym(user)] + AtomsOf(fc, t, data)
  {
    var size := 4 + |data| / ElementSize(t);
    AtomsOfLength(fc, t, data);
    vec := new Atom[size];
    vec[0], vec[1], vec[2] := Float(delay), Sym(group), Sym(user);
    var n := DataToAtoms(fc, t, data, size - 3, vec, 3);
    assert vec[..] == vec[..3] + vec[3..3 + n];
  }

  // <channel> <type> <data...>
  method StreamMessageToAtoms(fc: FloatBits, channel: int, t: DataType, data: seq<Byte>,
                              argc: nat, argv: array<Atom>, off: nat)
    returns (n: nat)
    requires argc > 2 && data != [] && off + argc <= argv.Length
    modifies argv
    ensures n == if |AtomsOf(fc, t, data)| > argc - 1 then 1 else 1 + |AtomsOf(fc, t, data)|
    ensures n > 1 ==> argv[off..off + n] == [Float(channel as real)] + AtomsOf(fc, t, data)
    ensures forall k :: 0 <= k < argv.Length && !(off <= k < off + n) ==> argv[k] == old(argv[k])
  {
    argv[off] := Float(channel as real);
    n := DataToAtoms(fc, t, data, argc - 1, argv, off + 1);
    n := n + 1;
    assert argv[off..off + n] == [argv[off]] + argv[off + 1..off + n];
  }

  lemma Joined<X>(s: seq<X>, front: seq<X>, x: X, back: seq<X>)
    requires |front| <= |s| && s[..|front|] == front && s[|front|..] == [x] + back
    ensures s == front + [x] + back
  {
    assert s == s[..|front|] + s[|front|..];
  }

  // <host> <port> <id> <channel> <type> <data...>
  method StreamMessageAtoms(fc: FloatBits, endpoint: seq<Atom>, channel: int, t: DataType, data: seq<Byte>)
    returns (vec: array<Atom>)
    requires |endpoint| == 3 && |data| >= ElementSize(t)
    ensures fresh(vec)
    ensures vec[..] == endpoint + [Float(channel as real)] + AtomsOf(fc, t, data)
  {
    var size := 5 + |data| / ElementSize(t);
    AtomsOfLength(fc, t, data);
    StreamAssertionIff(t, |data|);
    vec := new Atom[size];
    vec[0], vec[1], vec[2] := endpoint[0], endpoint[1], endpoint[2];
    var n := StreamMessageToAtoms(fc, channel, t, data, size - 3, vec, 3);
    assert 3 + n == size && vec[..3] == endpoint;
    assert vec[3..] == vec[3..3 + n];
    Joined(vec[..], endpoint, Float(channel as real), AtomsOf(fc, t, data));
  }

  // The assertion in stream_message_to_atoms holds exactly for payloads of a whole element.
  lemma StreamAssertionIff(t: DataType, size: nat)
    ensures (5 + size / ElementSize(t)) - 3 > 2 <==> size >= ElementSize(t)
  {
  }

  // <host> <port> <id> <type> <data...>, for the "start" and "invite" events
  method MetadataAtoms(fc: FloatBits, endpoint: seq<Atom>, t: DataType, data: seq<Byte>)
    returns (vec: array<Atom>)
    requires |endpoint| == 3 && data != []
    ensures fresh(vec)
    ensures vec[..] == endpoint + AtomsOf(fc, t, data)
  {
    var count := 4 + |data| / ElementSize(t);
    AtomsOfLength(fc, t, data);
    vec := new Atom[count];
    vec[0], vec[1], vec[2] := endpoint[0], endpoint[1], endpoint[2];
    var n := DataToAtoms(fc, t, data, count - 3, vec, 3);
    assert vec[..] == vec[..3] + vec[3..3 + n];
  }

  // The buffer for outgoing data: an outgoing peer message or stream metadata.
  method OutgoingBytes(fc: FloatBits, t: DataType, argv: seq<Atom>) returns (data: array<Byte>)
    requires fc.Valid() && AllDefined(t, Numbers(argv))
    ensures fresh(data)
    ensures data[..] == EncodeAll(fc, t, Numbers(argv))
  {
    var size := |argv| * ElementSize(t);
    data := new Byte[size];
    var n := AtomsToData(fc, t, argv, data, size);
    assert data[..] == data[..n];
  }

  // The atom as a number: a symbol counts as 0.
  function AsFloat(a: Atom): Atom {
    match a
    case Long(n) => Float(n as real)
    case Float(_) => a
    case Sym(_) => Float(0.0)
  }

  // What an integer codec keeps: symbols, and integers that a double can hold.
  predicate IsKept(a: Atom) {
    match a
    case Long(n) => IsDouble(n)
    case Float(f) => f.Floor as real == f && IsDouble(f.Floor)
    case Sym(_) => true
  }

  lemma KeptIff(t: DataType, a: Atom)
    ensures Survives(t, GetFloat(a)) <==> IsKept(a)
    ensures AsFloat(a) == Float(GetFloat(a))
  {
    if a.Sym? {
      DoubleIff(0);
    }
  }

  /**
   A message that is sent as atoms of one of the integer types arrives as the same numbers,
   after the type, "f" or the name of a byte type, if and only if doubles can hold them.
   */
  lemma MessageRoundTripIff(fc: FloatBits, t: DataType, argv: seq<Atom>)
    requires !IsFloat(t) && AllDefined(t, Numbers(argv))
    ensures AtomsOf(fc, t, EncodeAll(fc, t, Numbers(argv))) ==
            [Sym(if t.Bytes? then t.name else "f")] + seq(|argv|, i requires 0 <= i < |argv| => AsFloat(argv[i]))
       <==> forall i :: 0 <= i < |argv| ==> IsKept(argv[i])
  {
    var sent := Numbers(argv);
    DecodeEncode(fc, t, sent);
    SameAtomsIff(TypeSymbol(t), DecodeAll(fc, t, EncodeAll(fc, t, sent)), sent);
    forall i | 0 <= i < |argv|
      ensures Survives(t, sent[i]) <==> IsKept(argv[i])
      ensures AsFloat(argv[i]) == Floats(sent)[i]
    {
      KeptIff(t, argv[i]);
    }
    assert seq(|argv|, i requires 0 <= i < |argv| => AsFloat(argv[i])) == Floats(sent);
  }

  lemma SameAtomsIff(s: string, xs: seq<real>, ys: seq<real>)
    ensures [Sym(s)] + Floats(xs) == [Sym(s)] + Floats(ys) <==> xs == ys
  {
    if [Sym(s)] + Floats(xs) == [Sym(s)] + Floats(ys) {
      assert |xs| == |ys|;
      forall i | 0 <= i < |xs| ensures xs[i] == ys[i] {
        assert ([Sym(s)] + Floats(xs))[i + 1] == Float(xs[i]) && ([Sym(s)] + Floats(ys))[i + 1] == Float(ys[i]);
      }
    }
  }
}
