/**
 The codec between atoms and typed byte buffers.

 Integers are big-endian two's complement; which byte order the original uses does not matter
 here, as both directions use the same one. The bit patterns of floats stay abstract: they are
 a parameter, a pair of functions of the element size. Converting a 64-bit integer to a double
 rounds to the nearest multiple of the spacing of doubles.
 */
module DataCodec {
  import opened Atoms

  type Byte = x: int | 0 <= x < 256

  datatype DataType = Float32 | Float64 | Int16 | Int32 | Int64 | Bytes(name: string)

  datatype FloatBits = FloatBits(write: (nat, real) -> seq<Byte>, read: seq<Byte> -> real)
  {
    ghost predicate Valid() {
      forall n, f :: |write(n, f)| == n
    }
  }

  function ElementSize(t: DataType): nat {
    match t
    case Float32 => 4
    case Float64 => 8
    case Int16 => 2
    case Int32 => 4
    case Int64 => 8
    case Bytes(_) => 1
  }

  predicate IsFloat(t: DataType) {
    t.Float32? || t.Float64?
  }

  // ---------- Integers ----------

  function Pow256(n: nat): nat {
    if n == 0 then 1 else 256 * Pow256(n - 1)
  }

  // How many values an element of the type has.
  function Modulus(t: DataType): nat {
    match t
    case Float32 => 0x1_0000_0000
    case Float64 => 0x1_0000_0000_0000_0000
    case Int16 => 0x1_0000
    case Int32 => 0x1_0000_0000
    case Int64 => 0x1_0000_0000_0000_0000
    case Bytes(_) => 0x100
  }

  lemma ModulusIsPower(t: DataType)
    ensures Modulus(t) == Pow256(ElementSize(t))
  {
    assert Pow256(4) == 256 * (256 * Pow256(2));
    assert Pow256(8) == 256 * (256 * (256 * (256 * Pow256(4))));
  }

  function BytesOf(n: nat, u: nat): (s: seq<Byte>)
    ensures |s| == n
  {
    if n == 0 then [] else BytesOf(n - 1, u / 256) + [u % 256]
  }

  function Unsigned(s: seq<Byte>): nat {
    if s == [] then 0 else 256 * Unsigned(s[..|s| - 1]) + s[|s| - 1]
  }

  lemma {:induction false} UnsignedOfBytes(n: nat, u: nat)
    requires u < Pow256(n)
    ensures Unsigned(BytesOf(n, u)) == u
  {
    if n > 0 {
      UnsignedOfBytes(n - 1, u / 256);
      assert BytesOf(n, u)[..n - 1] == BytesOf(n - 1, u / 256);
    }
  }

  lemma {:induction false} BytesOfUnsigned(s: seq<Byte>)
    ensures Unsigned(s) < Pow256(|s|)
    ensures BytesOf(|s|, Unsigned(s)) == s
  {
    if s != [] {
      BytesOfUnsigned(s[..|s| - 1]);
      var u := Unsigned(s[..|s| - 1]);
      assert (256 * u + s[|s| - 1]) / 256 == u && (256 * u + s[|s| - 1]) % 256 == s[|s| - 1];
      assert s == s[..|s| - 1] + [s[|s| - 1]];
    }
  }

  // The integers that an element of the type can hold: bytes are unsigned, the rest signed.
  predicate InRange(t: DataType, i: int) {
    if t.Bytes? then 0 <= i < 256 else 0 - Modulus(t) <= 2 * i < Modulus(t)
  }

  function EncodeInt(t: DataType, i: int): (s: seq<Byte>)
    requires InRange(t, i)
    ensures |s| == ElementSize(t)
  {
    BytesOf(ElementSize(t), if i < 0 then i + Modulus(t) else i)
  }

  function DecodeInt(t: DataType, s: seq<Byte>): int
    requires |s| == ElementSize(t)
  {
    var u := Unsigned(s);
    if !t.Bytes? && 2 * u >= Modulus(t) then u - Modulus(t) else u
  }

  lemma DecodeEncodeInt(t: DataType, i: int)
    requires InRange(t, i)
    ensures DecodeInt(t, EncodeInt(t, i)) == i
  {
    var n := ElementSize(t);
    ModulusIsPower(t);
    UnsignedOfBytes(n, if i < 0 then i + Modulus(t) else i);
  }

  lemma EncodeDecodeInt(t: DataType, s: seq<Byte>)
    requires |s| == ElementSize(t)
    ensures InRange(t, DecodeInt(t, s)) && EncodeInt(t, DecodeInt(t, s)) == s
  {
    ModulusIsPower(t);
    BytesOfUnsigned(s);
  }

  // The bytes stand for the integer in two's complement.
  lemma TwosComplement(t: DataType, i: int)
    requires InRange(t, i)
    ensures Unsigned(EncodeInt(t, i)) == if i < 0 then Modulus(t) + i else i
  {
    ModulusIsPower(t);
    UnsignedOfBytes(ElementSize(t), if i < 0 then i + Modulus(t) else i);
  }

  lemma Distribute(b: nat, p: nat, u: nat, last: nat)
    ensures 256 * (b * p + u) + last == b * (256 * p) + (256 * u + last)
  {
    assert b * (256 * p) == 256 * (b * p);
  }

  // The first byte is the most significant one.
  lemma {:induction false} FirstByteIsHighest(b: Byte, s: seq<Byte>)
    ensures Unsigned([b] + s) == b * Pow256(|s|) + Unsigned(s)
  {
    if s == [] {
      assert [b] + s == [b] && [b][..0] == [];
    } else {
      var front, last := s[..|s| - 1], s[|s| - 1];
      FirstByteIsHighest(b, front);
      assert ([b] + s)[..|s|] == [b] + front && ([b] + s)[|s|] == last;
      Distribute(b, Pow256(|front|), Unsigned(front), last);
    }
  }

  // ---------- Integers as doubles ----------

  const TWO_53: nat := 0x20_0000_0000_0000

  function Magnitude(i: int): nat {
    if i < 0 then -i else i
  }

  // The distance between neighbouring doubles around a number of magnitude `a`.
  function Spacing(a: nat): (u: nat)
    ensures u >= 1
  {
    if a <= TWO_53 then 1 else 2 * Spacing((a + 1) / 2)
  }

  // The nearest multiple of the spacing, ties to the even one.
  function Rounded(a: nat, u: nat): nat
    requires u > 0
  {
    var q, r := a / u, a % u;
    if 2 * r > u || (2 * r == u && q % 2 == 1) then q * u + u else q * u
  }

  // The nearest double.
  function DoubleOf(i: int): int {
    var a := Magnitude(i);
    if i < 0 then 0 - Rounded(a, Spacing(a)) else Rounded(a, Spacing(a))
  }

  predicate IsDouble(i: int) {
    Magnitude(i) % Spacing(Magnitude(i)) == 0
  }

  // One of the two multiples around a number is taken, and it is not the farther one.
  lemma RoundedBetween(a: nat, u: nat) returns (q: nat, r: nat)
    requires u > 0
    ensures q == a / u && r == a % u && a == q * u + r && r < u
    ensures Rounded(a, u) == q * u || Rounded(a, u) == q * u + u
    ensures r == 0 <==> Rounded(a, u) == a
    ensures Rounded(a, u) == q * u ==> 2 * r <= u
    ensures Rounded(a, u) == q * u + u ==> 2 * r >= u
  {
    q, r := a / u, a % u;
  }

  lemma DoubleIff(i: int)
    ensures DoubleOf(i) == i <==> IsDouble(i)
    ensures Magnitude(i) <= TWO_53 ==> IsDouble(i)
  {
    var q, r := RoundedBetween(Magnitude(i), Spacing(Magnitude(i)));
  }

  function Pow2(n: nat): nat {
    if n == 0 then 1 else 2 * Pow2(n - 1)
  }

  lemma {:induction false} SpacingIsPower(a: nat) returns (k: nat)
    ensures Spacing(a) == Pow2(k)
  {
    k := 0;
    if a > TWO_53 {
      k := SpacingIsPower((a + 1) / 2);
      k := k + 1;
    }
  }

  // The numbers of a given spacing lie between two powers of two.
  predicate HasSpacing(a: nat, u: nat) {
    a <= TWO_53 * u && (u > 1 ==> u % 2 == 0 && TWO_53 * (u / 2) < a)
  }

  lemma {:induction false} SpacingRange(a: nat)
    ensures HasSpacing(a, Spacing(a))
  {
    if a > TWO_53 {
      SpacingRange((a + 1) / 2);
    }
  }

  lemma Halve(t: nat, b: nat, v: nat)
    requires v > 0 && t * v < b <= t * (2 * v) && (v > 1 ==> v % 2 == 0)
    ensures (b + 1) / 2 <= t * v && t < b
    ensures v > 1 ==> t * (v / 2) < (b + 1) / 2
  {
    assert t * (2 * v) == 2 * (t * v);
    assert t * v >= t;
    if v > 1 {
      assert t * v == 2 * (t * (v / 2));
    }
  }

  lemma {:induction false} SpacingUnique(a: nat, b: nat)
    requires HasSpacing(b, Spacing(a))
    ensures Spacing(b) == Spacing(a)
  {
    if a > TWO_53 {
      var v := Spacing((a + 1) / 2);
      SpacingRange((a + 1) / 2);
      Halve(TWO_53, b, v);
      SpacingUnique((a + 1) / 2, (b + 1) / 2);
    }
  }

  lemma Grows(p: nat, q: nat, u: nat)
    requires p < q
    ensures p * u + u <= q * u
  {
    assert (p + 1) * u <= q * u;
  }

  // Division with remainder is unique.
  lemma DivideUnique(p: nat, u: nat, q: nat, r: nat)
    requires p * u == q * u + r && r < u
    ensures r == 0 && p == q
  {
    if p < q {
      Grows(p, q, u);
    } else if p > q {
      Grows(q, p, u);
    }
  }

  lemma MultipleOf(q: nat, u: nat, a: nat)
    requires u > 0 && a == q * u
    ensures a % u == 0 && a / u == q
  {
    DivideUnique(q, u, a / u, a % u);
  }

  lemma TwiceIsMultiple(half: nat, u: nat)
    requires u > 0 && half % u == 0
    ensures 2 * half % (2 * u) == 0
  {
    var q := half / u;
    assert 2 * half == q * (2 * u);
    MultipleOf(q, 2 * u, 2 * half);
  }

  // A significand of 53 bits times a power of two.
  predicate IsScaled(a: nat, m: nat, e: nat) {
    m <= TWO_53 && a == m * Pow2(e)
  }

  lemma {:induction false} ScaledIsDouble(a: nat, m: nat, e: nat)
    requires IsScaled(a, m, e)
    ensures a % Spacing(a) == 0
  {
    if a > TWO_53 {
      var half := m * Pow2(e - 1);
      assert a == 2 * half;
      ScaledIsDouble(half, m, e - 1);
      TwiceIsMultiple(half, Spacing(half));
    }
  }

  /**
   The integers that a double can hold are those with a significand of 53 bits: in magnitude, a
   number up to 2^53 times a power of two.
   */
  lemma DoubleMeaning(i: int)
    ensures IsDouble(i) <==> exists m, e :: IsScaled(Magnitude(i), m, e)
  {
    var a := Magnitude(i);
    if IsDouble(i) {
      var k := SpacingIsPower(a);
      SpacingRange(a);
      var m := a / Pow2(k);
      assert a == m * Pow2(k);
      if m > TWO_53 {
        Grows(TWO_53, m, Pow2(k));
      }
      assert IsScaled(a, m, k);
    }
    if m, e :| IsScaled(a, m, e) {
      ScaledIsDouble(a, m, e);
    }
  }

  // Both multiples of the spacing around a number are doubles, and no number between them is.
  lemma NeighboursAreDoubles(a: nat, q: nat, low: nat)
    requires low == q * Spacing(a) && low < a < low + Spacing(a)
    ensures low % Spacing(low) == 0
    ensures (low + Spacing(a)) % Spacing(low + Spacing(a)) == 0
  {
    var u := Spacing(a);
    var k := SpacingIsPower(a);
    SpacingRange(a);
    if q >= TWO_53 {
      AtLeast(TWO_53, q, u);
    }
    assert low + u == (q + 1) * u;
    ScaledIsDouble(low, q, k);
    ScaledIsDouble(low + u, q + 1, k);
  }

  lemma AtLeast(p: nat, q: nat, u: nat)
    requires p <= q
    ensures p * u <= q * u
  {
  }

  lemma NoDoubleBetween(a: nat, q: nat, low: nat, b: nat)
    requires low == q * Spacing(a) && low < a < low + Spacing(a)
    requires low < b < low + Spacing(a)
    ensures b % Spacing(b) != 0
  {
    var u := Spacing(a);
    SpacingRange(a);
    StaysInRange(TWO_53, a, q, u, low, b);
    SpacingUnique(a, b);
    NotMultiple(b, q, u, low);
  }

  lemma NotMultiple(b: nat, q: nat, u: nat, low: nat)
    requires low == q * u && low < b < low + u
    ensures b % u != 0
  {
    if b % u == 0 {
      DivideUnique(b / u, u, q, b - low);
    }
  }

  lemma StaysInRange(t: nat, a: nat, q: nat, u: nat, low: nat, b: nat)
    requires u > 1 && u % 2 == 0 && t % 2 == 0
    requires low == q * u && low < a < low + u && t * (u / 2) < a <= t * u
    requires low < b < low + u
    ensures t * (u / 2) < b <= t * u
  {
    assert t * (u / 2) == (t / 2) * u;
    if q < t / 2 {
      Grows(q, t / 2, u);
    } else {
      AtLeast(t / 2, q, u);
    }
    if q < t {
      Grows(q, t, u);
    } else {
      AtLeast(t, q, u);
    }
  }

  lemma NotFarther(a: nat, b: nat, low: nat, u: nat, r: nat, m: nat)
    requires a == low + r && r < u && (b <= low || b >= low + u || r == 0)
    requires (m == low && 2 * r <= u) || (m == low + u && 2 * r >= u && r != 0)
    requires r == 0 ==> m == a
    ensures Magnitude(m - a) <= Magnitude(b - a) && Magnitude(m - a) <= a
  {
  }

  // The same for magnitudes: whatever double is near, the rounded number is not farther.
  lemma NearestMagnitude(a: nat, b: nat)
    requires b % Spacing(b) == 0
    ensures var m := Rounded(a, Spacing(a));
            m % Spacing(m) == 0 && Magnitude(m - a) <= Magnitude(b - a) && Magnitude(m - a) <= a
  {
    var u := Spacing(a);
    var q, r := RoundedBetween(a, u);
    var low := q * u;
    if r != 0 {
      NeighboursAreDoubles(a, q, low);
      if low < b < low + u {
        NoDoubleBetween(a, q, low, b);
      }
    }
    NotFarther(a, b, low, u, r, Rounded(a, u));
  }

  /** The conversion yields a double, and no double is nearer to the integer. */
  lemma NearestDouble(i: int, j: int)
    requires IsDouble(j)
    ensures IsDouble(DoubleOf(i)) && Magnitude(DoubleOf(i) - i) <= Magnitude(j - i)
  {
    NearestMagnitude(Magnitude(i), Magnitude(j));
  }

  // Half way between two doubles the even multiple of the spacing is taken.
  lemma TiesToEven(i: int)
    ensures var u := Spacing(Magnitude(i));
            2 * Magnitude(DoubleOf(i) - i) == u ==> exists q :: q % 2 == 0 && Magnitude(DoubleOf(i)) == q * u
  {
    var a := Magnitude(i);
    var u := Spacing(a);
    var q, r := RoundedBetween(a, u);
    assert q * u + u == (q + 1) * u;
  }

  // The first integer that a double cannot hold comes back changed.
  lemma BeyondTwo53()
    ensures DoubleOf(TWO_53 + 1) == TWO_53
  {
    assert Spacing(TWO_53 + 1) == 2;
  }

  // ---------- Elements ----------

  // The conversion from the atom's number to the element type is defined by the language.
  predicate CastDefined(t: DataType, f: real) {
    IsFloat(t) || InRange(t, Trunc(f))
  }

  function Encode(fc: FloatBits, t: DataType, f: real): seq<Byte>
    requires CastDefined(t, f)
  {
    if IsFloat(t) then fc.write(ElementSize(t), f) else EncodeInt(t, Trunc(f))
  }

  function Decode(fc: FloatBits, t: DataType, s: seq<Byte>): real
    requires |s| == ElementSize(t)
  {
    if IsFloat(t) then fc.read(s) else DoubleOf(DecodeInt(t, s)) as real
  }

  // An integer that the cast keeps and, as an int64, a double can hold.
  predicate Survives(t: DataType, f: real) {
    f.Floor as real == f && IsDouble(f.Floor)
  }

  // The integer types keep the number without its fraction, and 64-bit integers the double
  // nearest to that.
  lemma DecodedElement(fc: FloatBits, t: DataType, f: real, n: int)
    requires !IsFloat(t) && CastDefined(t, f) && Truncates(n, f)
    ensures Decode(fc, t, Encode(fc, t, f)) == DoubleOf(n) as real
    ensures !t.Int64? ==> Decode(fc, t, Encode(fc, t, f)) == n as real
  {
    TruncIff(f, n);
    DecodeEncodeInt(t, n);
    if !t.Int64? {
      SmallIntegersAreDoubles(t, n);
      DoubleIff(n);
    }
  }

  // For the short types the decoded number lies between 0 and the one encoded, and less than 1
  // from it. A number comes back exactly when it survives.
  lemma ElementRoundTrip(fc: FloatBits, t: DataType, f: real)
    requires !IsFloat(t) && CastDefined(t, f)
    ensures |Encode(fc, t, f)| == ElementSize(t)
    ensures Decode(fc, t, Encode(fc, t, f)) == DoubleOf(Trunc(f)) as real
    ensures var v := Decode(fc, t, Encode(fc, t, f));
            !t.Int64? ==> if f >= 0.0 then 0.0 <= v <= f < v + 1.0 else v - 1.0 < f <= v <= 0.0
    ensures Decode(fc, t, Encode(fc, t, f)) == f <==> Survives(t, f)
  {
    TruncIff(f, Trunc(f));
    DecodedElement(fc, t, f, Trunc(f));
    SurvivesIff(t, f);
  }

  lemma SurvivesIff(t: DataType, f: real)
    ensures DoubleOf(Trunc(f)) as real == f <==> Survives(t, f)
  {
    TruncIff(f, Trunc(f));
    if f.Floor as real == f {
      TruncIff(f, f.Floor);
      DoubleIff(f.Floor);
    } else if DoubleOf(Trunc(f)) as real == f {
      FloorOfInteger(DoubleOf(Trunc(f)));
    }
  }

  lemma FloorOfInteger(i: int)
    ensures (i as real).Floor == i
  {
  }

  // The bytes of an encoded number are those of its truncation, in two's complement.
  lemma EncodedBytes(fc: FloatBits, t: DataType, f: real, n: int)
    requires !IsFloat(t) && CastDefined(t, f) && Truncates(n, f)
    ensures Unsigned(Encode(fc, t, f)) == if n < 0 then Modulus(t) + n else n
  {
    TruncIff(f, n);
    TwosComplement(t, n);
  }

  lemma SmallIntegersAreDoubles(t: DataType, i: int)
    requires InRange(t, i) && !IsFloat(t) && !t.Int64?
    ensures IsDouble(i)
  {
    ModulusIsPower(t);
    DoubleIff(i);
  }

  // Re-encoding a decoded element gives the bytes back exactly when a double holds its value.
  lemma BytesRoundTrip(fc: FloatBits, t: DataType, s: seq<Byte>)
    requires !IsFloat(t) && |s| == ElementSize(t) && CastDefined(t, Decode(fc, t, s))
    ensures Encode(fc, t, Decode(fc, t, s)) == s <==> IsDouble(DecodeInt(t, s))
  {
    var i := DecodeInt(t, s);
    EncodeDecodeInt(t, s);
    DoubleIff(i);
    TruncOfInteger(DoubleOf(i));
    DecodeEncodeInt(t, DoubleOf(i));
  }

  // ---------- Buffers ----------

  predicate AllDefined(t: DataType, values: seq<real>) {
    forall i :: 0 <= i < |values| ==> CastDefined(t, values[i])
  }

  // The bytes that a list of atoms is encoded to.
  function EncodeAll(fc: FloatBits, t: DataType, values: seq<real>): seq<Byte>
    requires AllDefined(t, values)
  {
    if values == [] then [] else Encode(fc, t, values[0]) + EncodeAll(fc, t, values[1..])
  }

  // The elements of a buffer; bytes after the last whole element are ignored.
  function DecodeAll(fc: FloatBits, t: DataType, s: seq<Byte>): seq<real> {
    var n := ElementSize(t);
    if |s| < n then [] else [Decode(fc, t, s[..n])] + DecodeAll(fc, t, s[n..])
  }

  lemma {:induction false} DecodeCount(fc: FloatBits, t: DataType, s: seq<Byte>)
    ensures |DecodeAll(fc, t, s)| == |s| / ElementSize(t)
  {
    var n := ElementSize(t);
    if |s| >= n {
      DecodeCount(fc, t, s[n..]);
      assert |s| / n == (|s| - n) / n + 1;
    }
  }

  lemma DecodeConcat(fc: FloatBits, t: DataType, head: seq<Byte>, rest: seq<Byte>)
    requires |head| == ElementSize(t)
    ensures DecodeAll(fc, t, head + rest) == [Decode(fc, t, head)] + DecodeAll(fc, t, rest)
  {
    assert (head + rest)[..|head|] == head && (head + rest)[|head|..] == rest;
  }

  /** A list of numbers survives encoding and decoding if and only if each of them does. */
  lemma {:induction false} DecodeEncode(fc: FloatBits, t: DataType, values: seq<real>)
    requires !IsFloat(t) && AllDefined(t, values)
    ensures DecodeAll(fc, t, EncodeAll(fc, t, values)) == values <==>
            forall i :: 0 <= i < |values| ==> Survives(t, values[i])
  {
    if values != [] {
      var head, rest := values[0], values[1..];
      ElementRoundTrip(fc, t, head);
      DecodeEncode(fc, t, rest);
      DecodeConcat(fc, t, Encode(fc, t, head), EncodeAll(fc, t, rest));
      ConsIff(Decode(fc, t, Encode(fc, t, head)), DecodeAll(fc, t, EncodeAll(fc, t, rest)), values);
      assert (forall i :: 0 <= i < |values| ==> Survives(t, values[i])) <==>
             Survives(t, head) && (forall i :: 0 <= i < |rest| ==> Survives(t, rest[i])) by {
        assert forall i :: 0 <= i < |rest| ==> rest[i] == values[i + 1];
        assert forall i :: 1 <= i < |values| ==> values[i] == rest[i - 1];
      }
    }
  }

  lemma ConsIff(x: real, xs: seq<real>, ys: seq<real>)
    requires ys != []
    ensures [x] + xs == ys <==> x == ys[0] && xs == ys[1..]
  {
    assert ys == [ys[0]] + ys[1..];
    assert ([x] + xs)[0] == x && ([x] + xs)[1..] == xs;
  }

  // Every element of the buffer is an integer that a double can hold.
  predicate AllDoubles(t: DataType, s: seq<Byte>) {
    var n := ElementSize(t);
    |s| < n || (IsDouble(DecodeInt(t, s[..n])) && AllDoubles(t, s[n..]))
  }

  lemma SplitAt<T>(s: seq<T>, h: seq<T>, r: seq<T>)
    requires |h| <= |s|
    ensures h + r == s <==> h == s[..|h|] && r == s[|h|..]
  {
  }

  lemma TailDefined(fc: FloatBits, t: DataType, s: seq<Byte>)
    requires |s| >= ElementSize(t)
    requires AllDefined(t, DecodeAll(fc, t, s))
    ensures var tail := DecodeAll(fc, t, s[ElementSize(t)..]);
            AllDefined(t, tail)
    ensures CastDefined(t, Decode(fc, t, s[..ElementSize(t)]))
  {
    var all := DecodeAll(fc, t, s);
    var tail := DecodeAll(fc, t, s[ElementSize(t)..]);
    assert all[0] == Decode(fc, t, s[..ElementSize(t)]);
    assert forall i :: 0 <= i < |tail| ==> tail[i] == all[i + 1];
  }

  lemma WholeRest(n: nat, size: nat)
    requires n > 0 && size % n == 0
    ensures size < n ==> size == 0
    ensures size >= n ==> (size - n) % n == 0
  {
    var q := size / n;
    assert size == q * n;
    if size >= n {
      assert size - n == (q - 1) * n;
      MultipleOf(q - 1, n, size - n);
    } else if q > 0 {
      AtLeast(1, q, n);
    }
  }

  lemma WholeElements(t: DataType, size: nat)
    requires size % ElementSize(t) == 0
    ensures size < ElementSize(t) ==> size == 0
    ensures size >= ElementSize(t) ==> (size - ElementSize(t)) % ElementSize(t) == 0
  {
    WholeRest(ElementSize(t), size);
  }

  lemma EncodeDecodeStep(fc: FloatBits, t: DataType, s: seq<Byte>)
    requires !IsFloat(t) && |s| >= ElementSize(t)
    requires AllDefined(t, DecodeAll(fc, t, s))
    ensures var n := ElementSize(t);
            var tail := DecodeAll(fc, t, s[n..]);
            && AllDefined(t, tail)
            && (EncodeAll(fc, t, DecodeAll(fc, t, s)) == s <==>
                IsDouble(DecodeInt(t, s[..n])) && EncodeAll(fc, t, tail) == s[n..])
  {
    var n := ElementSize(t);
    TailDefined(fc, t, s);
    BytesRoundTrip(fc, t, s[..n]);
    var all := DecodeAll(fc, t, s);
    var h, r := Encode(fc, t, all[0]), EncodeAll(fc, t, all[1..]);
    assert all[1..] == DecodeAll(fc, t, s[n..]);
    assert all[0] == Decode(fc, t, s[..n]);
    ElementRoundTrip(fc, t, all[0]);
    SplitAt(s, h, r);
  }

  /**
   Decoding a buffer of whole elements and encoding the numbers again gives the buffer back
   exactly when doubles can hold all its integers; shorter integer types always are so.
   */
  lemma {:induction false} EncodeDecode(fc: FloatBits, t: DataType, s: seq<Byte>)
    requires !IsFloat(t) && |s| % ElementSize(t) == 0
    requires AllDefined(t, DecodeAll(fc, t, s))
    ensures EncodeAll(fc, t, DecodeAll(fc, t, s)) == s <==> AllDoubles(t, s)
  {
    WholeElements(t, |s|);
    if |s| >= ElementSize(t) {
      EncodeDecodeStep(fc, t, s);
      EncodeDecode(fc, t, s[ElementSize(t)..]);
    }
  }

  lemma {:induction false} ShortTypesAreDoubles(t: DataType, s: seq<Byte>)
    requires !IsFloat(t) && !t.Int64?
    ensures AllDoubles(t, s)
  {
    var n := ElementSize(t);
    if |s| >= n {
      EncodeDecodeInt(t, s[..n]);
      SmallIntegersAreDoubles(t, DecodeInt(t, s[..n]));
      ShortTypesAreDoubles(t, s[n..]);
    }
  }

  // Integers that doubles hold can be cast back to their type.
  lemma {:induction false} DoublesCastBack(fc: FloatBits, t: DataType, s: seq<Byte>)
    requires !IsFloat(t) && AllDoubles(t, s)
    ensures AllDefined(t, DecodeAll(fc, t, s))
  {
    var n := ElementSize(t);
    if |s| >= n {
      var i := DecodeInt(t, s[..n]);
      EncodeDecodeInt(t, s[..n]);
      DoubleIff(i);
      TruncOfInteger(i);
      DoublesCastBack(fc, t, s[n..]);
    }
  }

  /** Byte strings of the shorter integer types always survive decoding and encoding. */
  lemma ShortTypesRoundTrip(fc: FloatBits, t: DataType, s: seq<Byte>)
    requires !IsFloat(t) && !t.Int64? && |s| % ElementSize(t) == 0
    ensures AllDefined(t, DecodeAll(fc, t, s))
    ensures EncodeAll(fc, t, DecodeAll(fc, t, s)) == s
  {
    ShortTypesAreDoubles(t, s);
    DoublesCastBack(fc, t, s);
    EncodeDecode(fc, t, s);
  }

  // ---------- The cursor loops ----------

  // The numbers in a list of atoms.
  function Numbers(atoms: seq<Atom>): (r: seq<real>)
    ensures |r| == |atoms|
  {
    seq(|atoms|, i requires 0 <= i < |atoms| => GetFloat(atoms[i]))
  }

  function Floats(values: seq<real>): (r: seq<Atom>)
    ensures |r| == |values|
  {
    seq(|values|, i requires 0 <= i < |values| => Float(values[i]))
  }

  // All numeric types are announced as "f".
  function TypeSymbol(t: DataType): string {
    if t.Bytes? then t.name else "f"
  }

  // What data_to_atoms writes: the type followed by the elements.
  function AtomsOf(fc: FloatBits, t: DataType, data: seq<Byte>): seq<Atom> {
    [Sym(TypeSymbol(t))] + Floats(DecodeAll(fc, t, data))
  }

  lemma AtomsOfLength(fc: FloatBits, t: DataType, data: seq<Byte>)
    ensures |AtomsOf(fc, t, data)| == |data| / ElementSize(t) + 1
  {
    DecodeCount(fc, t, data);
  }

  lemma {:induction false} EncodedSize(fc: FloatBits, t: DataType, values: seq<real>)
    requires fc.Valid()
    requires AllDefined(t, values)
    ensures |EncodeAll(fc, t, values)| == |values| * ElementSize(t)
  {
    if values != [] {
      EncodedSize(fc, t, values[1..]);
      assert |Encode(fc, t, values[0])| == ElementSize(t);
    }
  }

  lemma SliceAfter<X>(head: seq<X>, rest: seq<X>, n: nat, k: nat)
    requires |head| == n && k > 0 && (k - 1) * n + n <= |rest|
    ensures k * n == (k - 1) * n + n
    ensures (head + rest)[k * n..k * n + n] == rest[(k - 1) * n..(k - 1) * n + n]
  {
    assert k * n == (k - 1) * n + n;
  }

  /** The bytes of the `k`-th number are the `k`-th element of the buffer. */
  lemma {:induction false} EncodedAt(fc: FloatBits, t: DataType, values: seq<real>, k: nat)
    requires fc.Valid() && AllDefined(t, values) && k < |values|
    ensures var n := ElementSize(t);
            && k * n + n <= |EncodeAll(fc, t, values)|
            && EncodeAll(fc, t, values)[k * n..k * n + n] == Encode(fc, t, values[k])
  {
    var head, rest := Encode(fc, t, values[0]), EncodeAll(fc, t, values[1..]);
    assert |head| == ElementSize(t);
    if k == 0 {
      assert (head + rest)[..|head|] == head;
    } else {
      EncodedAt(fc, t, values[1..], k - 1);
      SliceAfter(head, rest, ElementSize(t), k);
    }
  }

  /** The `k`-th element of a buffer is decoded to the `k`-th number. */
  lemma {:induction false} DecodedAt(fc: FloatBits, t: DataType, s: seq<Byte>, k: nat)
    requires k * ElementSize(t) + ElementSize(t) <= |s|
    ensures var n := ElementSize(t);
            && k < |DecodeAll(fc, t, s)|
            && DecodeAll(fc, t, s)[k] == Decode(fc, t, s[k * n..k * n + n])
  {
    var n := ElementSize(t);
    if k > 0 {
      assert k * n == (k - 1) * n + n;
      DecodedAt(fc, t, s[n..], k - 1);
      SliceAfter(s[..n], s[n..], n, k);
      assert s[..n] + s[n..] == s;
    }
  }

  /** Floats pass through the bit patterns of their size, one by one, and nothing else. */
  lemma FloatsThrough(fc: FloatBits, t: DataType, values: seq<real>, k: nat)
    requires fc.Valid() && IsFloat(t) && k < |values|
    ensures var s := EncodeAll(fc, t, values);
            |DecodeAll(fc, t, s)| == |values| &&
            DecodeAll(fc, t, s)[k] == fc.read(fc.write(if t.Float32? then 4 else 8, values[k]))
  {
    var n, s := ElementSize(t), EncodeAll(fc, t, values);
    EncodedSize(fc, t, values);
    EncodedAt(fc, t, values, k);
    DecodedAt(fc, t, s, k);
    DecodeCount(fc, t, s);
    MultipleOf(|values|, n, |s|);
  }

  // Writes an element at the cursor and moves the cursor past it.
  method WriteAt(data: array<Byte>, ptr: nat, element: seq<Byte>) returns (next: nat)
    requires ptr + |element| <= data.Length
    modifies data
    ensures next == ptr + |element| && data[..next] == old(data[..ptr]) + element
    ensures data[next..] == old(data[next..])
  {
    for k := 0 to |element|
      invariant data[..ptr + k] == old(data[..ptr]) + element[..k]
      invariant data[ptr + k..] == old(data[ptr + k..])
    {
      data[ptr + k] := element[k];
    }
    next := ptr + |element|;
  }

  ghost function Flatten(chunks: seq<seq<Byte>>): seq<Byte> {
    if chunks == [] then [] else chunks[0] + Flatten(chunks[1..])
  }

  ghost function EncodeEach(fc: FloatBits, t: DataType, values: seq<real>): (r: seq<seq<Byte>>)
    requires AllDefined(t, values)
    ensures |r| == |values|
  {
    seq(|values|, i requires 0 <= i < |values| => Encode(fc, t, values[i]))
  }

  lemma {:induction false} EncodeAllFlattens(fc: FloatBits, t: DataType, values: seq<real>)
    requires AllDefined(t, values)
    ensures EncodeAll(fc, t, values) == Flatten(EncodeEach(fc, t, values))
  {
    if values != [] {
      EncodeAllFlattens(fc, t, values[1..]);
      assert EncodeEach(fc, t, values)[1..] == EncodeEach(fc, t, values[1..]);
    }
  }

  lemma CursorStep(chunks: seq<seq<Byte>>, i: nat, written: seq<Byte>, full: seq<Byte>)
    requires i < |chunks| && written + Flatten(chunks[i..]) == full
    ensures written + chunks[i] + Flatten(chunks[i + 1..]) == full
    ensures |written| + |chunks[i]| <= |full|
  {
  }

  // The cursor loop of the encoder.
  method FillBytes(fc: FloatBits, t: DataType, argv: seq<Atom>, data: array<Byte>)
    requires AllDefined(t, Numbers(argv))
    requires |EncodeAll(fc, t, Numbers(argv))| <= data.Length
    modifies data
    ensures var full := EncodeAll(fc, t, Numbers(argv));
            data[..|full|] == full && data[|full|..] == old(data[|full|..])
  {
    ghost var chunks := EncodeEach(fc, t, Numbers(argv));
    ghost var full := Flatten(chunks);
    EncodeAllFlattens(fc, t, Numbers(argv));
    assert chunks[0..] == chunks;
    var ptr := 0;
    for i := 0 to |argv|
      invariant 0 <= ptr <= data.Length
      invariant data[..ptr] + Flatten(chunks[i..]) == full
      invariant data[ptr..] == old(data[ptr..])
    {
      CursorStep(chunks, i, data[..ptr], full);
      ptr := WriteAt(data, ptr, Encode(fc, t, GetFloat(argv[i])));
    }
    assert data[..ptr] == full;
  }

  // Encodes the atoms into the first `size` bytes of the buffer, if they suffice.
  method AtomsToData(fc: FloatBits, t: DataType, argv: seq<Atom>, data: array<Byte>, size: nat) returns (numbytes: nat)
    requires fc.Valid() && size <= data.Length
    requires AllDefined(t, Numbers(argv))
    modifies data
    ensures numbytes == if |argv| * ElementSize(t) > size then 0 else |argv| * ElementSize(t)
    ensures numbytes <= size && data[numbytes..] == old(data[numbytes..])
    ensures |argv| * ElementSize(t) <= size ==> data[..numbytes] == EncodeAll(fc, t, Numbers(argv))
  {
    numbytes := |argv| * ElementSize(t);
    if numbytes > size {
      return 0;
    }
    EncodedSize(fc, t, Numbers(argv));
    FillBytes(fc, t, argv, data);
  }

  // The cursor loop of the decoder. The slices taken at the cursor lie within the data.
  method FillAtoms(fc: FloatBits, t: DataType, data: seq<Byte>, argv: array<Atom>, off: nat, count: nat)
    requires count == |DecodeAll(fc, t, data)| && off + count <= argv.Length
    modifies argv
    ensures argv[off..off + count] == Floats(DecodeAll(fc, t, data))
    ensures forall k :: 0 <= k < argv.Length && !(off <= k < off + count) ==> argv[k] == old(argv[k])
  {
    var ptr := 0;
    ghost var all := DecodeAll(fc, t, data);
    for i := 0 to count
      invariant 0 <= ptr <= |data| && all[i..] == DecodeAll(fc, t, data[ptr..])
      invariant argv[off..off + i] == Floats(all[..i])
      invariant forall k :: 0 <= k < argv.Length && !(off <= k < off + i) ==> argv[k] == old(argv[k])
    {
      var next := ptr + ElementSize(t);
      assert all[i..] != [];
      assert data[ptr..][..ElementSize(t)] == data[ptr..next] && data[ptr..][ElementSize(t)..] == data[next..];
      var f := Decode(fc, t, data[ptr..next]);
      assert all[i] == all[i..][0] && all[i + 1..] == all[i..][1..];
      argv[off + i] := Float(f);
      assert argv[off..off + i + 1] == argv[off..off + i] + [Float(all[i])];
      ptr := next;
    }
    assert all[..count] == all;
  }

  // Decodes the data into the `argc` atoms of `argv` from `off` on, if they suffice.
  method DataToAtoms(fc: FloatBits, t: DataType, data: seq<Byte>, argc: nat, argv: array<Atom>, off: nat)
    returns (numatoms: nat)
    requires data != [] && off + argc <= argv.Length
    modifies argv
    ensures numatoms == if |AtomsOf(fc, t, data)| > argc then 0 else |AtomsOf(fc, t, data)|
    ensures numatoms > 0 ==> argv[off..off + numatoms] == AtomsOf(fc, t, data)
    ensures forall k :: 0 <= k < argv.Length && !(off <= k < off + numatoms) ==> argv[k] == old(argv[k])
  {
    numatoms := |data| / ElementSize(t) + 1;
    AtomsOfLength(fc, t, data);
    if numatoms > argc {
      return 0;
    }
    argv[off] := Sym(TypeSymbol(t));
    FillAtoms(fc, t, data, argv, off + 1, numatoms - 1);
    Headed(argv[..], off, numatoms);
  }

  lemma Headed(s: seq<Atom>, off: nat, count: nat)
    requires count > 0 && off + count <= |s|
    ensures s[off..off + count] == [s[off]] + s[off + 1..off + 1 + (count - 1)]
  {
  }
}
