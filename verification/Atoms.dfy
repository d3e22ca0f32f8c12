/** Max atoms and the accessors that the objects read them with. */
module Atoms {
  datatype Atom = Long(n: int) | Float(f: real) | Sym(s: string)

  // atom_getfloat: the number in the atom, 0 for a symbol
  function GetFloat(a: Atom): real {
    match a
    case Long(n) => n as real
    case Float(f) => f
    case Sym(_) => 0.0
  }

  // atom_getsym: the symbol in the atom, the empty symbol for a number
  function GetSym(a: Atom): string {
    if a.Sym? then a.s else ""
  }

  // The conversion of a floating point number to an integer type truncates toward zero.
  function Trunc(f: real): int {
    if f >= 0.0 then f.Floor else -(-f).Floor
  }

  // `n` is what remains of `f` without its fraction.
  predicate Truncates(n: int, f: real) {
    if f >= 0.0 then n as real <= f < n as real + 1.0 else n as real - 1.0 < f <= n as real
  }

  lemma TruncIff(f: real, n: int)
    ensures Trunc(f) == n <==> Truncates(n, f)
  {
  }

  // The integer that an atom is taken for.
  predicate IsInteger(a: Atom, n: int) {
    match a
    case Long(m) => n == m
    case Float(f) => Truncates(n, f)
    case Sym(_) => n == 0
  }

  lemma IntegerIff(a: Atom, n: int)
    ensures Trunc(GetFloat(a)) == n <==> IsInteger(a, n)
  {
    TruncIff(GetFloat(a), n);
  }

  lemma TruncOfInteger(i: int)
    ensures Trunc(i as real) == i
  {
  }
}
