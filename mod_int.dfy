/** `ModularInt` (mod_int.py): an integer together with the modulus it is
    taken in. Its fields are set once, in the constructor, and every operator
    builds a fresh value, so it is a datatype with pure functions over it. */
module ModInt {
  import opened Base
  import opened ModArith

  datatype ModularInt = ModularInt(x: int, m: int)

  /** The other operand of an operator: another ModularInt or a plain int. */
  datatype Operand = Elem(v: ModularInt) | Plain(n: int)

  /** The number an operand contributes to an operation. */
  function Val(o: Operand): int {
    match o
    case Elem(v) => v.x
    case Plain(n) => n
  }

  /** True when the operand is a ModularInt over another modulus. */
  predicate Mismatch(a: ModularInt, o: Operand) {
    o.Elem? && o.v.m != a.m
  }

  /** r is the representative in [0, m) of v modulo m. */
  predicate IsResidue(r: ModularInt, m: int, v: int)
    requires m > 0
  {
    r.m == m && 0 <= r.x < m && Congruent(r.x, v, m)
  }

  /** `ModularInt(x, m)`: keeps x when x < m and stores x % m otherwise, so a
      non-negative x ends up in [0, m) while a negative x is kept as it is. */
  function New(x: int, m: int): (a: ModularInt)
    requires m > 0
    ensures a.m == m
    ensures x >= 0 ==> 0 <= a.x < m && Congruent(a.x, x, m)
    ensures x < m ==> a.x == x
  {
    ModCongruent(x, m);
    ModularInt(if x < m then x else x % m, m)
  }

  /** `has_same_field`: true for a ModularInt over the same modulus, a
      TypeError for one over another modulus, and false (None) for an int. */
  function HasSameField(a: ModularInt, o: Operand): (r: Result<bool>)
    ensures r.Err? <==> Mismatch(a, o)
    ensures r.Ok? ==> (r.value <==> o.Elem?)
  {
    match o
    case Elem(b) => if a.m == b.m then Ok(true) else Err(FieldMismatch)
    case Plain(_) => Ok(false)
  }

  /** `a + o` */
  function Add(a: ModularInt, o: Operand): (r: Result<ModularInt>)
    requires a.m > 0
    ensures r.Err? <==> Mismatch(a, o)
    ensures r.Ok? ==> IsResidue(r.value, a.m, a.x + Val(o))
  {
    var same :- HasSameField(a, o);
    var s := if same then a.x + o.v.x else a.x + o.n;
    ModCongruent(s, a.m);
    Ok(New(s % a.m, a.m))
  }

  /** `o + a` with o on the left: a ModularInt operand is reduced to its
      stored int first, so its modulus is never compared. */
  function RAdd(a: ModularInt, o: Operand): (r: Result<ModularInt>)
    requires a.m > 0
    ensures r.Ok? && IsResidue(r.value, a.m, Val(o) + a.x)
  {
    match o
    case Elem(b) => Add(a, Plain(b.x))
    case Plain(n) => Add(a, Plain(n))
  }

  /** `a - o` */
  function Sub(a: ModularInt, o: Operand): (r: Result<ModularInt>)
    requires a.m > 0
    ensures r.Err? <==> Mismatch(a, o)
    ensures r.Ok? ==> IsResidue(r.value, a.m, a.x - Val(o))
  {
    var same :- HasSameField(a, o);
    var s := if same then a.x - o.v.x else a.x - o.n;
    ModCongruent(s, a.m);
    Ok(New(s % a.m, a.m))
  }

  /** `o - a` with o on the left. */
  function RSub(a: ModularInt, o: Operand): (r: Result<ModularInt>)
    requires a.m > 0
    ensures r.Err? <==> Mismatch(a, o)
    ensures r.Ok? ==> IsResidue(r.value, a.m, Val(o) - a.x)
  {
    var same :- HasSameField(a, o);
    var s := if same then o.v.x - a.x else o.n - a.x;
    ModCongruent(s, a.m);
    Ok(New(s % a.m, a.m))
  }

  /** `a * o` */
  function Mul(a: ModularInt, o: Operand): (r: Result<ModularInt>)
    requires a.m > 0
    ensures r.Err? <==> Mismatch(a, o)
    ensures r.Ok? ==> IsResidue(r.value, a.m, a.x * Val(o))
  {
    var same :- HasSameField(a, o);
    var s := if same then a.x * o.v.x else a.x * o.n;
    ModCongruent(s, a.m);
    Ok(New(s % a.m, a.m))
  }

  /** `o * a` with o on the left: as for RAdd, the operand's modulus is
      never compared. */
  function RMul(a: ModularInt, o: Operand): (r: Result<ModularInt>)
    requires a.m > 0
    ensures r.Ok? && IsResidue(r.value, a.m, a.x * Val(o))
  {
    match o
    case Elem(b) => Mul(a, Plain(b.x))
    case Plain(n) => Mul(a, Plain(n))
  }

  /** The functional counterpart of FindInverse: the least inverse of a.x,
      as a ModularInt over the same modulus. */
  function LeastInverse(a: ModularInt): (r: Option<ModularInt>)
    requires a.m > 0
    ensures r.Some? <==> a.m > 1 && Coprime(a.x, a.m)
    ensures r.Some? ==> r.value.m == a.m && 1 <= r.value.x < a.m && IsInverse(a.x, a.m, r.value.x)
  {
    match Inverse(a.x, a.m)
    case None => None
    case Some(i) => Some(New(i, a.m))
  }

  /** `find_inverse`: ModularInt(i, m) for the least i >= 1 with
      i * x = 1 (mod m); the source's -1 is None here. */
  method FindInverse(a: ModularInt) returns (r: Option<ModularInt>)
    requires a.m > 0
    ensures r.Some? <==> a.m > 1 && Coprime(a.x, a.m)
    ensures r.Some? ==> r.value.m == a.m && 1 <= r.value.x < a.m && IsInverse(a.x, a.m, r.value.x)
    ensures r.Some? ==> forall j :: 1 <= j < r.value.x ==> !IsInverse(a.x, a.m, j)
    ensures r == LeastInverse(a)
  {
    var i := ModArith.FindInverse(a.x, a.m);
    if i == -1 {
      r := None;
    } else {
      r := Some(New(i, a.m));
    }
  }

  /** Facts shared by Div and RDiv: an operand's inverse is the inverse of
      its value, whether it is a ModularInt or an int taken mod m. */
  lemma OperandInverse(a: ModularInt, o: Operand)
    requires a.m > 0 && !Mismatch(a, o)
    ensures var d := if o.Elem? then o.v else New(o.n, a.m);
      d.m == a.m && Congruent(d.x, Val(o), a.m) && Gcd(d.x, a.m) == Gcd(Val(o), a.m)
  {
    var d := if o.Elem? then o.v else New(o.n, a.m);
    ModCongruent(Val(o), a.m);
    ModCongruent(d.x, a.m);
    GcdOfResidue(Val(o), a.m);
    GcdOfResidue(d.x, a.m);
    if d.x != Val(o) {
      ModIdempotent(Val(o), a.m);
    }
  }

  /** `a / o`: a times the inverse of o. An operand without an inverse makes
      the source read `.x` off the -1 sentinel; here that is NotInvertible. */
  function Div(a: ModularInt, o: Operand): (r: Result<ModularInt>)
    requires a.m > 0
    ensures r == Err(FieldMismatch) <==> Mismatch(a, o)
    ensures r.Ok? <==> !Mismatch(a, o) && a.m > 1 && Coprime(Val(o), a.m)
    ensures r.Ok? ==> r.value.m == a.m && 0 <= r.value.x < a.m
    ensures r.Ok? ==> Congruent(r.value.x * Val(o), a.x, a.m)
  {
    var same :- HasSameField(a, o);
    var d := if same then o.v else New(o.n, a.m);
    OperandInverse(a, o);
    match LeastInverse(d)
    case None => Err(NotInvertible)
    case Some(inv) =>
      CancelInverse(a.x, inv.x, d.x, Val(o), a.m);
      Ok(New((a.x * inv.x) % a.m, a.m))
  }

  /** `o / a` with o on the left: o times the inverse of a. */
  function RDiv(a: ModularInt, o: Operand): (r: Result<ModularInt>)
    requires a.m > 0
    ensures r == Err(FieldMismatch) <==> Mismatch(a, o)
    ensures r.Ok? <==> !Mismatch(a, o) && a.m > 1 && Coprime(a.x, a.m)
    ensures r.Ok? ==> r.value.m == a.m && 0 <= r.value.x < a.m
    ensures r.Ok? ==> Congruent(r.value.x * a.x, Val(o), a.m)
  {
    var same :- HasSameField(a, o);
    var n := if same then o.v.x else o.n;
    match LeastInverse(a)
    case None => Err(NotInvertible)
    case Some(inv) =>
      ModCongruent(a.x, a.m);
      CancelInverse(n, inv.x, a.x, a.x, a.m);
      Ok(New((n * inv.x) % a.m, a.m))
  }

  /** `a ** e`: Python's pow(x, e, m), which refuses a negative exponent. */
  function Pow(a: ModularInt, e: int): (r: Result<ModularInt>)
    requires a.m > 0
    ensures r.Ok? <==> e >= 0
    ensures r.Ok? ==> IsResidue(r.value, a.m, Power(a.x, e))
  {
    if e < 0 then Err(NegativeExponent)
    else
      ModCongruent(Power(a.x, e), a.m);
      Ok(New(Power(a.x, e) % a.m, a.m))
  }

  /** `a == o`: compares the stored number itself, not its class mod m. */
  function Eq(a: ModularInt, o: Operand): (r: Result<bool>)
    ensures r.Err? <==> Mismatch(a, o)
    ensures r.Ok? ==> (r.value <==> a.x == Val(o))
  {
    var same :- HasSameField(a, o);
    if same && a.x == o.v.x then Ok(true)
    else if o.Plain? && o.n == a.x then Ok(true)
    else Ok(false)
  }

  /** `a != o` */
  function Ne(a: ModularInt, o: Operand): (r: Result<bool>)
    ensures r.Err? <==> Mismatch(a, o)
    ensures r.Ok? ==> (r.value <==> a.x != Val(o))
  {
    var e :- Eq(a, o);
    Ok(!e)
  }

  /** `a < o` */
  function Lt(a: ModularInt, o: Operand): (r: Result<bool>)
    ensures r.Err? <==> Mismatch(a, o)
    ensures r.Ok? ==> (r.value <==> a.x < Val(o))
  {
    var same :- HasSameField(a, o);
    if same && a.x < o.v.x then Ok(true)
    else if o.Plain? && a.x < o.n then Ok(true)
    else Ok(false)
  }

  /** `a <= o`, written in the source as `a < o or a == o`. */
  function Le(a: ModularInt, o: Operand): (r: Result<bool>)
    ensures r.Err? <==> Mismatch(a, o)
    ensures r.Ok? ==> (r.value <==> a.x <= Val(o))
  {
    var lt :- Lt(a, o);
    if lt then Ok(true) else Eq(a, o)
  }

  /** `a > o`, written in the source as `not (a < o or a == o)`. */
  function Gt(a: ModularInt, o: Operand): (r: Result<bool>)
    ensures r.Err? <==> Mismatch(a, o)
    ensures r.Ok? ==> (r.value <==> a.x > Val(o))
  {
    var lt :- Lt(a, o);
    if lt then Ok(false)
    else
      match Eq(a, o)
      case Ok(eq) => Ok(!eq)
      case Err(e) => Err(e)
  }

  /** `a >= o`, written in the source as `a > o or a == o`. */
  function Ge(a: ModularInt, o: Operand): (r: Result<bool>)
    ensures r.Err? <==> Mismatch(a, o)
    ensures r.Ok? ==> (r.value <==> a.x >= Val(o))
  {
    var gt :- Gt(a, o);
    if gt then Ok(true) else Eq(a, o)
  }

  // ---------------------------------------------------------------------
  // Properties relating the operators

  /** Two residues of the same number are the same ModularInt. */
  lemma ResidueUnique(r: ModularInt, s: ModularInt, m: int, v: int)
    requires m > 0 && IsResidue(r, m, v) && IsResidue(s, m, v)
    ensures r == s
  {
    CongruentSameMod(r.x, v, m);
    CongruentSameMod(s.x, v, m);
    ModUnique(r.x, m, 0, r.x);
    ModUnique(s.x, m, 0, s.x);
  }

  /** A residue of v is a residue of every w congruent to v. */
  lemma ResidueOfCongruent(r: ModularInt, m: int, v: int, w: int)
    requires m > 0 && IsResidue(r, m, v) && Congruent(v, w, m)
    ensures IsResidue(r, m, w)
  {
    CongruentSameMod(r.x, v, m);
    CongruentSameMod(v, w, m);
    SameModCongruent(r.x, w, m);
  }

  /** ModularInt(n, m) stores a number congruent to n. */
  lemma NewCongruent(n: int, m: int)
    requires m > 0
    ensures Congruent(New(n, m).x, n, m)
  {
    if n < m {
      ModOfMultiple(0, m);
    }
  }

  /** A plain int operand n behaves as the ModularInt(n, m) it stands for:
      addition. */
  lemma PlainAddAsModularInt(a: ModularInt, n: int)
    requires a.m > 0
    ensures Add(a, Plain(n)) == Add(a, Elem(New(n, a.m)))
  {
    var m, b := a.m, New(n, a.m);
    var r1, r2 := Add(a, Plain(n)).value, Add(a, Elem(b)).value;
    NewCongruent(n, m);
    assert (a.x + b.x) - (a.x + n) == b.x - n;
    ResidueOfCongruent(r2, m, a.x + b.x, a.x + n);
    ResidueUnique(r1, r2, m, a.x + n);
  }

  /** Subtraction of a plain int n is subtraction of ModularInt(n, m). */
  lemma PlainSubAsModularInt(a: ModularInt, n: int)
    requires a.m > 0
    ensures Sub(a, Plain(n)) == Sub(a, Elem(New(n, a.m)))
  {
    var m, b := a.m, New(n, a.m);
    var r1, r2 := Sub(a, Plain(n)).value, Sub(a, Elem(b)).value;
    NewCongruent(n, m);
    assert (a.x - b.x) - (a.x - n) == (-1) * (b.x - n);
    ModMulRight(-1, b.x - n, m);
    ResidueOfCongruent(r2, m, a.x - b.x, a.x - n);
    ResidueUnique(r1, r2, m, a.x - n);
  }

  /** Multiplication by a plain int n is multiplication by ModularInt(n, m). */
  lemma PlainMulAsModularInt(a: ModularInt, n: int)
    requires a.m > 0
    ensures Mul(a, Plain(n)) == Mul(a, Elem(New(n, a.m)))
  {
    var m, b := a.m, New(n, a.m);
    var r1, r2 := Mul(a, Plain(n)).value, Mul(a, Elem(b)).value;
    NewCongruent(n, m);
    assert (a.x * b.x) - (a.x * n) == a.x * (b.x - n);
    ModMulRight(a.x, b.x - n, m);
    ResidueOfCongruent(r2, m, a.x * b.x, a.x * n);
    ResidueUnique(r1, r2, m, a.x * n);
  }

  /** Dividing and multiplying back by the same operand returns the dividend
      (for a dividend already in [0, m)). */
  lemma {:induction false} DivThenMul(a: ModularInt, o: Operand)
    requires a.m > 0 && 0 <= a.x < a.m && Div(a, o).Ok?
    ensures Mul(Div(a, o).value, o) == Ok(a)
  {
    var q := Div(a, o).value;
    var p := Mul(q, o).value;
    assert Congruent(p.x, a.x, a.m) by {
      CongruentSameMod(p.x, q.x * Val(o), a.m);
      CongruentSameMod(q.x * Val(o), a.x, a.m);
      SameModCongruent(p.x, a.x, a.m);
    }
    ModCongruent(a.x, a.m);
    ModUnique(a.x, a.m, 0, a.x);
    ResidueUnique(p, a, a.m, a.x);
  }

  /** Subtracting undoes adding (for a value already in [0, m)). */
  lemma {:induction false} SubUndoesAdd(a: ModularInt, o: Operand)
    requires a.m > 0 && 0 <= a.x < a.m && !Mismatch(a, o)
    ensures Sub(Add(a, o).value, o) == Ok(a)
  {
    var s := Add(a, o).value;
    var d := Sub(s, o).value;
    assert Congruent(d.x, a.x, a.m) by {
      CongruentSameMod(d.x, s.x - Val(o), a.m);
      CongruentSameMod(s.x, a.x + Val(o), a.m);
      ModAddMultiple(s.x - Val(o), 0, a.m);
      assert (s.x - Val(o)) % a.m == (a.x + Val(o) - Val(o)) % a.m by {
        SameModCongruent(s.x, a.x + Val(o), a.m);
        assert (s.x - Val(o)) - (a.x + Val(o) - Val(o)) == s.x - (a.x + Val(o));
        CongruentSameMod(s.x - Val(o), a.x + Val(o) - Val(o), a.m);
      }
      SameModCongruent(d.x, a.x, a.m);
    }
    ModCongruent(a.x, a.m);
    ResidueUnique(d, a, a.m, a.x);
  }

  /** `a ** (e + 1)` is `a ** e` multiplied by a. */
  lemma PowSucc(a: ModularInt, e: nat)
    requires a.m > 0
    ensures Pow(a, e + 1) == Mul(Pow(a, e).value, Elem(a))
  {
    var p := Pow(a, e).value;
    var q := Mul(p, Elem(a)).value;
    assert Congruent(q.x, Power(a.x, e + 1), a.m) by {
      CongruentSameMod(q.x, p.x * a.x, a.m);
      CongruentSameMod(p.x, Power(a.x, e), a.m);
      ModMulLeft(p.x, a.x, a.m);
      ModMulLeft(Power(a.x, e), a.x, a.m);
      assert Power(a.x, e + 1) == Power(a.x, e) * a.x;
      SameModCongruent(q.x, Power(a.x, e + 1), a.m);
    }
    ResidueUnique(Pow(a, e + 1).value, q, a.m, Power(a.x, e + 1));
  }

  /** `a > o` is `not (a <= o)` and `a >= o` is `a > o or a == o`. */
  lemma ComparisonsAgree(a: ModularInt, o: Operand)
    requires !Mismatch(a, o)
    ensures Gt(a, o) == Ok(!Le(a, o).value)
    ensures Ge(a, o) == Ok(Gt(a, o).value || Eq(a, o).value)
    ensures Ne(a, o) == Ok(!Eq(a, o).value)
  {
  }

  /** The unit tests of mod_int_test.py, on five mod seven. */
  lemma TestVectors()
    ensures Add(New(5, 7), Plain(3)) == Ok(New(1, 7))
    ensures Add(New(5, 7), Elem(New(8, 7))) == Ok(New(13 % 7, 7))
    ensures RAdd(New(5, 7), Plain(3)) == Ok(New(1, 7))
    ensures Sub(New(5, 7), Plain(2)) == Ok(New(3, 7))
    ensures RSub(New(5, 7), Plain(7)) == Ok(New(2, 7))
    ensures RSub(New(5, 7), Elem(New(7, 7))) == Ok(New(2, 7))
    ensures Mul(New(5, 7), Plain(3)) == Ok(New(15 % 7, 7))
    ensures RMul(New(5, 7), Elem(New(3, 7))) == Ok(New(15 % 7, 7))
    ensures Div(New(5, 7), Plain(2)) == Ok(New(6, 7))
    ensures Div(New(5, 7), Elem(New(2, 7))) == Ok(New(6, 7))
    ensures RDiv(New(5, 7), Plain(2)) == Ok(New(6, 7))
    ensures Pow(New(5, 7), 3) == Ok(New(6, 7))
  {
    assert Inverse(2, 7) == Some(4);
    assert Inverse(5, 7) == Some(3);
  }

  /** Equality with an int compares the stored number, not its class:
      ModularInt(5, 7) == 12 is False although 12 = 5 (mod 7). */
  lemma EqIsNotCongruence()
    ensures Congruent(5, 12, 7) && Eq(New(5, 7), Plain(12)) == Ok(false)
  {
  }
}
