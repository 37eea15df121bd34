/** `IntegerField` (field.py): the same design as ModularInt, except that the
    constructor stores x and m as given and every operator returns a plain int
    in [0, m) instead of a new object. */
module Field {
  import opened Base
  import opened ModArith
  import ModInt

  datatype IntegerField = IntegerField(x: int, m: int)

  /** The other operand of an operator: another IntegerField or a plain int. */
  datatype Operand = Elem(v: IntegerField) | Plain(n: int)

  function Val(o: Operand): int {
    match o
    case Elem(v) => v.x
    case Plain(n) => n
  }

  predicate Mismatch(a: IntegerField, o: Operand) {
    o.Elem? && o.v.m != a.m
  }

  /** r is the representative in [0, m) of v modulo m. */
  predicate IsResidue(r: int, m: int, v: int)
    requires m > 0
  {
    0 <= r < m && Congruent(r, v, m)
  }

  /** `has_same_field`: true for the same modulus, a TypeError otherwise. */
  function HasSameField(a: IntegerField, b: IntegerField): (r: Result<bool>)
    ensures r.Ok? <==> a.m == b.m
    ensures r.Ok? ==> r.value
  {
    if a.m == b.m then Ok(true) else Err(FieldMismatch)
  }

  /** `a + o` */
  function Add(a: IntegerField, o: Operand): (r: Result<int>)
    requires a.m > 0
    ensures r.Err? <==> Mismatch(a, o)
    ensures r.Ok? ==> IsResidue(r.value, a.m, a.x + Val(o))
  {
    ModCongruent(a.x + Val(o), a.m);
    match o
    case Elem(b) =>
      var _ :- HasSameField(a, b);
      Ok((a.x + b.x) % a.m)
    case Plain(n) => Ok((a.x + n) % a.m)
  }

  /** `o + a` with o on the left: an IntegerField operand is reduced to its
      stored int, so its modulus is never compared. */
  function RAdd(a: IntegerField, o: Operand): (r: Result<int>)
    requires a.m > 0
    ensures r.Ok? && IsResidue(r.value, a.m, Val(o) + a.x)
  {
    match o
    case Elem(b) => Add(a, Plain(b.x))
    case Plain(n) => Add(a, Plain(n))
  }

  /** `a - o` */
  function Sub(a: IntegerField, o: Operand): (r: Result<int>)
    requires a.m > 0
    ensures r.Err? <==> Mismatch(a, o)
    ensures r.Ok? ==> IsResidue(r.value, a.m, a.x - Val(o))
  {
    ModCongruent(a.x - Val(o), a.m);
    match o
    case Elem(b) =>
      var _ :- HasSameField(a, b);
      Ok((a.x - b.x) % a.m)
    case Plain(n) => Ok((a.x - n) % a.m)
  }

  /** `o - a` with o on the left. */
  function RSub(a: IntegerField, o: Operand): (r: Result<int>)
    requires a.m > 0
    ensures r.Err? <==> Mismatch(a, o)
    ensures r.Ok? ==> IsResidue(r.value, a.m, Val(o) - a.x)
  {
    ModCongruent(Val(o) - a.x, a.m);
    match o
    case Elem(b) =>
      var _ :- HasSameField(a, b);
      Ok((b.x - a.x) % a.m)
    case Plain(n) => Ok((n - a.x) % a.m)
  }

  /** `a * o` AS WRITTEN: the int branch computes (x - other) % m. */
  function Mul(a: IntegerField, o: Operand): (r: Result<int>)
    requires a.m > 0
    ensures r.Err? <==> Mismatch(a, o)
    ensures r.Ok? && o.Elem? ==> IsResidue(r.value, a.m, a.x * Val(o))
    ensures r.Ok? && o.Plain? ==> IsResidue(r.value, a.m, a.x - Val(o))
  {
    ModCongruent(a.x * Val(o), a.m);
    ModCongruent(a.x - Val(o), a.m);
    match o
    case Elem(b) =>
      var _ :- HasSameField(a, b);
      Ok((a.x * b.x) % a.m)
    case Plain(n) => Ok((a.x - n) % a.m)
  }

  /** `a * o` as evidently intended: the product for both kinds of operand. */
  function MulFixed(a: IntegerField, o: Operand): (r: Result<int>)
    requires a.m > 0
    ensures r.Err? <==> Mismatch(a, o)
    ensures r.Ok? ==> IsResidue(r.value, a.m, a.x * Val(o))
  {
    ModCongruent(a.x * Val(o), a.m);
    match o
    case Elem(b) =>
      var _ :- HasSameField(a, b);
      Ok((a.x * b.x) % a.m)
    case Plain(n) => Ok((a.x * n) % a.m)
  }

  /** `o * a` with o on the left; it delegates to `__mul__` with an int, so it
      inherits the defect of Mul's int branch. */
  function RMul(a: IntegerField, o: Operand): (r: Result<int>)
    requires a.m > 0
    ensures r.Ok? && IsResidue(r.value, a.m, a.x - Val(o))
  {
    match o
    case Elem(b) => Mul(a, Plain(b.x))
    case Plain(n) => Mul(a, Plain(n))
  }

  /** The functional counterpart of FindInverse. */
  function LeastInverse(a: IntegerField): (r: Option<IntegerField>)
    requires a.m > 0
    ensures r.Some? <==> a.m > 1 && Coprime(a.x, a.m)
    ensures r.Some? ==> r.value.m == a.m && 1 <= r.value.x < a.m && IsInverse(a.x, a.m, r.value.x)
  {
    match Inverse(a.x, a.m)
    case None => None
    case Some(i) => Some(IntegerField(i, a.m))
  }

  /** `find_inverse`: IntegerField(i, m) for the least i >= 1 with
      i * x = 1 (mod m); the source's -1 is None here. */
  method FindInverse(a: IntegerField) returns (r: Option<IntegerField>)
    requires a.m > 0
    ensures r.Some? <==> a.m > 1 && Coprime(a.x, a.m)
    ensures r.Some? ==> r.value.m == a.m && 1 <= r.value.x < a.m && IsInverse(a.x, a.m, r.value.x)
    ensures r.Some? ==> forall j :: 1 <= j < r.value.x ==> !IsInverse(a.x, a.m, j)
    ensures r == LeastInverse(a)
  {
    var i := ModArith.FindInverse(a.x, a.m);
    if i == -1 {
      r := None;
    } else {
      r := Some(IntegerField(i, a.m));
    }
  }

  /** `a / o`: a times the inverse of o; a missing inverse is NotInvertible
      (the source would read `.x` off the -1 sentinel). */
  function Div(a: IntegerField, o: Operand): (r: Result<int>)
    requires a.m > 0
    ensures r == Err(FieldMismatch) <==> Mismatch(a, o)
    ensures r.Ok? <==> !Mismatch(a, o) && a.m > 1 && Coprime(Val(o), a.m)
    ensures r.Ok? ==> 0 <= r.value < a.m && Congruent(r.value * Val(o), a.x, a.m)
  {
    var d :- match o
      case Elem(b) => (var _ :- HasSameField(a, b); Ok(b))
      case Plain(n) => Ok(IntegerField(n, a.m));
    ModCongruent(Val(o), a.m);
    match LeastInverse(d)
    case None => Err(NotInvertible)
    case Some(inv) =>
      CancelInverse(a.x, inv.x, d.x, Val(o), a.m);
      Ok((a.x * inv.x) % a.m)
  }

  /** `o / a` with o on the left: o times the inverse of a. */
  function RDiv(a: IntegerField, o: Operand): (r: Result<int>)
    requires a.m > 0
    ensures r == Err(FieldMismatch) <==> Mismatch(a, o)
    ensures r.Ok? <==> !Mismatch(a, o) && a.m > 1 && Coprime(a.x, a.m)
    ensures r.Ok? ==> 0 <= r.value < a.m && Congruent(r.value * a.x, Val(o), a.m)
  {
    var n :- match o
      case Elem(b) => (var _ :- HasSameField(a, b); Ok(b.x))
      case Plain(n) => Ok(n);
    match LeastInverse(a)
    case None => Err(NotInvertible)
    case Some(inv) =>
      ModCongruent(a.x, a.m);
      CancelInverse(n, inv.x, a.x, a.x, a.m);
      Ok((n * inv.x) % a.m)
  }

  /** `a ** e`: Python's pow(x, e, m), which refuses a negative exponent. */
  function Pow(a: IntegerField, e: int): (r: Result<int>)
    requires a.m > 0
    ensures r.Ok? <==> e >= 0
    ensures r.Ok? ==> IsResidue(r.value, a.m, Power(a.x, e))
  {
    if e < 0 then Err(NegativeExponent)
    else
      ModCongruent(Power(a.x, e), a.m);
      Ok(Power(a.x, e) % a.m)
  }

  // ---------------------------------------------------------------------
  // Properties

  /** Two residues of congruent numbers are equal. */
  lemma ResidueUnique(r: int, s: int, m: int, v: int, w: int)
    requires m > 0 && IsResidue(r, m, v) && IsResidue(s, m, w) && Congruent(v, w, m)
    ensures r == s
  {
    CongruentSameMod(r, v, m);
    CongruentSameMod(s, w, m);
    CongruentSameMod(v, w, m);
    ModUnique(r, m, 0, r);
    ModUnique(s, m, 0, s);
  }

  /** IntegerField and ModularInt compute the same residues for addition,
      although only ModularInt reduces x on construction. */
  lemma AddAgreesWithModularInt(x: int, m: int, n: int)
    requires m > 0
    ensures Add(IntegerField(x, m), Plain(n))
         == Ok(ModInt.Add(ModInt.New(x, m), ModInt.Plain(n)).value.x)
  {
    var a, b := IntegerField(x, m), ModInt.New(x, m);
    ModInt.NewCongruent(x, m);
    CongruentSymmetric(b.x, x, m);
    assert (x + n) - (b.x + n) == x - b.x;
    ResidueUnique(Add(a, Plain(n)).value, ModInt.Add(b, ModInt.Plain(n)).value.x, m,
      x + n, b.x + n);
  }

  /** Subtraction of an int agrees with ModularInt's, on either side. */
  lemma SubAgreesWithModularInt(x: int, m: int, n: int)
    requires m > 0
    ensures Sub(IntegerField(x, m), Plain(n))
         == Ok(ModInt.Sub(ModInt.New(x, m), ModInt.Plain(n)).value.x)
    ensures RSub(IntegerField(x, m), Plain(n))
         == Ok(ModInt.RSub(ModInt.New(x, m), ModInt.Plain(n)).value.x)
  {
    var a, b := IntegerField(x, m), ModInt.New(x, m);
    ModInt.NewCongruent(x, m);
    CongruentSymmetric(b.x, x, m);
    assert (x - n) - (b.x - n) == x - b.x;
    assert (n - x) - (n - b.x) == b.x - x;
    ResidueUnique(Sub(a, Plain(n)).value, ModInt.Sub(b, ModInt.Plain(n)).value.x, m,
      x - n, b.x - n);
    ResidueUnique(RSub(a, Plain(n)).value, ModInt.RSub(b, ModInt.Plain(n)).value.x, m,
      n - x, n - b.x);
  }

  /** The corrected multiplication agrees with ModularInt's. */
  lemma MulFixedAgreesWithModularInt(x: int, m: int, n: int)
    requires m > 0
    ensures MulFixed(IntegerField(x, m), Plain(n))
         == Ok(ModInt.Mul(ModInt.New(x, m), ModInt.Plain(n)).value.x)
  {
    var a, b := IntegerField(x, m), ModInt.New(x, m);
    ModInt.NewCongruent(x, m);
    CongruentSameMod(b.x, x, m);
    ModMulLeft(b.x, n, m);
    ModMulLeft(x, n, m);
    SameModCongruent(x * n, b.x * n, m);
    ResidueUnique(MulFixed(a, Plain(n)).value, ModInt.Mul(b, ModInt.Plain(n)).value.x, m,
      x * n, b.x * n);
  }

  /** Powers agree with ModularInt's. */
  lemma PowAgreesWithModularInt(x: int, m: int, e: nat)
    requires m > 0
    ensures Pow(IntegerField(x, m), e) == Ok(ModInt.Pow(ModInt.New(x, m), e).value.x)
  {
    var a, b := IntegerField(x, m), ModInt.New(x, m);
    ModInt.NewCongruent(x, m);
    CongruentSameMod(b.x, x, m);
    PowerOfResidue(x, e, m);
    PowerOfResidue(b.x, e, m);
    ModIdempotent(x, m);
    SameModCongruent(Power(x, e), Power(b.x, e), m);
    ResidueUnique(Pow(a, e).value, ModInt.Pow(b, e).value.x, m,
      Power(x, e), Power(b.x, e));
  }

  /** Division by an int agrees between the two classes as well. */
  lemma DivAgreesWithModularInt(x: int, m: int, n: int)
    requires m > 0
    ensures var a, b := IntegerField(x, m), ModInt.New(x, m);
      Div(a, Plain(n)).Ok? == ModInt.Div(b, ModInt.Plain(n)).Ok?
      && (Div(a, Plain(n)).Ok? ==> Div(a, Plain(n)).value == ModInt.Div(b, ModInt.Plain(n)).value.x)
  {
    var a, b := IntegerField(x, m), ModInt.New(x, m);
    ModInt.NewCongruent(n, m);
    InverseOfCongruent(ModInt.New(n, m).x, n, m);
    ModInt.NewCongruent(x, m);
    if Div(a, Plain(n)).Ok? {
      var i := Inverse(n, m).value;
      CongruentSameMod(b.x, x, m);
      ModMulLeft(b.x, i, m);
      ModMulLeft(x, i, m);
    }
  }

  /** field.py's `__mul__` with an int subtracts: IntegerField(5, 7) * 3 is
      (5 - 3) % 7 = 2 instead of 15 % 7 = 1, which MulFixed returns. */
  lemma MulByIntSubtracts()
    ensures Mul(IntegerField(5, 7), Plain(3)) == Ok(2)
    ensures MulFixed(IntegerField(5, 7), Plain(3)) == Ok(1) && (5 * 3) % 7 == 1
    ensures Mul(IntegerField(5, 7), Elem(IntegerField(3, 7))) == Ok(1)
  {
  }

  /** The unit tests of field_test.py, on five mod seven. */
  lemma TestVectors()
    ensures Add(IntegerField(5, 7), Plain(3)) == Ok(1)
    ensures RAdd(IntegerField(5, 7), Plain(3)) == Ok(1)
    ensures Sub(IntegerField(5, 7), Plain(2)) == Ok(3)
    ensures RSub(IntegerField(5, 7), Plain(7)) == Ok(2)
    ensures Div(IntegerField(5, 7), Plain(2)) == Ok((5 * 4) % 7)
    ensures Pow(IntegerField(5, 7), 3) == Ok(6)
  {
    assert Inverse(2, 7) == Some(4);
  }
}
