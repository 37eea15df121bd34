/** Integer matrices and `inverse_matrix` of encryption.py: the inverse of a
    key matrix over Z/mZ, computed as adjugate times the inverse of the
    determinant, with exact integer (Laplace) determinants. */
module Matrix {
  import opened Base
  import opened ModArith

  type Vector = seq<int>
  type Mat = seq<seq<int>>

  /** Every row has as many entries as there are rows. */
  predicate IsSquare(K: Mat) {
    forall i :: 0 <= i < |K| ==> |K[i]| == |K|
  }

  /** The index that position r takes once index i is removed. */
  function Skip(r: int, i: int): (k: int)
    ensures k != i && (k == r || k == r + 1)
  {
    if r < i then r else r + 1
  }

  /** The row without its entry j. */
  function RowWithout(row: Vector, j: int): (v: Vector)
    requires 0 <= j < |row|
    ensures |v| == |row| - 1 && forall c :: 0 <= c < |v| ==> v[c] == row[Skip(c, j)]
  {
    seq(|row| - 1, c requires 0 <= c < |row| - 1 => row[Skip(c, j)])
  }

  /** K without row i and column j. */
  function Minor(K: Mat, i: int, j: int): (M: Mat)
    requires IsSquare(K) && 0 <= i < |K| && 0 <= j < |K|
    ensures IsSquare(M) && |M| == |K| - 1
    ensures forall r, c :: 0 <= r < |M| && 0 <= c < |M| ==> M[r][c] == K[Skip(r, i)][Skip(c, j)]
  {
    seq(|K| - 1, r requires 0 <= r < |K| - 1 => RowWithout(K[Skip(r, i)], j))
  }

  /** (-1)^k * x. */
  function Signed(k: int, x: int): int {
    if k % 2 == 0 then x else -x
  }

  /** The exact determinant, by expansion along the first row. */
  function Det(K: Mat): int
    requires IsSquare(K)
    decreases |K|, 1, 0
  {
    if |K| == 0 then 1 else CofactorSum(K, 0)
  }

  /** The terms j, j+1, ... of the expansion of Det(K) along the first row. */
  function CofactorSum(K: Mat, j: int): int
    requires IsSquare(K) && 0 < |K| && 0 <= j <= |K|
    decreases |K|, 0, |K| - j
  {
    if j == |K| then 0
    else K[0][j] * Cofactor(K, 0, j) + CofactorSum(K, j + 1)
  }

  function Cofactor(K: Mat, i: int, j: int): int
    requires IsSquare(K) && 0 <= i < |K| && 0 <= j < |K|
    decreases |K|, 0, 0
  {
    Signed(i + j, Det(Minor(K, i, j)))
  }

  /** The transposed matrix of cofactors: K * Adjugate(K) = Det(K) * I. */
  function Adjugate(K: Mat): (A: Mat)
    requires IsSquare(K)
    ensures IsSquare(A) && |A| == |K|
  {
    seq(|K|, i requires 0 <= i < |K| =>
      seq(|K|, j requires 0 <= j < |K| => Cofactor(K, j, i)))
  }

  /** The n x n identity. */
  function Identity(n: nat): (I: Mat)
    ensures IsSquare(I) && |I| == n
  {
    seq(n, i => seq(n, j => if i == j then 1 else 0))
  }

  // ---------------------------------------------------------------------
  // Products

  function Dot(u: Vector, v: Vector): int
    requires |u| == |v|
  {
    if |u| == 0 then 0 else u[0] * v[0] + Dot(u[1..], v[1..])
  }

  /** Column j of a matrix whose rows all have more than j entries. */
  function Column(K: Mat, j: int): (c: Vector)
    requires 0 <= j && forall i :: 0 <= i < |K| ==> j < |K[i]|
    ensures |c| == |K| && forall i :: 0 <= i < |K| ==> c[i] == K[i][j]
  {
    seq(|K|, i requires 0 <= i < |K| => K[i][j])
  }

  /** numpy's `np.dot(K, v)` for a matrix and a column vector. */
  function MatVec(K: Mat, v: Vector): (w: Vector)
    requires forall i :: 0 <= i < |K| ==> |K[i]| == |v|
    ensures |w| == |K| && forall i :: 0 <= i < |K| ==> w[i] == Dot(K[i], v)
  {
    seq(|K|, i requires 0 <= i < |K| => Dot(K[i], v))
  }

  /** numpy's `np.dot(v, K)` for a row vector and a square matrix. */
  function VecMat(v: Vector, K: Mat): (w: Vector)
    requires IsSquare(K) && |v| == |K|
    ensures |w| == |K| && forall j :: 0 <= j < |K| ==> w[j] == Dot(v, Column(K, j))
  {
    seq(|K|, j requires 0 <= j < |K| => Dot(v, Column(K, j)))
  }

  function MatMul(A: Mat, B: Mat): (C: Mat)
    requires IsSquare(A) && IsSquare(B) && |A| == |B|
    ensures IsSquare(C) && |C| == |A|
    ensures forall i, j :: 0 <= i < |C| && 0 <= j < |C| ==> C[i][j] == Dot(A[i], Column(B, j))
  {
    seq(|A|, i requires 0 <= i < |A| => VecMat(A[i], B))
  }

  /** Every entry of A is congruent to the same entry of B. */
  predicate CongruentMat(A: Mat, B: Mat, m: int)
    requires m > 0 && IsSquare(A) && IsSquare(B) && |A| == |B|
  {
    forall i, j :: 0 <= i < |A| && 0 <= j < |A| ==> Congruent(A[i][j], B[i][j], m)
  }

  // ---------------------------------------------------------------------
  // The modular inverse

  /** Every entry multiplied by d and reduced modulo m. */
  function ScaleMod(A: Mat, d: int, m: int): (B: Mat)
    requires m > 0
    ensures |B| == |A| && forall i :: 0 <= i < |A| ==> |B[i]| == |A[i]|
    ensures forall i, j :: 0 <= i < |A| && 0 <= j < |A[i]| ==> B[i][j] == (A[i][j] * d) % m
  {
    seq(|A|, i requires 0 <= i < |A| =>
      seq(|A[i]|, j requires 0 <= j < |A[i]| => (A[i][j] * d) % m))
  }

  /** `inverse_matrix(K, m)`: each entry of the rational inverse Adj(K)/Det(K)
      taken modulo m, that is Adj(K) * Det(K)^-1 mod m. It fails when K is not
      square or Det(K) has no inverse modulo m. */
  function ModInverse(K: Mat, m: int): (r: Result<Mat>)
    requires m > 0
    ensures !IsSquare(K) ==> r == Err(NotSquare)
    ensures r.Ok? <==> IsSquare(K) && m > 1 && Coprime(Det(K), m)
    ensures r.Ok? ==> IsSquare(r.value) && |r.value| == |K|
    ensures r.Ok? ==> forall i, j :: 0 <= i < |K| && 0 <= j < |K| ==> 0 <= r.value[i][j] < m
  {
    if !IsSquare(K) then Err(NotSquare)
    else
      match Inverse(Det(K), m)
      case None => Err(NotInvertible)
      case Some(d) => Ok(ScaleMod(Adjugate(K), d, m))
  }

  /** Each entry of the inverse is the matching entry of the adjugate divided
      by the determinant in Z/mZ: entry * Det(K) = Adj(K) entry (mod m). This
      is what reducing the rational entry p/q to p * q^-1 mod m yields. */
  lemma ModInverseDividesAdjugate(K: Mat, m: int, i: int, j: int)
    requires m > 0 && ModInverse(K, m).Ok? && 0 <= i < |K| && 0 <= j < |K|
    ensures Congruent(ModInverse(K, m).value[i][j] * Det(K), Adjugate(K)[i][j], m)
  {
    var d := Inverse(Det(K), m).value;
    CancelInverse(Adjugate(K)[i][j], d, Det(K), Det(K), m);
  }

  /** The nested loops of `inverse_matrix` rewrite every entry of the
      rational inverse in place; here the array starts out holding the
      adjugate (the numerators over the common denominator Det(K)) and each
      entry is rewritten to entry * Det(K)^-1 mod m. */
  method InverseMatrix(K: Mat, m: int) returns (r: Result<Mat>)
    requires m > 0
    ensures r == ModInverse(K, m)
  {
    if !IsSquare(K) {
      return Err(NotSquare);
    }
    var n := |K|;
    var d := FindInverse(Det(K), m);
    if d == -1 {
      return Err(NotInvertible);
    }
    var A := Adjugate(K);
    var inv := new int[n, n]((i, j) requires 0 <= i < n && 0 <= j < n => A[i][j]);
    var i := 0;
    while i < n
      invariant 0 <= i <= n
      invariant forall a, b :: 0 <= a < n && 0 <= b < n ==>
        inv[a, b] == if a < i then (A[a][b] * d) % m else A[a][b]
    {
      var j := 0;
      while j < n
        invariant 0 <= j <= n
        invariant forall a, b :: 0 <= a < n && 0 <= b < n ==>
          inv[a, b] == if a < i || (a == i && b < j) then (A[a][b] * d) % m else A[a][b]
      {
        ModOfEqual(inv[i, j] * d, A[i][j] * d, m);
        inv[i, j] := (inv[i, j] * d) % m;
        j := j + 1;
      }
      i := i + 1;
    }
    var result := seq(n, a requires 0 <= a < n reads inv =>
      seq(n, b requires 0 <= b < n reads inv => inv[a, b]));
    ModInverseIs(K, m, d, result);
    r := Ok(result);
  }

  /** A matrix whose entries are the adjugate's times the least inverse d of
      the determinant, reduced, is the modular inverse. */
  lemma ModInverseIs(K: Mat, m: int, d: int, E: Mat)
    requires m > 0 && IsSquare(K) && Inverse(Det(K), m) == Some(d)
    requires |E| == |K| && forall a :: 0 <= a < |K| ==> |E[a]| == |K|
    requires forall a, b :: 0 <= a < |K| && 0 <= b < |K| ==> E[a][b] == (Adjugate(K)[a][b] * d) % m
    ensures ModInverse(K, m) == Ok(E)
  {
    var S := ScaleMod(Adjugate(K), d, m);
    forall a | 0 <= a < |K| ensures S[a] == E[a] {
      assert |S[a]| == |E[a]|;
    }
    assert S == E;
  }

  // ---------------------------------------------------------------------
  // The 2 x 2 case in closed form

  lemma Dot2(u: Vector, v: Vector)
    requires |u| == 2 && |v| == 2
    ensures Dot(u, v) == u[0] * v[0] + u[1] * v[1]
  {
    assert Dot(u[1..][1..], v[1..][1..]) == 0;
  }

  lemma Dot3(u: Vector, v: Vector)
    requires |u| == 3 && |v| == 3
    ensures Dot(u, v) == u[0] * v[0] + u[1] * v[1] + u[2] * v[2]
  {
    Dot2(u[1..], v[1..]);
  }

  lemma Det1(K: Mat)
    requires IsSquare(K) && |K| == 1
    ensures Det(K) == K[0][0]
  {
    assert Cofactor(K, 0, 0) == Det(Minor(K, 0, 0)) == 1;
    assert CofactorSum(K, 1) == 0;
    assert CofactorSum(K, 0) == K[0][0] * 1 + 0;
  }

  /** The cofactors of a 2 x 2 matrix are its entries, moved and signed. */
  lemma Cofactors2(K: Mat)
    requires IsSquare(K) && |K| == 2
    ensures Cofactor(K, 0, 0) == K[1][1] && Cofactor(K, 0, 1) == -K[1][0]
    ensures Cofactor(K, 1, 0) == -K[0][1] && Cofactor(K, 1, 1) == K[0][0]
  {
    var M00, M01, M10, M11 := Minor(K, 0, 0), Minor(K, 0, 1), Minor(K, 1, 0), Minor(K, 1, 1);
    Det1(M00);
    Det1(M01);
    Det1(M10);
    Det1(M11);
    assert M00[0][0] == K[1][1] && M01[0][0] == K[1][0];
    assert M10[0][0] == K[0][1] && M11[0][0] == K[0][0];
  }

  lemma Det2(K: Mat)
    requires IsSquare(K) && |K| == 2
    ensures Det(K) == K[0][0] * K[1][1] - K[0][1] * K[1][0]
  {
    Cofactors2(K);
    assert CofactorSum(K, 2) == 0;
    assert CofactorSum(K, 1) == K[0][1] * Cofactor(K, 0, 1) + CofactorSum(K, 2);
    assert CofactorSum(K, 0) == K[0][0] * Cofactor(K, 0, 0) + CofactorSum(K, 1);
    MulEqual(K[0][0], Cofactor(K, 0, 0), K[1][1]);
    MulEqual(K[0][1], Cofactor(K, 0, 1), -K[1][0]);
    assert Det(K) == CofactorSum(K, 0);
  }

  lemma Adjugate2(K: Mat)
    requires IsSquare(K) && |K| == 2
    ensures var A := Adjugate(K);
      A[0][0] == K[1][1] && A[0][1] == -K[0][1] && A[1][0] == -K[1][0] && A[1][1] == K[0][0]
  {
    Cofactors2(K);
  }

  /** An inverse that exists is the adjugate scaled by the least inverse
      of the determinant. */
  lemma ModInverseScaled(K: Mat, m: int)
    requires m > 0 && ModInverse(K, m).Ok?
    ensures IsSquare(K) && Inverse(Det(K), m).Some?
    ensures IsInverse(Det(K), m, Inverse(Det(K), m).value)
    ensures ModInverse(K, m).value == ScaleMod(Adjugate(K), Inverse(Det(K), m).value, m)
  {
  }

  /** The inverse of a 2 x 2 key in closed form. */
  lemma ModInverse2(K: Mat, m: int)
    requires m > 0 && IsSquare(K) && |K| == 2 && ModInverse(K, m).Ok?
    ensures Inverse(Det(K), m).Some?
    ensures var inv, d := ModInverse(K, m).value, Inverse(Det(K), m).value;
      |inv| == 2 && |inv[0]| == 2 && |inv[1]| == 2 &&
      inv[0][0] == (K[1][1] * d) % m && inv[0][1] == (-K[0][1] * d) % m &&
      inv[1][0] == (-K[1][0] * d) % m && inv[1][1] == (K[0][0] * d) % m
  {
    ModInverseScaled(K, m);
    Adjugate2(K);
    var A, d := Adjugate(K), Inverse(Det(K), m).value;
    ModOfEqual(A[0][0] * d, K[1][1] * d, m);
    ModOfEqual(A[0][1] * d, -K[0][1] * d, m);
    ModOfEqual(A[1][0] * d, -K[1][0] * d, m);
    ModOfEqual(A[1][1] * d, K[0][0] * d, m);
  }

  /** ModInverse of the 2 x 2 key [[a, b], [c, e]] whose determinant has the
      least inverse d is the matrix of the closed form. */
  lemma ModInverse2Of(K: Mat, m: int, d: int, E: Mat, a: int, b: int, c: int, e: int)
    requires m > 0 && K == [[a, b], [c, e]]
    requires Inverse(a * e - b * c, m) == Some(d)
    requires E == [[(e * d) % m, (-b * d) % m], [(-c * d) % m, (a * d) % m]]
    ensures ModInverse(K, m) == Ok(E)
  {
    assert K[0][0] == a && K[0][1] == b && K[1][0] == c && K[1][1] == e;
    Det2(K);
    assert Det(K) == a * e - b * c;
    ModInverse2(K, m);
    var inv := ModInverse(K, m).value;
    assert inv[0] == E[0] && inv[1] == E[1];
    assert inv == [inv[0], inv[1]];
  }

  lemma MatMul2(A: Mat, B: Mat)
    requires IsSquare(A) && IsSquare(B) && |A| == 2 && |B| == 2
    ensures var C := MatMul(A, B);
      C[0][0] == A[0][0] * B[0][0] + A[0][1] * B[1][0] && C[0][1] == A[0][0] * B[0][1] + A[0][1] * B[1][1] &&
      C[1][0] == A[1][0] * B[0][0] + A[1][1] * B[1][0] && C[1][1] == A[1][0] * B[0][1] + A[1][1] * B[1][1]
  {
    Dot2(A[0], Column(B, 0));
    Dot2(A[0], Column(B, 1));
    Dot2(A[1], Column(B, 0));
    Dot2(A[1], Column(B, 1));
  }

  /** One entry of a product of K = [[a, b], [c, e]] and its inverse:
      a * u + b * v = expected * det, with u and v scaled by det^-1. */
  lemma ProductEntry2(a: int, b: int, u: int, v: int, det: int, d: int, m: int, expected: int)
    requires m > 0 && (d * det) % m == 1
    requires a * u + b * v == expected * det
    ensures Congruent(a * ((u * d) % m) + b * ((v * d) % m), expected, m)
  {
    ModLinear(a, u * d, b, v * d, 0, m);
    assert a * (u * d) + b * (v * d) + 0 == (expected * det) * d;
    assert (expected * det) * d == expected * (d * det);
    ModMulRight(expected, d * det, m);
    SameModCongruent(a * ((u * d) % m) + b * ((v * d) % m), expected, m);
  }

  /** The same entry with the factors of each product swapped. */
  lemma ProductEntry2Left(a: int, b: int, u: int, v: int, det: int, d: int, m: int, expected: int)
    requires m > 0 && (d * det) % m == 1
    requires a * u + b * v == expected * det
    ensures Congruent(((u * d) % m) * a + ((v * d) % m) * b, expected, m)
  {
    ProductEntry2(a, b, u, v, det, d, m, expected);
    assert ((u * d) % m) * a + ((v * d) % m) * b == a * ((u * d) % m) + b * ((v * d) % m);
  }

  /** The four entries of K * ModInverse(K) for K = [[a, b], [c, e]], whose
      inverse is [[p, q], [r, s]]. */
  lemma RightInverseEntries2(a: int, b: int, c: int, e: int, d: int, m: int, p: int, q: int, r: int, s: int)
    requires m > 0 && IsInverse(a * e - b * c, m, d)
    requires p == (e * d) % m && q == (-b * d) % m && r == (-c * d) % m && s == (a * d) % m
    ensures Congruent(a * p + b * r, 1, m) && Congruent(a * q + b * s, 0, m)
    ensures Congruent(c * p + e * r, 0, m) && Congruent(c * q + e * s, 1, m)
  {
    var det := a * e - b * c;
    assert a * e + b * -c == 1 * det;
    assert a * -b + b * a == 0 * det;
    assert c * e + e * -c == 0 * det;
    assert c * -b + e * a == 1 * det;
    ProductEntry2(a, b, e, -c, det, d, m, 1);
    ProductEntry2(a, b, -b, a, det, d, m, 0);
    ProductEntry2(c, e, e, -c, det, d, m, 0);
    ProductEntry2(c, e, -b, a, det, d, m, 1);
  }

  /** A 2 x 2 matrix congruent to the identity entry by entry. */
  lemma CongruentIdentity2(P: Mat, m: int, w: int, x: int, y: int, z: int)
    requires m > 0 && IsSquare(P) && |P| == 2
    requires P[0][0] == w && P[0][1] == x && P[1][0] == y && P[1][1] == z
    requires Congruent(w, 1, m) && Congruent(x, 0, m) && Congruent(y, 0, m) && Congruent(z, 1, m)
    ensures CongruentMat(P, Identity(2), m)
  {
    var I := Identity(2);
    assert I[0][0] == 1 && I[0][1] == 0 && I[1][0] == 0 && I[1][1] == 1;
  }

  /** K times (or by) the closed-form inverse inv, given the inverse d of
      the determinant. */
  lemma RightInverseOf2(K: Mat, inv: Mat, d: int, m: int)
    requires m > 0 && IsSquare(K) && |K| == 2 && IsSquare(inv) && |inv| == 2
    requires IsInverse(K[0][0] * K[1][1] - K[0][1] * K[1][0], m, d)
    requires inv[0][0] == (K[1][1] * d) % m && inv[0][1] == (-K[0][1] * d) % m
    requires inv[1][0] == (-K[1][0] * d) % m && inv[1][1] == (K[0][0] * d) % m
    ensures CongruentMat(MatMul(K, inv), Identity(2), m)
  {
    var a, b, c, e := K[0][0], K[0][1], K[1][0], K[1][1];
    var p, q, r, s := inv[0][0], inv[0][1], inv[1][0], inv[1][1];
    RightInverseEntries2(a, b, c, e, d, m, p, q, r, s);
    MatMul2(K, inv);
    CongruentIdentity2(MatMul(K, inv), m, a * p + b * r, a * q + b * s, c * p + e * r, c * q + e * s);
  }

  /** For an invertible 2 x 2 key K, K * ModInverse(K) = I (mod m). */
  lemma RightInverse2(K: Mat, m: int)
    requires m > 0 && IsSquare(K) && |K| == 2 && ModInverse(K, m).Ok?
    ensures CongruentMat(MatMul(K, ModInverse(K, m).value), Identity(2), m)
  {
    ModInverseScaled(K, m);
    Det2(K);
    ModInverse2(K, m);
    RightInverseOf2(K, ModInverse(K, m).value, Inverse(Det(K), m).value, m);
  }

  /** The four entries of ModInverse(K) * K for K = [[a, b], [c, e]], whose
      inverse is [[p, q], [r, s]]. */
  lemma LeftInverseEntries2(a: int, b: int, c: int, e: int, d: int, m: int, p: int, q: int, r: int, s: int)
    requires m > 0 && IsInverse(a * e - b * c, m, d)
    requires p == (e * d) % m && q == (-b * d) % m && r == (-c * d) % m && s == (a * d) % m
    ensures Congruent(p * a + q * c, 1, m) && Congruent(p * b + q * e, 0, m)
    ensures Congruent(r * a + s * c, 0, m) && Congruent(r * b + s * e, 1, m)
  {
    var det := a * e - b * c;
    assert a * e + c * -b == 1 * det;
    assert b * e + e * -b == 0 * det;
    assert a * -c + c * a == 0 * det;
    assert b * -c + e * a == 1 * det;
    ProductEntry2Left(a, c, e, -b, det, d, m, 1);
    ProductEntry2Left(b, e, e, -b, det, d, m, 0);
    ProductEntry2Left(a, c, -c, a, det, d, m, 0);
    ProductEntry2Left(b, e, -c, a, det, d, m, 1);
  }

  /** K times (or by) the closed-form inverse inv, given the inverse d of
      the determinant. */
  lemma LeftInverseOf2(K: Mat, inv: Mat, d: int, m: int)
    requires m > 0 && IsSquare(K) && |K| == 2 && IsSquare(inv) && |inv| == 2
    requires IsInverse(K[0][0] * K[1][1] - K[0][1] * K[1][0], m, d)
    requires inv[0][0] == (K[1][1] * d) % m && inv[0][1] == (-K[0][1] * d) % m
    requires inv[1][0] == (-K[1][0] * d) % m && inv[1][1] == (K[0][0] * d) % m
    ensures CongruentMat(MatMul(inv, K), Identity(2), m)
  {
    var a, b, c, e := K[0][0], K[0][1], K[1][0], K[1][1];
    var p, q, r, s := inv[0][0], inv[0][1], inv[1][0], inv[1][1];
    LeftInverseEntries2(a, b, c, e, d, m, p, q, r, s);
    MatMul2(inv, K);
    CongruentIdentity2(MatMul(inv, K), m, p * a + q * c, p * b + q * e, r * a + s * c, r * b + s * e);
  }

  /** For an invertible 2 x 2 key K, ModInverse(K) * K = I (mod m). */
  lemma LeftInverse2(K: Mat, m: int)
    requires m > 0 && IsSquare(K) && |K| == 2 && ModInverse(K, m).Ok?
    ensures CongruentMat(MatMul(ModInverse(K, m).value, K), Identity(2), m)
  {
    ModInverseScaled(K, m);
    Det2(K);
    ModInverse2(K, m);
    LeftInverseOf2(K, ModInverse(K, m).value, Inverse(Det(K), m).value, m);
  }

  // ---------------------------------------------------------------------
  // Test vectors

  /** The 2 x 2 key K = [[5, 5], [5, 8]] of the Hill cipher examples, modulo
      29: its determinant 15 has the inverse 2. */
  lemma InverseTestVector2(K: Mat)
    requires K == [[5, 5], [5, 8]]
    ensures ModInverse(K, 29) == Ok([[16, 19], [19, 10]])
  {
    assert IsInverse(15, 29, 2);
    assert Inverse(15, 29) == Some(2);
    ModInverse2Of(K, 29, 2, [[16, 19], [19, 10]], 5, 5, 5, 8);
  }

  // ---------------------------------------------------------------------
  // The 3 x 3 case in closed form

  /** The cofactor (i, j) of a 3 x 3 matrix written out: the signed
      determinant of the 2 x 2 matrix left when row i and column j are
      struck out. */
  function Cofactor3Value(K: Mat, i: int, j: int): int
    requires IsSquare(K) && |K| == 3 && 0 <= i < 3 && 0 <= j < 3
  {
    var r0, r1 := (if i == 0 then 1 else 0), (if i == 2 then 1 else 2);
    var c0, c1 := (if j == 0 then 1 else 0), (if j == 2 then 1 else 2);
    Signed(i + j, K[r0][c0] * K[r1][c1] - K[r0][c1] * K[r1][c0])
  }

  lemma Cofactor3(K: Mat, i: int, j: int)
    requires IsSquare(K) && |K| == 3 && 0 <= i < 3 && 0 <= j < 3
    ensures Cofactor(K, i, j) == Cofactor3Value(K, i, j)
  {
    var M := Minor(K, i, j);
    Det2(M);
  }

  /** The expansion of a 3 x 3 determinant along its first row. */
  lemma Det3(K: Mat)
    requires IsSquare(K) && |K| == 3
    ensures Det(K) == K[0][0] * Cofactor(K, 0, 0) + K[0][1] * Cofactor(K, 0, 1) + K[0][2] * Cofactor(K, 0, 2)
  {
    var s0, s1, s2 := K[0][0] * Cofactor(K, 0, 0), K[0][1] * Cofactor(K, 0, 1), K[0][2] * Cofactor(K, 0, 2);
    assert CofactorSum(K, 3) == 0;
    assert CofactorSum(K, 2) == s2 + 0;
    assert CofactorSum(K, 1) == s1 + s2;
    assert Det(K) == CofactorSum(K, 0) == s0 + (s1 + s2);
  }

  /** The rule of Sarrus, as an identity over the integers. */
  lemma Sarrus(a: int, b: int, c: int, d: int, e: int, f: int, g: int, h: int, k: int, c0: int, c1: int, c2: int)
    requires c0 == e * k - f * h && c1 == -(d * k - f * g) && c2 == d * h - e * g
    ensures a * c0 + b * c1 + c * c2 == a * e * k + b * f * g + c * d * h - c * e * g - b * d * k - a * f * h
  {
  }

  /** The determinant of a 3 x 3 matrix by the rule of Sarrus. */
  lemma Det3Entries(K: Mat, a: int, b: int, c: int, d: int, e: int, f: int, g: int, h: int, k: int)
    requires K == [[a, b, c], [d, e, f], [g, h, k]]
    ensures Det(K) == a * e * k + b * f * g + c * d * h - c * e * g - b * d * k - a * f * h
  {
    assert K[0] == [a, b, c] && K[1] == [d, e, f] && K[2] == [g, h, k];
    Det3(K);
    Cofactor3(K, 0, 0);
    Cofactor3(K, 0, 1);
    Cofactor3(K, 0, 2);
    Sarrus(a, b, c, d, e, f, g, h, k, Cofactor(K, 0, 0), Cofactor(K, 0, 1), Cofactor(K, 0, 2));
  }

  /** Row i of the adjugate of a 3 x 3 matrix holds the cofactors of its
      column i. */
  lemma Adjugate3Row(K: Mat, i: int)
    requires IsSquare(K) && |K| == 3 && 0 <= i < 3
    ensures |Adjugate(K)[i]| == 3
    ensures Adjugate(K)[i] == [Cofactor3Value(K, 0, i), Cofactor3Value(K, 1, i), Cofactor3Value(K, 2, i)]
  {
    var r := Adjugate(K)[i];
    Cofactor3(K, 0, i);
    Cofactor3(K, 1, i);
    Cofactor3(K, 2, i);
    assert r == [r[0], r[1], r[2]];
  }

  /** A matrix A holding the cofactors of K, transposed, is its adjugate. */
  lemma Adjugate3Of(K: Mat, A: Mat)
    requires IsSquare(K) && |K| == 3 && |A| == 3
    requires A[0] == [Cofactor3Value(K, 0, 0), Cofactor3Value(K, 1, 0), Cofactor3Value(K, 2, 0)]
    requires A[1] == [Cofactor3Value(K, 0, 1), Cofactor3Value(K, 1, 1), Cofactor3Value(K, 2, 1)]
    requires A[2] == [Cofactor3Value(K, 0, 2), Cofactor3Value(K, 1, 2), Cofactor3Value(K, 2, 2)]
    ensures Adjugate(K) == A
  {
    var B := Adjugate(K);
    Adjugate3Row(K, 0);
    Adjugate3Row(K, 1);
    Adjugate3Row(K, 2);
    assert B == [B[0], B[1], B[2]];
    assert A == [A[0], A[1], A[2]];
  }

  /** ScaleMod on a 3 x 3 matrix given by its entries. */
  lemma ScaleMod3Of(A: Mat, d: int, m: int, E: Mat,
                    a00: int, a01: int, a02: int, a10: int, a11: int, a12: int, a20: int, a21: int, a22: int)
    requires m > 0 && A == [[a00, a01, a02], [a10, a11, a12], [a20, a21, a22]]
    requires E == [[(a00 * d) % m, (a01 * d) % m, (a02 * d) % m],
                   [(a10 * d) % m, (a11 * d) % m, (a12 * d) % m],
                   [(a20 * d) % m, (a21 * d) % m, (a22 * d) % m]]
    ensures ScaleMod(A, d, m) == E
  {
    var B := ScaleMod(A, d, m);
    assert B[0] == E[0] && B[1] == E[1] && B[2] == E[2];
    assert B == [B[0], B[1], B[2]];
  }

  /** ModInverse is the scaled adjugate once both are known. */
  lemma ModInverseOf(K: Mat, m: int, A: Mat, d: int, E: Mat)
    requires m > 0 && IsSquare(K) && Adjugate(K) == A && Inverse(Det(K), m) == Some(d)
    requires ScaleMod(A, d, m) == E
    ensures ModInverse(K, m) == Ok(E)
  {
  }

  /** Entry (i, j) of the product of two 3 x 3 matrices, written out. */
  function Entry3(A: Mat, B: Mat, i: int, j: int): int
    requires IsSquare(A) && IsSquare(B) && |A| == 3 && |B| == 3 && 0 <= i < 3 && 0 <= j < 3
  {
    A[i][0] * B[0][j] + A[i][1] * B[1][j] + A[i][2] * B[2][j]
  }

  /** Row i of the product of two 3 x 3 matrices. */
  lemma MatMul3Row(A: Mat, B: Mat, i: int)
    requires IsSquare(A) && IsSquare(B) && |A| == 3 && |B| == 3 && 0 <= i < 3
    ensures MatMul(A, B)[i] == [Entry3(A, B, i, 0), Entry3(A, B, i, 1), Entry3(A, B, i, 2)]
  {
    var r := MatMul(A, B)[i];
    Dot3(A[i], Column(B, 0));
    Dot3(A[i], Column(B, 1));
    Dot3(A[i], Column(B, 2));
    assert r == [r[0], r[1], r[2]];
  }

  /** The product of two 3 x 3 matrices, row by row. */
  lemma MatMul3Of(A: Mat, B: Mat, P: Mat)
    requires IsSquare(A) && IsSquare(B) && |A| == 3 && |B| == 3 && |P| == 3
    requires P[0] == [Entry3(A, B, 0, 0), Entry3(A, B, 0, 1), Entry3(A, B, 0, 2)]
    requires P[1] == [Entry3(A, B, 1, 0), Entry3(A, B, 1, 1), Entry3(A, B, 1, 2)]
    requires P[2] == [Entry3(A, B, 2, 0), Entry3(A, B, 2, 1), Entry3(A, B, 2, 2)]
    ensures MatMul(A, B) == P
  {
    var C := MatMul(A, B);
    MatMul3Row(A, B, 0);
    MatMul3Row(A, B, 1);
    MatMul3Row(A, B, 2);
    assert C == [C[0], C[1], C[2]];
    assert P == [P[0], P[1], P[2]];
  }

  // ---------------------------------------------------------------------
  // The 3 x 3 test vector

  /** The key K = [[1, 2, 3], [0, 2, 1], [0, 3, 4]] of the examples has
      determinant 5, whose inverse modulo 7 is 3. */
  lemma Key3Det(K: Mat)
    requires K == [[1, 2, 3], [0, 2, 1], [0, 3, 4]]
    ensures Det(K) == 5
  {
    Det3Entries(K, 1, 2, 3, 0, 2, 1, 0, 3, 4);
  }

  lemma Key3Adjugate(K: Mat)
    requires K == [[1, 2, 3], [0, 2, 1], [0, 3, 4]]
    ensures Adjugate(K) == [[5, 1, -4], [0, 4, -1], [0, -3, 2]]
  {
    Adjugate3Of(K, [[5, 1, -4], [0, 4, -1], [0, -3, 2]]);
  }

  lemma InverseTestVector3(K: Mat)
    requires K == [[1, 2, 3], [0, 2, 1], [0, 3, 4]]
    ensures ModInverse(K, 7) == Ok([[1, 3, 2], [0, 5, 4], [0, 5, 6]])
  {
    var A: Mat := [[5, 1, -4], [0, 4, -1], [0, -3, 2]];
    var E: Mat := [[1, 3, 2], [0, 5, 4], [0, 5, 6]];
    Key3Det(K);
    Key3Adjugate(K);
    assert IsInverse(5, 7, 3);
    assert Inverse(5, 7) == Some(3);
    ScaleMod3Of(A, 3, 7, E, 5, 1, -4, 0, 4, -1, 0, -3, 2);
    ModInverseOf(K, 7, A, 3, E);
  }

  /** The key of the examples times its inverse, over the integers. */
  lemma Key3Product(K: Mat, E: Mat)
    requires K == [[1, 2, 3], [0, 2, 1], [0, 3, 4]] && E == [[1, 3, 2], [0, 5, 4], [0, 5, 6]]
    ensures MatMul(K, E) == [[1, 28, 28], [0, 15, 14], [0, 35, 36]]
  {
    MatMul3Of(K, E, [[1, 28, 28], [0, 15, 14], [0, 35, 36]]);
  }

  /** The 3 x 3 inverse of the examples, checked by multiplying it out. */
  lemma InverseTestVector3Product(K: Mat, E: Mat)
    requires K == [[1, 2, 3], [0, 2, 1], [0, 3, 4]] && E == [[1, 3, 2], [0, 5, 4], [0, 5, 6]]
    ensures CongruentMat(MatMul(K, E), Identity(3), 7)
  {
    Key3Product(K, E);
    var P: Mat := [[1, 28, 28], [0, 15, 14], [0, 35, 36]];
    var I := Identity(3);
    assert I[0] == [1, 0, 0] && I[1] == [0, 1, 0] && I[2] == [0, 0, 1];
    assert forall i, j :: 0 <= i < 3 && 0 <= j < 3 ==> (P[i][j] - I[i][j]) % 7 == 0;
  }
}
