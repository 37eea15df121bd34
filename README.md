# Classical ciphers over the integers modulo m

This project is a Dafny model of a small teaching library of classical
ciphers (Caesar, Vigenère, one-time pad, affine/Hill) together with its two
"integer modulo m" number classes. The model covers three files:

- `encryption.py`. It has the letter tables for alphabets of 26 and 29
  symbols and `convert_message` between numbers and letters. It has
  Caesar, Vigenère and affine encryption and decryption. It pads a
  Vigenère key to the length of the message. It searches for an inverse
  modulo m (`find_inverse`) and builds a matrix inverse modulo m
  (`inverse_matrix`).
- `mod_int.py`. The class `ModularInt` is an integer modulo m whose
  operators return new `ModularInt` values.
- `field.py`. The class `IntegerField` is the same idea, but its operators
  return plain integers in [0, m).

The modules follow that structure:

- `Base` holds `Option`, `Result` and the error kinds. Each error kind
  stands for an exception the source raises.
- `ModArith` covers congruences, gcd, Bézout and the inverse search.
- `ModInt` and `Field` model the two classes.
- `Matrix` covers determinants, adjugates, products and `inverse_matrix`.
- `Codec` covers the tables and `convert_message`.
- `Cipher` holds the ciphers.

No source object is ever changed after it is built: every operator returns
a new value. So both classes are datatypes, and their operators are
functions.

numpy arrays are sequences. Broadcasting of a one-element array is written
out (`Cipher.Broadcast`). Python's `%` with a positive modulus agrees with
Dafny's `%`, so residues need no adjustment. Exceptions become `Err`
values: a missing dictionary key, a wrong table type, a modulo by zero, a
field mismatch, a negative power, a non-invertible determinant and
mismatched array shapes.

The search loop of `find_inverse` is a `method` with a loop invariant. It
is proved against the function `ModArith.Inverse`, which characterises the
least inverse. `inverse_matrix` is a method with a double loop over the
entries, proved against `Matrix.ModInverse`.

## Model

| member | source | states |
|---|---|---|
| ModArith.Inverse | encryption.py:90-96 | an inverse of x modulo m exists exactly when m > 1 and gcd(x, m) = 1; the one returned is in [1, m), is an inverse and is the least one |
| ModArith.InverseExistsIffCoprime | encryption.py:90-96 | some y in [1, m) satisfies y·x ≡ 1 (mod m) if and only if m > 1 and x is coprime to m (both directions) |
| ModArith.FindInverse | encryption.py:90-96 | the search loop returns -1 exactly when x has no inverse modulo m, and otherwise the least i ≥ 1 with i·x ≡ 1 (mod m); it agrees with `Inverse` |
| ModArith.InverseFrom | encryption.py:92-96 | a search starting at i returns the least inverse in [i, m) when there is one, and none exactly when [i, m) holds no inverse |
| ModArith.InverseOfCongruent | encryption.py:90-96 | congruent numbers have the same least inverse, so reducing x first changes nothing |
| ModArith.InverseTestVectors | encryption_test.py:58-64 | the inverse of 15 modulo 29 is 2, and 2 has none modulo 6 |
| ModArith.ExtGcd | encryption.py:90-96 | Bézout coefficients: s·a + t·b = gcd(a, b); this is the witness that a coprime x has an inverse |
| ModArith.GcdDivides | encryption.py:90-96 | gcd(a, b) is positive and divides both a and b; a common divisor of x and m rules out an inverse |
| ModArith.PowerOfResidue | mod_int.py:119-123 | a power's residue depends only on the base's residue |
| ModInt.New | mod_int.py:13-16 | the constructor keeps x when x < m, and otherwise stores the residue of x; the modulus is kept |
| ModInt.HasSameField | mod_int.py:18-28 | a ModularInt with another modulus raises; a ModularInt with the same modulus answers true; a plain int gives no answer (false) |
| ModInt.Add | mod_int.py:39-45 | the sum is the residue of x + other (other a ModularInt of the same modulus or an int); a different modulus is an error |
| ModInt.RAdd | mod_int.py:47-53 | `other + a` is the residue of other + x and never fails |
| ModInt.Sub | mod_int.py:55-61 | the residue of x − other; a different modulus is an error |
| ModInt.RSub | mod_int.py:63-69 | the residue of other − x; a different modulus is an error |
| ModInt.Mul | mod_int.py:71-77 | the residue of x · other; a different modulus is an error |
| ModInt.RMul | mod_int.py:79-85 | the residue of x · other; it never fails |
| ModInt.FindInverse | mod_int.py:30-37 | the search loop returns the least inverse of x as a ModularInt exactly when one exists, and nothing otherwise |
| ModInt.Div | mod_int.py:87-99 | fails with a field mismatch exactly on a different modulus; otherwise it succeeds exactly when the divisor is invertible; the quotient q is a residue with q·other ≡ x |
| ModInt.RDiv | mod_int.py:101-111 | `other / a` fails with a field mismatch exactly on a different modulus; otherwise it succeeds exactly when x is invertible; q·x ≡ other |
| ModInt.Pow | mod_int.py:119-123 | succeeds exactly for e ≥ 0, with the residue of x to the power e |
| ModInt.Eq | mod_int.py:131-137 | compares the stored numbers; a different modulus is an error |
| ModInt.Ne | mod_int.py:139-140 | the negation of `Eq` on the stored numbers |
| ModInt.Lt | mod_int.py:142-148 | x < other on the stored numbers; a different modulus is an error |
| ModInt.Le | mod_int.py:150-154 | x ≤ other; a different modulus is an error |
| ModInt.Gt | mod_int.py:156-160 | x > other; a different modulus is an error |
| ModInt.Ge | mod_int.py:162-166 | x ≥ other; a different modulus is an error |
| ModInt.ComparisonsAgree | mod_int.py:131-166 | `>` is the negation of `<=`, `>=` is `>` or `==`, and `!=` is the negation of `==` |
| ModInt.EqIsNotCongruence | mod_int.py:131-137 | equality is not congruence: 5 ≡ 12 (mod 7), yet ModularInt(5, 7) == 12 is false |
| ModInt.PlainAddAsModularInt | mod_int.py:39-45 | adding an int n gives the same result as adding ModularInt(n, m) |
| ModInt.PlainSubAsModularInt | mod_int.py:55-61 | subtracting an int n gives the same result as subtracting ModularInt(n, m) |
| ModInt.PlainMulAsModularInt | mod_int.py:71-77 | multiplying by an int n gives the same result as multiplying by ModularInt(n, m) |
| ModInt.DivThenMul | mod_int.py:87-99 | division is undone by multiplication: (a / o) · o == a for a reduced a |
| ModInt.SubUndoesAdd | mod_int.py:39-61 | subtraction is undone by addition: (a + o) − o == a for a reduced a |
| ModInt.PowSucc | mod_int.py:119-123 | a ** (e + 1) == (a ** e) · a |
| ModInt.OperandInverse | mod_int.py:92-97 | the divisor the source builds from an int n is congruent to n and has the same gcd with m |
| ModInt.TestVectors | mod_int_test.py:18-67 | the values the unit tests expect for +, −, ·, /, ** on ModularInt(5, 7) |
| Field.HasSameField | field.py:18-23 | true for the same modulus, an error otherwise |
| Field.Add | field.py:34-40 | the residue of x + other; a different modulus is an error |
| Field.RAdd | field.py:42-48 | the residue of other + x; the modulus is never checked, so it never fails |
| Field.Sub | field.py:50-56 | the residue of x − other; a different modulus is an error |
| Field.RSub | field.py:58-64 | the residue of other − x; a different modulus is an error |
| Field.Mul | field.py:66-72 | as written: the residue of x · other for an IntegerField, but of x − n for an int n |
| Field.MulFixed | field.py:66-72 | corrected multiplication: the residue of x · other for both kinds of operand |
| Field.RMul | field.py:74-80 | as written: `other * a` goes through the int branch of `__mul__`, so it gives the residue of x − other |
| Field.FindInverse | field.py:25-32 | the search loop returns the least inverse as an IntegerField exactly when one exists |
| Field.Div | field.py:82-94 | fails with a field mismatch exactly on a different modulus; otherwise succeeds exactly when the divisor is invertible, with q·other ≡ x and q in [0, m) |
| Field.RDiv | field.py:96-106 | succeeds exactly when x is invertible (same modulus), with q·x ≡ other and q in [0, m) |
| Field.Pow | field.py:114-118 | succeeds exactly for e ≥ 0, with the residue of x to the power e |
| Field.AddAgreesWithModularInt | field.py:34-40 | IntegerField addition of an int equals ModularInt addition on the stored residue |
| Field.SubAgreesWithModularInt | field.py:50-64 | IntegerField subtraction (both sides) equals ModularInt subtraction on the stored residue |
| Field.MulFixedAgreesWithModularInt | field.py:66-72 | the corrected multiplication by an int equals ModularInt multiplication |
| Field.PowAgreesWithModularInt | field.py:114-118 | IntegerField powers equal ModularInt powers |
| Field.DivAgreesWithModularInt | field.py:82-94 | IntegerField division by an int succeeds exactly when ModularInt division does, with the same value |
| Field.MulByIntSubtracts | field.py:66-72 | IntegerField(5, 7) * 3 gives 2, yet 5·3 ≡ 1 (mod 7); the corrected form gives 1, as does multiplying by IntegerField(3, 7) |
| Field.TestVectors | field_test.py:18-34 | the values the unit tests expect on IntegerField(5, 7) |
| Matrix.Minor | encryption.py:102-103 | the minor deletes row i and column j and keeps the other entries in order |
| Matrix.MatMul | encryption.py:78 | entry (i, j) of a product is row i dotted with column j |
| Matrix.ModInverse | encryption.py:98-110 | a non-square matrix is an error; otherwise the inverse exists exactly when m > 1 and det K is coprime to m; it is square, of K's size, with entries in [0, m) |
| Matrix.ModInverseDividesAdjugate | encryption.py:103-109 | each entry times det K is congruent to the adjugate's entry: the entry is adj/det reduced modulo m |
| Matrix.InverseMatrix | encryption.py:98-110 | the double loop over the entries yields exactly `ModInverse` |
| Matrix.Det2 | encryption.py:103 | a 2×2 determinant is ad − bc |
| Matrix.Det3Entries | encryption.py:103 | a 3×3 determinant is the rule of Sarrus |
| Matrix.RightInverse2 | encryption.py:98-110 | for every 2×2 K with an inverse modulo m, K · inverse ≡ I (mod m) |
| Matrix.LeftInverse2 | encryption.py:98-110 | for every 2×2 K with an inverse modulo m, inverse · K ≡ I (mod m) |
| Matrix.InverseTestVector2 | encryption_test.py:46-50 | [[5,5],[5,8]] modulo 29 has inverse [[16,19],[19,10]] |
| Matrix.InverseTestVector3 | encryption_test.py:52-56 | [[1,2,3],[0,2,1],[0,3,4]] modulo 7 has inverse [[1,3,2],[0,5,4],[0,5,6]] |
| Matrix.InverseTestVector3Product | encryption_test.py:52-56 | that 3×3 key times its inverse is congruent to I modulo 7 |
| Codec.AlphabetStrings | encryption.py:15-19 | the mod 26 string is "A".."Z", and the mod 29 string is "A".."Z" followed by "_?!" |
| Codec.InverseTables | encryption.py:17-20 | each inverse table maps every letter of its string to the letter's position and holds no other key |
| Codec.InverseOf | encryption.py:17-20 | the reverse table maps every letter of a table to its position when the letters are distinct, and has no other keys |
| Codec.LettersDistinct | encryption.py:15-20 | both alphabets (26 letters, and 26 letters plus `_?!`) have distinct letters |
| Codec.ToLetters | encryption.py:29-31 | numbers to letters: fails exactly when some number is outside the table's index range (negative indices count from the end, as in Python); otherwise letter i is the table's entry for number i |
| Codec.LookUp | encryption.py:35 | letters to numbers: fails exactly when some letter is not a key; otherwise number i is the entry for letter i |
| Codec.LookUpAppend | encryption.py:35 | looking up a concatenation concatenates the two lookups |
| Codec.ToNumbers | encryption.py:32-36 | the reverse conversion refuses a table keyed by numbers and otherwise looks the letters up |
| Codec.NumbersRoundTrip | encryption.py:22-36 | numbers in range, converted to letters and back, are unchanged |
| Codec.LettersRoundTrip | encryption.py:22-36 | letters of the table, converted to numbers and back, are unchanged |
| Codec.ConvertTestVectors | encryption_test.py:73-83 | [15,11,20,12] spells "PLUM", and back |
| Cipher.Broadcast | encryption.py:39 | numpy `u ± v`: equal lengths or a one-element operand, entry by entry; other shapes are an error |
| Cipher.CaesarEncrypt | encryption.py:38-40 | letter i is the table's entry for (m[i] + k) mod `mod`, for one shift or one shift per letter |
| Cipher.CaesarDecrypt | encryption.py:42-44 | letter i is the table's entry for (m[i] − k) mod `mod` |
| Cipher.CaesarRoundTrip | encryption.py:38-44 | converting a Caesar encryption back to numbers and decrypting it with the same shifts gives back the message |
| Cipher.StripSpaces | encryption.py:55 | the result has no spaces and keeps every other character, with the same multiplicity |
| Cipher.StripSpacesAppend | encryption.py:55 | stripping a concatenation strips each part |
| Cipher.PadKey | encryption.py:112-131 | a zero key length is a modulo-by-zero error; a key that does not convert propagates its error; otherwise the result has the message's length, and entry i is key number i mod |key| |
| Cipher.CopiesCover | encryption.py:121-124 | the repeat count is the least number of key copies that covers the message |
| Cipher.PadKeyPrefix | encryption.py:112-131 | a key at least as long as the message (a one-time pad) is used as it stands, cut to the message's length |
| Cipher.VigenereEncrypt | encryption.py:46-58 | the key is stripped of spaces; an empty key is the modulo-by-zero error; a key letter missing from the inverse table is that lookup error; otherwise letter i of the cipher is m[i] shifted forward by key number i mod the key length, modulo 26 whatever `mod` is |
| Cipher.VigenereDecrypt | encryption.py:60-68 | the same error cases; otherwise letter i is m[i] shifted back by key number i mod the key length, modulo 26 |
| Cipher.VigenereEncryptIsCaesar | encryption.py:46-58 | Vigenère encryption is Caesar encryption modulo 26 by the padded key, whatever `mod` is passed |
| Cipher.VigenereRoundTrip | encryption.py:46-68 | decrypting a Vigenère encryption (converted back to numbers) with the same key gives back the message |
| Cipher.ShiftedByLongKey | encryption.py:112-131 | a key longer than the message never wraps around: message letter i is shifted by key letter i |
| Cipher.AffineEncrypt | encryption.py:70-79 | scalar key: letter i is (k·m[i] + l) mod `mod`; matrix key: (K m + L) mod `mod` spelled entry by entry; a K whose rows do not match the message is an error |
| Cipher.AffineWithUnitIsCaesar | encryption.py:70-79 | an affine key with multiplier 1 is a Caesar shift |
| Cipher.AffineDecrypt | encryption.py:81-87 | as written: (c K⁻¹ − L K⁻¹) mod `mod`, with c and L as row vectors; it fails when K has no inverse or the shapes differ |
| Cipher.AffineDecryptColumn | encryption.py:81-87 | corrected: (K⁻¹ c − K⁻¹ L) mod `mod`, with column vectors |
| Cipher.AffineRoundTrip | encryption.py:70-87 | for every invertible 2×2 key, the corrected decryption undoes affine encryption |
| Cipher.SymmetricKeyDecryptsAlike | encryption.py:81-87 | for a symmetric 2×2 key the decryption as written equals the corrected one |
| Cipher.AffineRoundTripSymmetric | encryption.py:70-87 | so the decryption as written does undo encryption for a symmetric 2×2 key |
| Cipher.AffineDecryptCounterexample | encryption.py:81-87 | with K = [[1,1],[0,1]], L = 0, modulo 29, the ciphertext [1,1] (which "AB" encrypts to) decrypts as written to "BA" |
| Cipher.AffineDecryptColumnRecoversShear | encryption.py:81-87 | the corrected decryption gives back "AB" for that ciphertext |
| Cipher.CaesarEncryptTestVector | encryption_test.py:33-38 | shift 16 encrypts [18,19,14,15] to "IJEF" |
| Cipher.CaesarDecryptTestVector | encryption_test.py:40-44 | shift 16 decrypts [19,7,4,5] to "DROP" |
| Cipher.AffineEncryptMatrixTestVector | encryption_test.py:18-24 | K = [[5,5],[5,8]], L = [9,2], modulo 29, encrypts [18,7] to "SD" |
| Cipher.AffineEncryptScalarTestVector | encryption_test.py:26-31 | k = 9, l = 19, modulo 26, encrypts [18,7,14,14,19] to "ZEPPI" |
| Cipher.AffineDecryptTestVector | encryption_test.py:66-71 | K = [[5,5],[5,8]], L = [9,2], modulo 29, decrypts [20,12] to "ST" |
| Cipher.PlumKey | encryption.py:55 | "PL UM" and "PL U M" strip to "PLUM" |
| Cipher.VigenereEncryptEvenTestVector | encryption_test.py:85-90 | key "PLUM" encrypts the 16-number message to "HPFXPWFAJCMTPCYE" |
| Cipher.VigenereEncryptOddTestVector | encryption_test.py:92-97 | key "PLUM" encrypts [18,4,11,11,0,11,11] to "HPFXPWF" |
| Cipher.VigenereEncryptSpacedKeyTestVector | encryption_test.py:99-103 | key "PL UM" encrypts [18,4,11,11,0] to "HPFXP" |
| Cipher.VigenereDecryptEvenTestVector | encryption_test.py:105-110 | key "PLUM" decrypts the 10-number message to "UPTHECREEK" |
| Cipher.VigenereDecryptOddTestVector | encryption_test.py:112-117 | key "PLUM" decrypts [9,0,13] to "UPT" |
| Cipher.VigenereDecryptSpacedKeyTestVector | encryption_test.py:119-124 | key "PL U M" decrypts [9,0,13,19,19,13] to "UPTHEC" |
| Cipher.RerumPhrase | encryption_test.py:129 | the phrase "RERUM COGNOSCERE CAUSAS" strips to 21 letters with the numbers of RERUMCOGNOSCERECAUSAS |
| Cipher.OneTimePadEncryptTestVector | encryption_test.py:126-133 | the key phrase, longer than the message, encrypts [6,4,19,…,19] to "XIKIGVHUAWYJX" |
| Cipher.OneTimePadDecryptTestVector | encryption_test.py:135-141 | the same phrase decrypts [20,18,4,…,22] to "DONTGOTHERE" |

## Left out

- numpy and sympy themselves are not part of this model. Array arithmetic is
  modelled for one-dimensional arrays only, with a one-element operand
  broadcast. A matrix key is applied with the matrix–vector product; a row
  vector times a matrix is the vector–matrix product.
- Matrix.ModInverse: sympy's exact inverse followed by the per-entry
  denominator trick (encryption.py:103-109) is modelled by its meaning when
  det K is invertible modulo m: adj(K)·det(K)⁻¹ mod m. Every other case
  becomes an error. A singular K, where sympy raises, is one. A det K that
  is not invertible modulo m, where the source's -1 from `find_inverse`
  flows into the entries, is another: the model does not reproduce the
  wrong matrix the source returns. A modulus of 1 is the third: there
  `find_inverse(q, 1)` is -1 and every entry `(-p) % 1` is 0, so the source
  returns the all-zero matrix for a non-singular K, while the model returns
  an error.
- Matrix.RightInverse2 / Matrix.LeftInverse2: "K times its inverse is
  congruent to I" is proved for every 2×2 key. For 3×3 it is proved only
  on the test key (Matrix.InverseTestVector3Product). Larger sizes are not
  proved.
- Cipher.AffineRoundTrip: proved for 2×2 keys, the size the source and its
  tests use.
- Cipher.SymmetricKeyDecryptsAlike: requires the modulus to be at most the
  table's length, as all the source's tables are.
- numpy arrays hold 64-bit integers, so `m + k`, `m - k`, `np.dot(K, m) + L`
  and `np.dot(m, K_inv)` (encryption.py:39, 43, 78, 86) wrap around on
  overflow. The model's integers are unbounded and never wrap. This only
  matters for shifts or keys near 2^63, far beyond the alphabet sizes.
- Python 2 has separate `int` and `long` types. An operand above
  `sys.maxint` fails `isinstance(other, int)` (mod_int.py:42, 95, 120;
  field.py:37, 90, 115), so the operator returns NotImplemented and Python
  raises a TypeError. The model's `Plain(n)` accepts every integer.
- Moduli are positive: the source divides by m everywhere. Python's `%`
  with a negative modulus is not modelled.
- `__str__` and `__repr__` (mod_int.py:125-129) are left out: they only
  format text. The demonstration block (field.py:121-128) is left out:
  it only prints.
- The `NotImplemented` returns for operands that are neither an int nor a
  class instance are left out: the operand type allows only those two.
- `__truediv__` and `__rtruediv__` only call `__div__` and `__rdiv__`, so
  they are not modelled separately.
- Python 2 integer division in `pad_key` (encryption.py:122-124) is floor
  division. On non-negative lengths it equals Dafny's `/`.
- ModInt.FindInverse / Field.FindInverse / ModArith.FindInverse: the source
  returns -1 where no inverse exists. That -1 then reaches `.x` in
  `__div__` and `__rdiv__`, which raises an AttributeError there. The model
  returns nothing (or -1 for the module-level search), and the division
  fails with an error.
- Test lemmas whose parameters are required to equal literals do so only
  to keep each proof small. Each is a statement about one fixed input.
- The unit test of `str` (mod_int_test.py:69-70) is not modelled.

## Findings

| source | as written | input that shows it | evidently intended | confidence | as-written member | corrected member |
|---|---|---|---|---|---|---|
| field.py:66-72 | multiplying an IntegerField by an int returns (x − other) mod m | IntegerField(5, 7) * 3 gives 2 | (x · other) mod m, that is 1, as for an IntegerField operand and as in ModularInt | not executed | Field.MulByIntSubtracts | Field.MulFixedAgreesWithModularInt |
| encryption.py:81-87 | decryption multiplies the ciphertext and L by K⁻¹ as row vectors, while encryption applies K to column vectors | K = [[1,1],[0,1]], L = [0,0], modulo 29: "AB" = [0,1] encrypts to "BB", which decrypts to "BA" | K⁻¹ (c − L), which undoes encryption for every invertible key; the two agree on symmetric keys | not executed | Cipher.AffineDecryptCounterexample | Cipher.AffineRoundTrip |
