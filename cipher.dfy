/** The ciphers of encryption.py: Caesar and Vigenere shifts, the key
    padding of Vigenere, and affine (Hill) encryption and decryption. Each
    works on a numeric message and ends with `convert_message` to letters. */
module Cipher {
  import opened Base
  import opened ModArith
  import opened Matrix
  import opened Codec

  // ---------------------------------------------------------------------
  // numpy arithmetic on one-dimensional arrays

  /** Index into an operand of a broadcast: a one-element array is
      stretched to any length. */
  function Stretch(u: seq<int>, i: int): int
    requires |u| == 1 || 0 <= i < |u|
  {
    if |u| == 1 then u[0] else u[i]
  }

  /** numpy's `u + sign * v` on one-dimensional arrays: equal lengths combine
      position by position, a one-element array is broadcast, any other pair
      of lengths is refused. A Python scalar behaves as a one-element array. */
  function Broadcast(u: seq<int>, v: seq<int>, sign: int): (r: Result<seq<int>>)
    ensures r.Ok? <==> |u| == |v| || |u| == 1 || |v| == 1
    ensures r.Err? ==> r.error == DimensionMismatch
    ensures r.Ok? ==> |r.value| == (if |u| == |v| || |v| == 1 then |u| else |v|)
    ensures r.Ok? ==> forall i :: 0 <= i < |r.value| ==>
      r.value[i] == Stretch(u, i) + sign * Stretch(v, i)
  {
    if |u| == |v| || |v| == 1 then
      Ok(seq(|u|, i requires 0 <= i < |u| => Stretch(u, i) + sign * Stretch(v, i)))
    else if |u| == 1 then
      Ok(seq(|v|, i requires 0 <= i < |v| => Stretch(u, i) + sign * Stretch(v, i)))
    else
      Err(DimensionMismatch)
  }

  /** numpy's `u % mod`, for mod > 0. */
  function Reduce(u: seq<int>, mod: int): (r: seq<int>)
    requires mod > 0
    ensures |r| == |u|
    ensures forall i :: 0 <= i < |u| ==> r[i] == u[i] % mod && 0 <= r[i] < mod
  {
    seq(|u|, i requires 0 <= i < |u| => u[i] % mod)
  }

  /** Turning numbers in [0, mod) into letters of a table of at least mod
      letters cannot fail. */
  lemma ResiduesConvert(nums: seq<int>, table: string, mod: int)
    ensures mod <= |table| && (forall i :: 0 <= i < |nums| ==> 0 <= nums[i] < mod) ==>
      ToLetters(nums, table).Ok? &&
      forall i :: 0 <= i < |nums| ==> ToLetters(nums, table).value[i] == table[nums[i]]
  {
  }

  // ---------------------------------------------------------------------
  // Caesar

  /** `caesar_encrypt(k, m, table, mod)`: letter i of the result is
      (m[i] + k) mod `mod`; k is one shift for every letter or one per letter. */
  function CaesarEncrypt(k: seq<int>, msg: seq<int>, table: string, mod: int): (r: Result<string>)
    requires mod > 0
    ensures (|k| == 1 || |k| == |msg|) && mod <= |table| ==>
      r.Ok? && |r.value| == |msg| &&
      forall i :: 0 <= i < |msg| ==> r.value[i] == table[(msg[i] + Stretch(k, i)) % mod]
  {
    var shifted :- Broadcast(msg, k, 1);
    var residues := Reduce(shifted, mod);
    ResiduesConvert(residues, table, mod);
    ToLetters(residues, table)
  }

  /** `caesar_decrypt(k, m, table, mod)`: letter i is (m[i] - k) mod `mod`. */
  function CaesarDecrypt(k: seq<int>, msg: seq<int>, table: string, mod: int): (r: Result<string>)
    requires mod > 0
    ensures (|k| == 1 || |k| == |msg|) && mod <= |table| ==>
      r.Ok? && |r.value| == |msg| &&
      forall i :: 0 <= i < |msg| ==> r.value[i] == table[(msg[i] - Stretch(k, i)) % mod]
  {
    var shifted :- Broadcast(msg, k, -1);
    var residues := Reduce(shifted, mod);
    ResiduesConvert(residues, table, mod);
    ToLetters(residues, table)
  }

  /** Subtracting a shift undoes adding it, on residues. */
  lemma ShiftBack(a: int, k: int, mod: int)
    requires 0 <= a < mod
    ensures ((a + k) % mod - k) % mod == a
  {
    ModCongruent(a + k, mod);
    assert ((a + k) % mod - k) - a == (a + k) % mod - (a + k);
    CongruentSameMod((a + k) % mod - k, a, mod);
    ModUnique(a, mod, 0, a);
  }

  /** Shifting residues forward and back by the same shifts restores them. */
  lemma {:induction false} ShiftsCancel(k: seq<int>, msg: seq<int>, mod: int)
    requires mod > 0 && (|k| == 1 || |k| == |msg|)
    requires forall i :: 0 <= i < |msg| ==> 0 <= msg[i] < mod
    ensures Broadcast(msg, k, 1).Ok?
    ensures Broadcast(Reduce(Broadcast(msg, k, 1).value, mod), k, -1).Ok?
    ensures Reduce(Broadcast(Reduce(Broadcast(msg, k, 1).value, mod), k, -1).value, mod) == msg
  {
    var c := Reduce(Broadcast(msg, k, 1).value, mod);
    var back := Reduce(Broadcast(c, k, -1).value, mod);
    assert |back| == |msg|;
    forall i | 0 <= i < |msg| ensures back[i] == msg[i] {
      ShiftBack(msg[i], Stretch(k, i), mod);
    }
  }

  /** Caesar decryption of the letters of a Caesar encryption, read back
      through the inverse table, gives the letters of the original message. */
  lemma CaesarRoundTrip(k: seq<int>, msg: seq<int>, s: string, mod: int)
    requires Distinct(s) && 0 < mod <= |s|
    requires |k| == 1 || |k| == |msg|
    requires forall i :: 0 <= i < |msg| ==> 0 <= msg[i] < mod
    ensures ToNumbers(CaesarEncrypt(k, msg, s, mod).value, LetterKeyed(InverseOf(s))).Ok?
    ensures CaesarDecrypt(k, ToNumbers(CaesarEncrypt(k, msg, s, mod).value, LetterKeyed(InverseOf(s))).value, s, mod)
         == ToLetters(msg, s)
  {
    ShiftsCancel(k, msg, mod);
    var c := Reduce(Broadcast(msg, k, 1).value, mod);
    assert CaesarEncrypt(k, msg, s, mod) == ToLetters(c, s);
    NumbersRoundTrip(c, s);
    assert CaesarDecrypt(k, c, s, mod) == ToLetters(Reduce(Broadcast(c, k, -1).value, mod), s);
  }

  // ---------------------------------------------------------------------
  // Vigenere

  /** `k.replace(" ", "")`: the key without its spaces, other letters kept
      in order. */
  function StripSpaces(k: string): (r: string)
    ensures ' ' !in r
    ensures forall c :: multiset(r)[c] == if c == ' ' then 0 else multiset(k)[c]
  {
    if |k| == 0 then ""
    else
      var rest := StripSpaces(k[1..]);
      assert k == [k[0]] + k[1..];
      if k[0] == ' ' then rest else [k[0]] + rest
  }

  /** Spaces are removed independently in the two halves of a key. */
  lemma {:induction false} StripSpacesAppend(a: string, b: string)
    ensures StripSpaces(a + b) == StripSpaces(a) + StripSpaces(b)
  {
    if |a| > 0 {
      assert (a + b)[0] == a[0] && (a + b)[1..] == a[1..] + b;
      StripSpacesAppend(a[1..], b);
    } else {
      assert a + b == b;
    }
  }

  /** A key without spaces is left as it is. */
  lemma {:induction false} StripSpacesNone(k: string)
    requires ' ' !in k
    ensures StripSpaces(k) == k
  {
    if |k| > 0 {
      assert k[0] != ' ' && ' ' !in k[1..];
      StripSpacesNone(k[1..]);
      assert k == [k[0]] + k[1..];
    }
  }

  /** `np.tile(s, n)`: s repeated n times. */
  function Tile(s: seq<int>, n: nat): (r: seq<int>)
    ensures |r| == n * |s|
    ensures |s| > 0 ==> forall i :: 0 <= i < |r| ==> r[i] == s[i % |s|]
  {
    if n == 0 then []
    else
      var prefix := Tile(s, n - 1);
      var r := prefix + s;
      assert |r| == n * |s|;
      assert |s| > 0 ==> forall i :: |prefix| <= i < |r| ==> r[i] == s[i % |s|] by {
        if |s| > 0 {
          forall i | |prefix| <= i < |r| ensures r[i] == s[i % |s|] {
            ModAddMultiple(i - |prefix|, n - 1, |s|);
            ModUnique(i - |prefix|, |s|, 0, i - |prefix|);
          }
        }
      }
      r
  }

  /** A Python slice `s[:n]` for n >= 0: the whole of s when it is shorter. */
  function Take(s: seq<int>, n: nat): (r: seq<int>)
    ensures |r| == if n <= |s| then n else |s|
    ensures r <= s
  {
    if n <= |s| then s[..n] else s
  }

  /** The repeat count of `pad_key`: the least number of copies of the key
      that covers the message. */
  function Copies(msgLength: nat, keyLength: nat): nat
    requires keyLength > 0
  {
    if msgLength % keyLength != 0 then msgLength / keyLength + 1 else msgLength / keyLength
  }

  lemma CopiesCover(msgLength: nat, keyLength: nat)
    requires keyLength > 0
    ensures Copies(msgLength, keyLength) * keyLength >= msgLength
    ensures (Copies(msgLength, keyLength) - 1) * keyLength < msgLength || msgLength == 0
  {
    var q, rem := msgLength / keyLength, msgLength % keyLength;
    assert msgLength == q * keyLength + rem;
    if rem != 0 {
      assert (q + 1) * keyLength == q * keyLength + keyLength;
    }
  }

  /** `pad_key(k, msg_length, key_length, inv_table)`: the key's numbers
      repeated to cover the message and cut to its length. The modulo by the
      key length comes first and fails on an empty key; the key is converted
      before it is repeated. */
  function PadKey(k: string, msgLength: nat, keyLength: nat, invTable: Table): (r: Result<seq<int>>)
    ensures keyLength == 0 ==> r == Err(ZeroDivision)
    ensures keyLength > 0 && ToNumbers(k, invTable).Err? ==> r == Err(ToNumbers(k, invTable).error)
    ensures keyLength == |k| > 0 && ToNumbers(k, invTable).Ok? ==>
      r.Ok? && |r.value| == msgLength &&
      forall i :: 0 <= i < msgLength ==> r.value[i] == ToNumbers(k, invTable).value[i % keyLength]
  {
    if keyLength == 0 then Err(ZeroDivision)
    else
      var times := Copies(msgLength, keyLength);
      var nums :- ToNumbers(k, invTable);
      CopiesCover(msgLength, keyLength);
      Ok(Take(Tile(nums, times), msgLength))
  }

  /** A key at least as long as the message (a one-time pad) is used as it
      stands, cut to the message's length. */
  lemma PadKeyPrefix(k: string, msgLength: nat, invTable: Table)
    requires 0 < msgLength <= |k| && ToNumbers(k, invTable).Ok?
    ensures PadKey(k, msgLength, |k|, invTable) == Ok(ToNumbers(k, invTable).value[..msgLength])
  {
    var nums := ToNumbers(k, invTable).value;
    if msgLength < |k| {
      ModUnique(msgLength, |k|, 0, msgLength);
    } else {
      ModUnique(msgLength, |k|, 1, 0);
    }
    assert Copies(msgLength, |k|) == 1;
    assert Tile(nums, 1) == nums + Tile(nums, 0) == nums;
  }

  /** The key's numbers, when its letters are all in the inverse table. */
  predicate KeyConverts(k: string, invTable: Table) {
    |StripSpaces(k)| > 0 && ToNumbers(StripSpaces(k), invTable).Ok?
  }

  /** The padded key of a key that converts: one shift per message
      number, the key's numbers repeated. */
  lemma PaddedShifts(key: string, n: nat, invTable: Table)
    requires |key| > 0 && ToNumbers(key, invTable).Ok?
    ensures PadKey(key, n, |key|, invTable).Ok?
    ensures var shifts := PadKey(key, n, |key|, invTable).value;
      |shifts| == n &&
      forall i :: 0 <= i < n ==> Stretch(shifts, i) == ToNumbers(key, invTable).value[i % |key|]
  {
    var nums := ToNumbers(key, invTable).value;
    var shifts := PadKey(key, n, |key|, invTable).value;
    forall i | 0 <= i < n ensures Stretch(shifts, i) == nums[i % |key|] {
      if n == 1 {
        assert i == 0;
      }
    }
  }

  /** s is msg shifted letter by letter by the repeated key (forward for
      sign 1, back for sign -1), modulo 26, read in the table. */
  predicate ShiftedBy(s: string, msg: seq<int>, key: seq<int>, sign: int, table: string)
    requires |key| > 0 && 26 <= |table|
  {
    |s| == |msg| && forall i :: 0 <= i < |msg| ==> s[i] == table[(msg[i] + sign * key[i % |key|]) % 26]
  }

  /** Caesar encryption modulo 26 by shifts that repeat the numbers
      of a key. */
  lemma CaesarEncryptPeriodic(shifts: seq<int>, nums: seq<int>, msg: seq<int>, table: string)
    requires |nums| > 0 && |shifts| == |msg| && 26 <= |table|
    requires forall i :: 0 <= i < |msg| ==> Stretch(shifts, i) == nums[i % |nums|]
    ensures CaesarEncrypt(shifts, msg, table, 26).Ok?
    ensures ShiftedBy(CaesarEncrypt(shifts, msg, table, 26).value, msg, nums, 1, table)
  {
    var c := CaesarEncrypt(shifts, msg, table, 26);
    forall i | 0 <= i < |msg| ensures c.value[i] == table[(msg[i] + 1 * nums[i % |nums|]) % 26] {
      assert c.value[i] == table[(msg[i] + Stretch(shifts, i)) % 26];
      ModOfEqual(msg[i] + Stretch(shifts, i), msg[i] + 1 * nums[i % |nums|], 26);
    }
  }

  /** Caesar decryption modulo 26 by shifts that repeat the numbers
      of a key. */
  lemma CaesarDecryptPeriodic(shifts: seq<int>, nums: seq<int>, msg: seq<int>, table: string)
    requires |nums| > 0 && |shifts| == |msg| && 26 <= |table|
    requires forall i :: 0 <= i < |msg| ==> Stretch(shifts, i) == nums[i % |nums|]
    ensures CaesarDecrypt(shifts, msg, table, 26).Ok?
    ensures ShiftedBy(CaesarDecrypt(shifts, msg, table, 26).value, msg, nums, -1, table)
  {
    var c := CaesarDecrypt(shifts, msg, table, 26);
    forall i | 0 <= i < |msg| ensures c.value[i] == table[(msg[i] + -1 * nums[i % |nums|]) % 26] {
      assert c.value[i] == table[(msg[i] - Stretch(shifts, i)) % 26];
      ModOfEqual(msg[i] - Stretch(shifts, i), msg[i] + -1 * nums[i % |nums|], 26);
    }
  }

  /** Caesar encryption (sign 1) or decryption (sign -1) modulo 26 by the
      padded key spells the message shifted by the repeated key numbers. */
  lemma PeriodicCaesar(key: string, msg: seq<int>, table: string, invTable: Table)
    ensures |key| > 0 && ToNumbers(key, invTable).Ok? && 26 <= |table| ==>
      PadKey(key, |msg|, |key|, invTable).Ok? && |ToNumbers(key, invTable).value| > 0 &&
      CaesarEncrypt(PadKey(key, |msg|, |key|, invTable).value, msg, table, 26).Ok? &&
      CaesarDecrypt(PadKey(key, |msg|, |key|, invTable).value, msg, table, 26).Ok? &&
      ShiftedBy(CaesarEncrypt(PadKey(key, |msg|, |key|, invTable).value, msg, table, 26).value,
                msg, ToNumbers(key, invTable).value, 1, table) &&
      ShiftedBy(CaesarDecrypt(PadKey(key, |msg|, |key|, invTable).value, msg, table, 26).value,
                msg, ToNumbers(key, invTable).value, -1, table)
  {
    if |key| > 0 && ToNumbers(key, invTable).Ok? && 26 <= |table| {
      var nums := ToNumbers(key, invTable).value;
      PaddedShifts(key, |msg|, invTable);
      var shifts := PadKey(key, |msg|, |key|, invTable).value;
      CaesarEncryptPeriodic(shifts, nums, msg, table);
      CaesarDecryptPeriodic(shifts, nums, msg, table);
    }
  }

  /** `vigenere_encrypt(k, m, table, inv_table, mod)`: spaces are stripped
      from the key, an empty key is the modulo by zero of `pad_key`, a key
      letter missing from the inverse table is its lookup error, and
      otherwise letter i is m[i] shifted forward by key number i mod the key
      length, always modulo 26: `mod` is not used. */
  function VigenereEncrypt(k: string, msg: seq<int>, table: string, invTable: Table, mod: int): (r: Result<string>)
    ensures |StripSpaces(k)| == 0 ==> r == Err(ZeroDivision)
    ensures |StripSpaces(k)| > 0 && ToNumbers(StripSpaces(k), invTable).Err? ==>
      r == Err(ToNumbers(StripSpaces(k), invTable).error)
    ensures KeyConverts(k, invTable) && 26 <= |table| ==>
      r.Ok? && |ToNumbers(StripSpaces(k), invTable).value| > 0 &&
      ShiftedBy(r.value, msg, ToNumbers(StripSpaces(k), invTable).value, 1, table)
  {
    var key := StripSpaces(k);
    var shifts :- PadKey(key, |msg|, |key|, invTable);
    PeriodicCaesar(key, msg, table, invTable);
    CaesarEncrypt(shifts, msg, table, 26)
  }

  /** `vigenere_decrypt(k, m, table, inv_table, mod)`: as VigenereEncrypt,
      shifting each letter back. */
  function VigenereDecrypt(k: string, msg: seq<int>, table: string, invTable: Table, mod: int): (r: Result<string>)
    ensures |StripSpaces(k)| == 0 ==> r == Err(ZeroDivision)
    ensures |StripSpaces(k)| > 0 && ToNumbers(StripSpaces(k), invTable).Err? ==>
      r == Err(ToNumbers(StripSpaces(k), invTable).error)
    ensures KeyConverts(k, invTable) && 26 <= |table| ==>
      r.Ok? && |ToNumbers(StripSpaces(k), invTable).value| > 0 &&
      ShiftedBy(r.value, msg, ToNumbers(StripSpaces(k), invTable).value, -1, table)
  {
    var key := StripSpaces(k);
    var shifts :- PadKey(key, |msg|, |key|, invTable);
    PeriodicCaesar(key, msg, table, invTable);
    CaesarDecrypt(shifts, msg, table, 26)
  }

  /** With a key that converts, Vigenere encryption is Caesar
      encryption by the padded key modulo 26. */
  lemma VigenereEncryptIsCaesar(k: string, msg: seq<int>, table: string, invTable: Table, mod: int)
    requires KeyConverts(k, invTable)
    ensures PadKey(StripSpaces(k), |msg|, |StripSpaces(k)|, invTable).Ok?
    ensures VigenereEncrypt(k, msg, table, invTable, mod)
         == CaesarEncrypt(PadKey(StripSpaces(k), |msg|, |StripSpaces(k)|, invTable).value, msg, table, 26)
  {
  }

  /** With a key that converts, Vigenere decryption is Caesar
      decryption by the padded key modulo 26. */
  lemma VigenereDecryptIsCaesar(k: string, msg: seq<int>, table: string, invTable: Table, mod: int)
    requires KeyConverts(k, invTable)
    ensures PadKey(StripSpaces(k), |msg|, |StripSpaces(k)|, invTable).Ok?
    ensures VigenereDecrypt(k, msg, table, invTable, mod)
         == CaesarDecrypt(PadKey(StripSpaces(k), |msg|, |StripSpaces(k)|, invTable).value, msg, table, 26)
  {
  }

  /** Vigenere decryption undoes Vigenere encryption with the same key. */
  lemma VigenereRoundTrip(k: string, msg: seq<int>, s: string, invTable: Table, mod: int)
    requires KeyConverts(k, invTable)
    requires Distinct(s) && 26 <= |s|
    requires forall i :: 0 <= i < |msg| ==> 0 <= msg[i] < 26
    ensures ToNumbers(VigenereEncrypt(k, msg, s, invTable, mod).value, LetterKeyed(InverseOf(s))).Ok?
    ensures VigenereDecrypt(k, ToNumbers(VigenereEncrypt(k, msg, s, invTable, mod).value,
                                         LetterKeyed(InverseOf(s))).value, s, invTable, mod)
         == ToLetters(msg, s)
  {
    var key := StripSpaces(k);
    var shifts := PadKey(key, |msg|, |key|, invTable).value;
    CaesarRoundTrip(shifts, msg, s, 26);
  }

  // ---------------------------------------------------------------------
  // Affine (Hill) cipher

  /** The key of `affine_encrypt`: a number k with offset l, or a square
      matrix K with an offset column vector L. */
  datatype AffineKey =
    | ScalarKey(k: int, l: int)
    | MatrixKey(K: Mat, L: Vector)

  /** Every row of K has one entry per message number, as `np.dot(K, m)`
      demands. */
  predicate Conformable(K: Mat, msg: Vector) {
    forall i :: 0 <= i < |K| ==> |K[i]| == |msg|
  }

  /** The letters of (k m + l) mod `mod` for a scalar key. */
  lemma ScalarLetters(k: int, l: int, msg: Vector, table: string, mod: int)
    requires mod > 0
    ensures mod <= |table| ==>
      var r := ToLetters(Reduce(seq(|msg|, i requires 0 <= i < |msg| => k * msg[i] + l), mod), table);
      r.Ok? && |r.value| == |msg| && forall i :: 0 <= i < |msg| ==> r.value[i] == table[(k * msg[i] + l) % mod]
  {
    if mod <= |table| {
      var sum := seq(|msg|, i requires 0 <= i < |msg| => k * msg[i] + l);
      var n := Reduce(sum, mod);
      ResiduesConvert(n, table, mod);
      var r := ToLetters(n, table).value;
      forall i | 0 <= i < |msg| ensures r[i] == table[(k * msg[i] + l) % mod] {
        ModOfEqual(sum[i], k * msg[i] + l, mod);
      }
    }
  }

  /** s spells (K m + L) mod `mod`, letter by letter. */
  predicate SpellsAffine(s: string, K: Mat, L: Vector, msg: Vector, table: string, mod: int)
    requires Conformable(K, msg) && |L| == |K| && 0 < mod <= |table|
  {
    |s| == |K| && forall i :: 0 <= i < |K| ==> s[i] == table[(Dot(K[i], msg) + L[i]) % mod]
  }

  /** Entry i of (K m + L) mod `mod` is the residue of row i of K dotted
      with m, plus L[i]. */
  lemma SumResidues(K: Mat, L: Vector, msg: Vector, mod: int)
    requires Conformable(K, msg) && |L| == |K| && mod > 0
    ensures Broadcast(MatVec(K, msg), L, 1).Ok?
    ensures var n := Reduce(Broadcast(MatVec(K, msg), L, 1).value, mod);
      |n| == |K| && forall i :: 0 <= i < |K| ==> n[i] == (Dot(K[i], msg) + L[i]) % mod
  {
    var sum := Broadcast(MatVec(K, msg), L, 1).value;
    forall i | 0 <= i < |K| ensures Reduce(sum, mod)[i] == (Dot(K[i], msg) + L[i]) % mod {
      assert sum[i] == Stretch(MatVec(K, msg), i) + 1 * Stretch(L, i);
      ModOfEqual(sum[i], Dot(K[i], msg) + L[i], mod);
    }
  }

  /** The letters of (K m + L) mod `mod` for a matrix key and an offset of
      one entry per row. */
  lemma MatrixLetters(K: Mat, L: Vector, msg: Vector, table: string, mod: int)
    requires Conformable(K, msg) && mod > 0
    ensures |L| == |K| && mod <= |table| ==>
      Broadcast(MatVec(K, msg), L, 1).Ok? &&
      var r := ToLetters(Reduce(Broadcast(MatVec(K, msg), L, 1).value, mod), table);
      r.Ok? && SpellsAffine(r.value, K, L, msg, table, mod)
  {
    if |L| == |K| && mod <= |table| {
      SumResidues(K, L, msg, mod);
      ResiduesConvert(Reduce(Broadcast(MatVec(K, msg), L, 1).value, mod), table, mod);
    }
  }

  /** `affine_encrypt(K, L, m, table, mod)`: (K m + L) mod `mod`. */
  function AffineEncrypt(key: AffineKey, msg: Vector, table: string, mod: int): (r: Result<string>)
    requires mod > 0
    ensures key.ScalarKey? && mod <= |table| ==>
      r.Ok? && |r.value| == |msg| &&
      forall i :: 0 <= i < |msg| ==> r.value[i] == table[(key.k * msg[i] + key.l) % mod]
    ensures key.MatrixKey? && !Conformable(key.K, msg) ==> r == Err(DimensionMismatch)
    ensures key.MatrixKey? && Conformable(key.K, msg) && |key.L| == |key.K| && mod <= |table| ==>
      r.Ok? && SpellsAffine(r.value, key.K, key.L, msg, table, mod)
  {
    match key
    case ScalarKey(k, l) =>
      ScalarLetters(k, l, msg, table, mod);
      ToLetters(Reduce(seq(|msg|, i requires 0 <= i < |msg| => k * msg[i] + l), mod), table)
    case MatrixKey(K, L) =>
      if !Conformable(K, msg) then Err(DimensionMismatch)
      else
        var sum :- Broadcast(MatVec(K, msg), L, 1);
        MatrixLetters(K, L, msg, table, mod);
        ToLetters(Reduce(sum, mod), table)
  }

  /** Position-wise difference of two vectors of one length. */
  function Minus(u: Vector, v: Vector): (r: Vector)
    requires |u| == |v|
    ensures |r| == |u| && forall i :: 0 <= i < |u| ==> r[i] == u[i] - v[i]
  {
    seq(|u|, i requires 0 <= i < |u| => u[i] - v[i])
  }

  /** s spells the residues of u - v, letter by letter. */
  predicate SpellsDifference(s: string, u: Vector, v: Vector, table: string, mod: int)
    requires |u| == |v| && 0 < mod <= |table|
  {
    |s| == |u| && forall i :: 0 <= i < |u| ==> s[i] == table[(u[i] - v[i]) % mod]
  }
  /** The spelling of a difference is determined by the two vectors. */
  lemma SpellsDifferenceUnique(s: string, t: string, u: Vector, v: Vector, table: string, mod: int)
    requires |u| == |v| && 0 < mod <= |table|
    requires SpellsDifference(s, u, v, table, mod) && SpellsDifference(t, u, v, table, mod)
    ensures s == t
  {
    forall i | 0 <= i < |s| ensures s[i] == t[i] {
      assert s[i] == table[(u[i] - v[i]) % mod];
    }
  }

  /** The spelling of a 2-entry difference, letter by letter. */
  lemma SpelledPair(s: string, u0: int, u1: int, v0: int, v1: int, table: string, mod: int)
    requires 0 < mod <= |table| && SpellsDifference(s, [u0, u1], [v0, v1], table, mod)
    ensures s == [table[(u0 - v0) % mod], table[(u1 - v1) % mod]]
  {
    assert s[0] == table[([u0, u1][0] - [v0, v1][0]) % mod];
    assert s[1] == table[([u0, u1][1] - [v0, v1][1]) % mod];
  }

  /** Entry i of (u - v) mod `mod` is the residue of u[i] - v[i]. */
  lemma DifferenceResidues(u: Vector, v: Vector, mod: int)
    requires |u| == |v| && mod > 0
    ensures var n := Reduce(Minus(u, v), mod);
      |n| == |u| && forall i :: 0 <= i < |u| ==> n[i] == (u[i] - v[i]) % mod
  {
    forall i | 0 <= i < |u| ensures Reduce(Minus(u, v), mod)[i] == (u[i] - v[i]) % mod {
      ModOfEqual(Minus(u, v)[i], u[i] - v[i], mod);
    }
  }

  /** Turning (u - v) mod `mod` into letters cannot fail. */
  lemma DifferenceLetters(u: Vector, v: Vector, table: string, mod: int)
    requires |u| == |v| && mod > 0
    ensures mod <= |table| ==>
      var r := ToLetters(Reduce(Minus(u, v), mod), table);
      r.Ok? && SpellsDifference(r.value, u, v, table, mod)
  {
    var n := Reduce(Minus(u, v), mod);
    DifferenceResidues(u, v, mod);
    ResiduesConvert(n, table, mod);
  }

  /** `affine_decrypt(K, L, m, table, mod)` as written: the message and L
      are multiplied as ROW vectors, (m K^-1 - L K^-1) mod `mod`. */
  function AffineDecrypt(K: Mat, L: Vector, c: Vector, table: string, mod: int): (r: Result<string>)
    requires mod > 0
    ensures ModInverse(K, mod).Err? ==> r == Err(ModInverse(K, mod).error)
    ensures ModInverse(K, mod).Ok? && (|c| != |K| || |L| != |K|) ==> r == Err(DimensionMismatch)
    ensures ModInverse(K, mod).Ok? && |c| == |K| == |L| && mod <= |table| ==>
      var inv := ModInverse(K, mod).value;
      r.Ok? && SpellsDifference(r.value, VecMat(c, inv), VecMat(L, inv), table, mod)
  {
    match ModInverse(K, mod)
    case Err(e) => Err(e)
    case Ok(inv) =>
      if |c| != |K| || |L| != |K| then Err(DimensionMismatch)
      else
        DifferenceLetters(VecMat(c, inv), VecMat(L, inv), table, mod);
        ToLetters(Reduce(Minus(VecMat(c, inv), VecMat(L, inv)), mod), table)
  }

  /** The evidently intended decryption: K^-1 applied to the COLUMN vectors,
      (K^-1 c - K^-1 L) mod `mod`. */
  function AffineDecryptColumn(K: Mat, L: Vector, c: Vector, table: string, mod: int): (r: Result<string>)
    requires mod > 0
    ensures ModInverse(K, mod).Err? ==> r == Err(ModInverse(K, mod).error)
    ensures ModInverse(K, mod).Ok? && (|c| != |K| || |L| != |K|) ==> r == Err(DimensionMismatch)
    ensures ModInverse(K, mod).Ok? && |c| == |K| == |L| && mod <= |table| ==>
      var inv := ModInverse(K, mod).value;
      r.Ok? && SpellsDifference(r.value, MatVec(inv, c), MatVec(inv, L), table, mod)
  {
    match ModInverse(K, mod)
    case Err(e) => Err(e)
    case Ok(inv) =>
      if |c| != |K| || |L| != |K| then Err(DimensionMismatch)
      else
        DifferenceLetters(MatVec(inv, c), MatVec(inv, L), table, mod);
        ToLetters(Reduce(Minus(MatVec(inv, c), MatVec(inv, L)), mod), table)
  }

  /** An affine key with multiplier 1 is a Caesar shift. */
  lemma AffineWithUnitIsCaesar(k: int, msg: Vector, table: string, mod: int)
    requires 0 < mod <= |table|
    ensures AffineEncrypt(ScalarKey(1, k), msg, table, mod) == CaesarEncrypt([k], msg, table, mod)
  {
    var a, c := AffineEncrypt(ScalarKey(1, k), msg, table, mod).value, CaesarEncrypt([k], msg, table, mod).value;
    assert |a| == |c|;
    forall i | 0 <= i < |msg| ensures a[i] == c[i] {
      assert 1 * msg[i] + k == msg[i] + Stretch([k], i);
    }
    assert a == c;
  }

  // ---------------------------------------------------------------------
  // Affine decryption undoes affine encryption, for 2 x 2 keys

  lemma MatVec2(K: Mat, x: Vector)
    requires IsSquare(K) && |K| == 2 && |x| == 2
    ensures MatVec(K, x)[0] == K[0][0] * x[0] + K[0][1] * x[1]
    ensures MatVec(K, x)[1] == K[1][0] * x[0] + K[1][1] * x[1]
  {
    Dot2(K[0], x);
    Dot2(K[1], x);
  }

  lemma VecMat2(v: Vector, K: Mat)
    requires IsSquare(K) && |K| == 2 && |v| == 2
    ensures VecMat(v, K)[0] == v[0] * K[0][0] + v[1] * K[1][0]
    ensures VecMat(v, K)[1] == v[0] * K[0][1] + v[1] * K[1][1]
  {
    Dot2(v, Column(K, 0));
    Dot2(v, Column(K, 1));
  }

  /** VecMat and MatVec of a 2-vector and a 2 x 2 matrix given by entries. */
  lemma Products2Of(v: Vector, M: Mat, v0: int, v1: int, m00: int, m01: int, m10: int, m11: int)
    requires v == [v0, v1] && M == [[m00, m01], [m10, m11]]
    ensures VecMat(v, M) == [v0 * m00 + v1 * m10, v0 * m01 + v1 * m11]
    ensures MatVec(M, v) == [m00 * v0 + m01 * v1, m10 * v0 + m11 * v1]
  {
    VecMat2(v, M);
    MatVec2(M, v);
  }

  /** Row and column products agree for a symmetric 2 x 2 matrix. */
  lemma SymmetricProducts2(v: Vector, M: Mat)
    requires IsSquare(M) && |M| == 2 && |v| == 2 && M[0][1] == M[1][0]
    ensures VecMat(v, M) == MatVec(M, v)
  {
    assert M[0] == [M[0][0], M[0][1]] && M[1] == [M[1][0], M[1][1]];
    assert v == [v[0], v[1]] && M == [M[0], M[1]];
    Products2Of(v, M, v[0], v[1], M[0][0], M[0][1], M[1][0], M[1][1]);
  }

  /** Removing the offset: if c = y + l (mod m) position by position, then
      p . c - p . l = p . y (mod m). */
  lemma StripOffset(p0: int, p1: int, c0: int, c1: int, y0: int, y1: int, l0: int, l1: int, m: int)
    requires m > 0 && Congruent(c0, y0 + l0, m) && Congruent(c1, y1 + l1, m)
    ensures Congruent(p0 * c0 + p1 * c1 - (p0 * l0 + p1 * l1), p0 * y0 + p1 * y1, m)
  {
    var k0, k1 := (c0 - (y0 + l0)) / m, (c1 - (y1 + l1)) / m;
    ModUnique(c0 - (y0 + l0), m, k0, 0);
    ModUnique(c1 - (y1 + l1), m, k1, 0);
    MulEqual(p0, c0 - (y0 + l0), k0 * m);
    MulEqual(p1, c1 - (y1 + l1), k1 * m);
    assert p0 * c0 + p1 * c1 - (p0 * l0 + p1 * l1) - (p0 * y0 + p1 * y1)
        == p0 * (c0 - (y0 + l0)) + p1 * (c1 - (y1 + l1));
    ModUnique(p0 * c0 + p1 * c1 - (p0 * l0 + p1 * l1) - (p0 * y0 + p1 * y1), m, p0 * k0 + p1 * k1, 0);
  }

  /** p . (K x) = (p K) . x for one row p and a 2 x 2 K. */
  lemma Regroup(p0: int, p1: int, k00: int, k01: int, k10: int, k11: int, x0: int, x1: int)
    ensures p0 * (k00 * x0 + k01 * x1) + p1 * (k10 * x0 + k11 * x1)
         == (p0 * k00 + p1 * k10) * x0 + (p0 * k01 + p1 * k11) * x1
  {
    assert p0 * (k00 * x0 + k01 * x1) == (p0 * k00) * x0 + (p0 * k01) * x1;
    assert p1 * (k10 * x0 + k11 * x1) == (p1 * k10) * x0 + (p1 * k11) * x1;
  }

  /** One row p of a left inverse of K, applied to c - L where c encrypts
      (x0, x1) under K and L, gives back xi = e0 x0 + e1 x1, the row of the
      identity that p K = (q0, q1) is congruent to. */
  lemma RowRecovers(p0: int, p1: int, k00: int, k01: int, k10: int, k11: int,
                    x0: int, x1: int, l0: int, l1: int, c0: int, c1: int,
                    q0: int, q1: int, e0: int, e1: int, xi: int, m: int)
    requires m > 0 && c0 == (k00 * x0 + k01 * x1 + l0) % m && c1 == (k10 * x0 + k11 * x1 + l1) % m
    requires q0 == p0 * k00 + p1 * k10 && q1 == p0 * k01 + p1 * k11
    requires Congruent(q0, e0, m) && Congruent(q1, e1, m)
    requires e0 * x0 + e1 * x1 == xi && 0 <= xi < m
    ensures (p0 * c0 + p1 * c1 - (p0 * l0 + p1 * l1)) % m == xi
  {
    CongruentEqual(q0, p0 * k00 + p1 * k10, e0, m);
    CongruentEqual(q1, p0 * k01 + p1 * k11, e1, m);
    var y0, y1 := k00 * x0 + k01 * x1, k10 * x0 + k11 * x1;
    ModCongruent(y0 + l0, m);
    ModCongruent(y1 + l1, m);
    StripOffset(p0, p1, c0, c1, y0, y1, l0, l1, m);
    Regroup(p0, p1, k00, k01, k10, k11, x0, x1);
    CongruentCombination(p0 * k00 + p1 * k10, e0, p0 * k01 + p1 * k11, e1, x0, x1, m);
    CongruentTransitive(p0 * c0 + p1 * c1 - (p0 * l0 + p1 * l1), p0 * y0 + p1 * y1, xi, m);
    CongruentSameMod(p0 * c0 + p1 * c1 - (p0 * l0 + p1 * l1), xi, m);
    ModUnique(xi, m, 0, xi);
  }

  /** The two letters' numbers of the encryption of x under K and L. */
  lemma EncryptedEntries2(K: Mat, L: Vector, x: Vector, mod: int)
    requires mod > 0 && IsSquare(K) && |K| == 2 && |L| == 2 && |x| == 2
    ensures var c := Reduce(Broadcast(MatVec(K, x), L, 1).value, mod);
      |c| == 2 && c[0] == (K[0][0] * x[0] + K[0][1] * x[1] + L[0]) % mod
      && c[1] == (K[1][0] * x[0] + K[1][1] * x[1] + L[1]) % mod
  {
    var y := MatVec(K, x);
    MatVec2(K, x);
    var b := Broadcast(y, L, 1).value;
    assert b[0] == y[0] + 1 * L[0] && b[1] == y[1] + 1 * L[1];
    ModOfEqual(b[0], K[0][0] * x[0] + K[0][1] * x[1] + L[0], mod);
    ModOfEqual(b[1], K[1][0] * x[0] + K[1][1] * x[1] + L[1], mod);
  }

  /** Row i of the product of two 2 x 2 matrices, written out. */
  lemma ProductRow2(A: Mat, B: Mat, i: int)
    requires IsSquare(A) && IsSquare(B) && |A| == 2 && |B| == 2 && 0 <= i < 2
    ensures var P := MatMul(A, B);
      P[i][0] == A[i][0] * B[0][0] + A[i][1] * B[1][0] && P[i][1] == A[i][0] * B[0][1] + A[i][1] * B[1][1]
  {
    MatMul2(A, B);
    if i == 1 {
    }
  }

  /** Entry i of K^-1 c - K^-1 L, written out, has the same residue. */
  lemma ColumnDifference2(inv: Mat, c: Vector, L: Vector, mod: int, i: int)
    requires mod > 0 && IsSquare(inv) && |inv| == 2 && |c| == 2 && |L| == 2 && 0 <= i < 2
    ensures (MatVec(inv, c)[i] - MatVec(inv, L)[i]) % mod
         == (inv[i][0] * c[0] + inv[i][1] * c[1] - (inv[i][0] * L[0] + inv[i][1] * L[1])) % mod
  {
    MatVec2(inv, c);
    MatVec2(inv, L);
    ModOfEqual(MatVec(inv, c)[i] - MatVec(inv, L)[i],
               inv[i][0] * c[0] + inv[i][1] * c[1] - (inv[i][0] * L[0] + inv[i][1] * L[1]), mod);
  }

  /** Row i of a left inverse of K modulo mod, applied to c - L where c is
      the encryption of x under K and L, gives back x[i]. */
  lemma DecodeRowFrom(K: Mat, L: Vector, x: Vector, inv: Mat, c: Vector, mod: int, i: int)
    requires mod > 0 && IsSquare(K) && |K| == 2 && IsSquare(inv) && |inv| == 2
    requires |L| == 2 && |x| == 2 && |c| == 2 && 0 <= i < 2 && 0 <= x[i] < mod
    requires c[0] == (K[0][0] * x[0] + K[0][1] * x[1] + L[0]) % mod
    requires c[1] == (K[1][0] * x[0] + K[1][1] * x[1] + L[1]) % mod
    requires CongruentMat(MatMul(inv, K), Identity(2), mod)
    ensures (MatVec(inv, c)[i] - MatVec(inv, L)[i]) % mod == x[i]
  {
    var P, I := MatMul(inv, K), Identity(2);
    ProductRow2(inv, K, i);
    assert Congruent(P[i][0], I[i][0], mod) && Congruent(P[i][1], I[i][1], mod);
    ColumnDifference2(inv, c, L, mod, i);
    assert I[i][0] * x[0] + I[i][1] * x[1] == x[i];
    RowRecovers(inv[i][0], inv[i][1], K[0][0], K[0][1], K[1][0], K[1][1], x[0], x[1], L[0], L[1],
                c[0], c[1], P[i][0], P[i][1], I[i][0], I[i][1], x[i], mod);
  }

  /** Row i of the column-vector decryption of an encryption of x is x[i]. */
  lemma ColumnDecodeRow(K: Mat, L: Vector, x: Vector, mod: int, i: int)
    requires mod > 0 && IsSquare(K) && |K| == 2 && ModInverse(K, mod).Ok?
    requires |L| == 2 && |x| == 2 && 0 <= i < 2
    requires 0 <= x[i] < mod
    ensures var c := Reduce(Broadcast(MatVec(K, x), L, 1).value, mod);
      var inv := ModInverse(K, mod).value;
      (MatVec(inv, c)[i] - MatVec(inv, L)[i]) % mod == x[i]
  {
    EncryptedEntries2(K, L, x, mod);
    LeftInverse2(K, mod);
    DecodeRowFrom(K, L, x, ModInverse(K, mod).value, Reduce(Broadcast(MatVec(K, x), L, 1).value, mod), mod, i);
  }

  /** The column-vector decryption of an encryption of x is x. */
  lemma ColumnDecodeRecovers(K: Mat, L: Vector, x: Vector, mod: int)
    requires mod > 0 && IsSquare(K) && |K| == 2 && ModInverse(K, mod).Ok?
    requires |L| == 2 && |x| == 2 && forall i :: 0 <= i < 2 ==> 0 <= x[i] < mod
    ensures var c := Reduce(Broadcast(MatVec(K, x), L, 1).value, mod);
      var inv := ModInverse(K, mod).value;
      Reduce(Minus(MatVec(inv, c), MatVec(inv, L)), mod) == x
  {
    var c := Reduce(Broadcast(MatVec(K, x), L, 1).value, mod);
    var inv := ModInverse(K, mod).value;
    var back := Reduce(Minus(MatVec(inv, c), MatVec(inv, L)), mod);
    DifferenceResidues(MatVec(inv, c), MatVec(inv, L), mod);
    forall i | 0 <= i < 2 ensures back[i] == x[i] {
      ColumnDecodeRow(K, L, x, mod, i);
    }
    assert |back| == 2;
  }

  /** Decryption with K^-1 on column vectors recovers every 2-letter block
      encrypted with an invertible 2 x 2 key. */
  lemma AffineRoundTrip(K: Mat, L: Vector, x: Vector, s: string, mod: int)
    requires mod > 0 && IsSquare(K) && |K| == 2 && ModInverse(K, mod).Ok?
    requires |L| == 2 && |x| == 2 && forall i :: 0 <= i < 2 ==> 0 <= x[i] < mod
    requires Distinct(s) && mod <= |s|
    ensures ToNumbers(AffineEncrypt(MatrixKey(K, L), x, s, mod).value, LetterKeyed(InverseOf(s))).Ok?
    ensures AffineDecryptColumn(K, L, ToNumbers(AffineEncrypt(MatrixKey(K, L), x, s, mod).value,
                                                LetterKeyed(InverseOf(s))).value, s, mod)
         == ToLetters(x, s)
  {
    var c := Reduce(Broadcast(MatVec(K, x), L, 1).value, mod);
    assert AffineEncrypt(MatrixKey(K, L), x, s, mod) == ToLetters(c, s);
    NumbersRoundTrip(c, s);
    var inv := ModInverse(K, mod).value;
    assert AffineDecryptColumn(K, L, c, s, mod)
        == ToLetters(Reduce(Minus(MatVec(inv, c), MatVec(inv, L)), mod), s);
    ColumnDecodeRecovers(K, L, x, mod);
  }

  /** For a symmetric 2 x 2 key the row-vector decryption of the source
      coincides with the column-vector one. */
  lemma SymmetricKeyDecryptsAlike(K: Mat, L: Vector, c: Vector, table: string, mod: int)
    requires 0 < mod <= |table| && IsSquare(K) && |K| == 2 && K[0][1] == K[1][0]
    requires ModInverse(K, mod).Ok? && |L| == 2 && |c| == 2
    ensures AffineDecrypt(K, L, c, table, mod) == AffineDecryptColumn(K, L, c, table, mod)
  {
    var inv := ModInverse(K, mod).value;
    ModInverse2(K, mod);
    assert inv[0][1] == inv[1][0];
    SymmetricProducts2(c, inv);
    SymmetricProducts2(L, inv);
    SpellsDifferenceUnique(AffineDecrypt(K, L, c, table, mod).value, AffineDecryptColumn(K, L, c, table, mod).value,
                           MatVec(inv, c), MatVec(inv, L), table, mod);
  }

  /** The source's decryption inverts its encryption when the key matrix is
      symmetric, as the key of its examples is. */
  lemma AffineRoundTripSymmetric(K: Mat, L: Vector, x: Vector, s: string, mod: int)
    requires mod > 0 && IsSquare(K) && |K| == 2 && K[0][1] == K[1][0] && ModInverse(K, mod).Ok?
    requires |L| == 2 && |x| == 2 && forall i :: 0 <= i < 2 ==> 0 <= x[i] < mod
    requires Distinct(s) && mod <= |s|
    ensures ToNumbers(AffineEncrypt(MatrixKey(K, L), x, s, mod).value, LetterKeyed(InverseOf(s))).Ok?
    ensures AffineDecrypt(K, L, ToNumbers(AffineEncrypt(MatrixKey(K, L), x, s, mod).value,
                                          LetterKeyed(InverseOf(s))).value, s, mod)
         == ToLetters(x, s)
  {
    AffineRoundTrip(K, L, x, s, mod);
    var c := ToNumbers(AffineEncrypt(MatrixKey(K, L), x, s, mod).value, LetterKeyed(InverseOf(s))).value;
    SymmetricKeyDecryptsAlike(K, L, c, s, mod);
  }

  /** A 2-letter block encrypted with a 2 x 2 key, letter by letter. */
  lemma AffineEncrypt2Of(K: Mat, L: Vector, x: Vector, table: string, mod: int,
                         k00: int, k01: int, k10: int, k11: int, l0: int, l1: int, x0: int, x1: int,
                         r0: int, r1: int)
    requires 0 < mod <= |table|
    requires K == [[k00, k01], [k10, k11]] && L == [l0, l1] && x == [x0, x1]
    requires r0 == (k00 * x0 + k01 * x1 + l0) % mod && r1 == (k10 * x0 + k11 * x1 + l1) % mod
    ensures AffineEncrypt(MatrixKey(K, L), x, table, mod) == Ok([table[r0], table[r1]])
  {
    Dot2(K[0], x);
    Dot2(K[1], x);
    ModOfEqual(Dot(K[0], x) + L[0], k00 * x0 + k01 * x1 + l0, mod);
    ModOfEqual(Dot(K[1], x) + L[1], k10 * x0 + k11 * x1 + l1, mod);
    var e := AffineEncrypt(MatrixKey(K, L), x, table, mod).value;
    assert e == [e[0], e[1]];
  }

  /** The spelling of c K^-1 - L K^-1 for a 2 x 2 inverse given by entries. */
  lemma RowPairSpelled(s: string, c: Vector, L: Vector, inv: Mat, table: string, mod: int,
                       c0: int, c1: int, l0: int, l1: int, i00: int, i01: int, i10: int, i11: int)
    requires 0 < mod <= |table| && c == [c0, c1] && L == [l0, l1] && inv == [[i00, i01], [i10, i11]]
    requires SpellsDifference(s, VecMat(c, inv), VecMat(L, inv), table, mod)
    ensures s == [table[(c0 * i00 + c1 * i10 - (l0 * i00 + l1 * i10)) % mod], table[(c0 * i01 + c1 * i11 - (l0 * i01 + l1 * i11)) % mod]]
  {
    Products2Of(c, inv, c0, c1, i00, i01, i10, i11);
    Products2Of(L, inv, l0, l1, i00, i01, i10, i11);
    SpelledPair(s, c0 * i00 + c1 * i10, c0 * i01 + c1 * i11, l0 * i00 + l1 * i10, l0 * i01 + l1 * i11, table, mod);
  }

  /** The spelling of K^-1 c - K^-1 L for a 2 x 2 inverse given by entries. */
  lemma ColumnPairSpelled(s: string, c: Vector, L: Vector, inv: Mat, table: string, mod: int,
                          c0: int, c1: int, l0: int, l1: int, i00: int, i01: int, i10: int, i11: int)
    requires 0 < mod <= |table| && c == [c0, c1] && L == [l0, l1] && inv == [[i00, i01], [i10, i11]]
    requires SpellsDifference(s, MatVec(inv, c), MatVec(inv, L), table, mod)
    ensures s == [table[(i00 * c0 + i01 * c1 - (i00 * l0 + i01 * l1)) % mod], table[(i10 * c0 + i11 * c1 - (i10 * l0 + i11 * l1)) % mod]]
  {
    Products2Of(c, inv, c0, c1, i00, i01, i10, i11);
    Products2Of(L, inv, l0, l1, i00, i01, i10, i11);
    SpelledPair(s, i00 * c0 + i01 * c1, i10 * c0 + i11 * c1, i00 * l0 + i01 * l1, i10 * l0 + i11 * l1, table, mod);
  }

  /** A 2-letter block decrypted as written (row vectors), given the inverse
      of the key: letter j is entry j of c K^-1 - L K^-1, reduced. */
  lemma AffineDecrypt2Of(K: Mat, L: Vector, c: Vector, table: string, mod: int, inv: Mat,
                         c0: int, c1: int, l0: int, l1: int, i00: int, i01: int, i10: int, i11: int,
                         r0: int, r1: int)
    requires 0 < mod <= |table| && IsSquare(K) && |K| == 2 && ModInverse(K, mod) == Ok(inv)
    requires c == [c0, c1] && L == [l0, l1] && inv == [[i00, i01], [i10, i11]]
    requires r0 == (c0 * i00 + c1 * i10 - (l0 * i00 + l1 * i10)) % mod && r1 == (c0 * i01 + c1 * i11 - (l0 * i01 + l1 * i11)) % mod
    ensures AffineDecrypt(K, L, c, table, mod) == Ok([table[r0], table[r1]])
  {
    var r := AffineDecrypt(K, L, c, table, mod);
    assert r.Ok? && SpellsDifference(r.value, VecMat(c, inv), VecMat(L, inv), table, mod);
    RowPairSpelled(r.value, c, L, inv, table, mod, c0, c1, l0, l1, i00, i01, i10, i11);
  }

  /** A 2-letter block decrypted with column vectors, given the inverse of
      the key: letter i is entry i of K^-1 c - K^-1 L, reduced. */
  lemma AffineDecryptColumn2Of(K: Mat, L: Vector, c: Vector, table: string, mod: int, inv: Mat,
                               c0: int, c1: int, l0: int, l1: int, i00: int, i01: int, i10: int, i11: int,
                               r0: int, r1: int)
    requires 0 < mod <= |table| && IsSquare(K) && |K| == 2 && ModInverse(K, mod) == Ok(inv)
    requires c == [c0, c1] && L == [l0, l1] && inv == [[i00, i01], [i10, i11]]
    requires r0 == (i00 * c0 + i01 * c1 - (i00 * l0 + i01 * l1)) % mod && r1 == (i10 * c0 + i11 * c1 - (i10 * l0 + i11 * l1)) % mod
    ensures AffineDecryptColumn(K, L, c, table, mod) == Ok([table[r0], table[r1]])
  {
    var r := AffineDecryptColumn(K, L, c, table, mod);
    assert r.Ok? && SpellsDifference(r.value, MatVec(inv, c), MatVec(inv, L), table, mod);
    ColumnPairSpelled(r.value, c, L, inv, table, mod, c0, c1, l0, l1, i00, i01, i10, i11);
  }

  /** The inverse of the non-symmetric key K = [[1, 1], [0, 1]] modulo 29. */
  lemma ShearInverse(K: Mat)
    requires K == [[1, 1], [0, 1]]
    ensures ModInverse(K, 29) == Ok([[1, 28], [0, 1]])
  {
    assert IsInverse(1, 29, 1);
    assert Inverse(1, 29) == Some(1);
    ModInverse2Of(K, 29, 1, [[1, 28], [0, 1]], 1, 1, 0, 1);
  }

  /** The plaintext "AB" is the numbers [0, 1] in the mod 29 table. */
  lemma ShearPlain()
    ensures ToLetters([0, 1], Letters29) == Ok("AB")
  {
    var a := ToLetters([0, 1], Letters29).value;
    assert a[0] == 'A' && a[1] == 'B';
    assert a == "AB";
  }

  /** With the key [[1, 1], [0, 1]] and offset [0, 0] modulo 29, "AB"
      (the numbers [0, 1]) encrypts to "BB". */
  lemma ShearEncrypt()
    ensures AffineEncrypt(MatrixKey([[1, 1], [0, 1]], [0, 0]), [0, 1], Letters29, 29) == Ok("BB")
  {
    AffineEncrypt2Of([[1, 1], [0, 1]], [0, 0], [0, 1], Letters29, 29, 1, 1, 0, 1, 0, 0, 0, 1, 1, 1);
    assert [Letters29[1], Letters29[1]] == "BB";
  }

  /** The ciphertext "BB" reads back as the numbers [1, 1]. */
  lemma ShearCipherNumbers()
    ensures ToNumbers("BB", NumsOf29) == Ok([1, 1])
  {
    LettersDistinct();
    NumbersRoundTrip([1, 1], Letters29);
    var b := ToLetters([1, 1], Letters29).value;
    assert b[0] == 'B' && b[1] == 'B';
    assert b == "BB";
  }

  /** The source's decryption turns "BB" into "BA", not back into "AB". */
  lemma AffineDecryptCounterexample(K: Mat)
    requires K == [[1, 1], [0, 1]]
    ensures AffineDecrypt(K, [0, 0], [1, 1], Letters29, 29) == Ok("BA")
  {
    ShearInverse(K);
    AffineDecrypt2Of(K, [0, 0], [1, 1], Letters29, 29, [[1, 28], [0, 1]], 1, 1, 0, 0, 1, 28, 0, 1, 1, 0);
    assert [Letters29[1], Letters29[0]] == "BA";
  }

  /** The column-vector decryption turns "BB" back into "AB". */
  lemma AffineDecryptColumnRecoversShear(K: Mat)
    requires K == [[1, 1], [0, 1]]
    ensures AffineDecryptColumn(K, [0, 0], [1, 1], Letters29, 29) == Ok("AB")
  {
    ShearInverse(K);
    AffineDecryptColumn2Of(K, [0, 0], [1, 1], Letters29, 29, [[1, 28], [0, 1]], 1, 1, 0, 0, 1, 28, 0, 1, 0, 1);
    assert [Letters29[0], Letters29[1]] == "AB";
  }

  // ---------------------------------------------------------------------
  // Test vectors

  lemma CaesarEncryptTestVector()
    ensures CaesarEncrypt([16], [18, 19, 14, 15], Letters26, 26) == Ok("IJEF")
  {
    var e := CaesarEncrypt([16], [18, 19, 14, 15], Letters26, 26).value;
    assert e[0] == 'I' && e[1] == 'J' && e[2] == 'E' && e[3] == 'F';
    assert e == "IJEF";
  }

  lemma CaesarDecryptTestVector()
    ensures CaesarDecrypt([16], [19, 7, 4, 5], Letters26, 26) == Ok("DROP")
  {
    var d := CaesarDecrypt([16], [19, 7, 4, 5], Letters26, 26).value;
    assert d[0] == 'D' && d[1] == 'R' && d[2] == 'O' && d[3] == 'P';
    assert d == "DROP";
  }

  lemma AffineEncryptMatrixTestVector()
    ensures AffineEncrypt(MatrixKey([[5, 5], [5, 8]], [9, 2]), [18, 7], Letters29, 29) == Ok("SD")
  {
    AffineEncrypt2Of([[5, 5], [5, 8]], [9, 2], [18, 7], Letters29, 29, 5, 5, 5, 8, 9, 2, 18, 7, 18, 3);
    assert [Letters29[18], Letters29[3]] == "SD";
  }

  lemma AffineEncryptScalarTestVector()
    ensures AffineEncrypt(ScalarKey(9, 19), [18, 7, 14, 14, 19], Letters26, 26) == Ok("ZEPPI")
  {
    var z := AffineEncrypt(ScalarKey(9, 19), [18, 7, 14, 14, 19], Letters26, 26).value;
    assert z[0] == 'Z' && z[1] == 'E' && z[2] == 'P' && z[3] == 'P' && z[4] == 'I';
    assert z == "ZEPPI";
  }

  lemma AffineDecryptTestVector(K: Mat)
    requires K == [[5, 5], [5, 8]]
    ensures AffineDecrypt(K, [9, 2], [20, 12], Letters29, 29) == Ok("ST")
  {
    InverseTestVector2(K);
    AffineDecrypt2Of(K, [9, 2], [20, 12], Letters29, 29, [[16, 19], [19, 10]], 20, 12, 9, 2, 16, 19, 19, 10, 18, 19);
    assert [Letters29[18], Letters29[19]] == "ST";
  }

  // ---------------------------------------------------------------------
  // Vigenere test vectors

  /** The keys of the Vigenere tests, with their spaces removed and read as
      numbers in the mod 26 table. */
  lemma PlumKey()
    ensures StripSpaces("PLUM") == "PLUM"
    ensures StripSpaces("PL UM") == "PLUM"
    ensures StripSpaces("PL U M") == "PLUM"
  {
  }

  /** Two strings that spell the same shifts are equal. */
  lemma ShiftedByUnique(s: string, t: string, msg: seq<int>, key: seq<int>, sign: int, table: string)
    requires |key| > 0 && 26 <= |table|
    requires ShiftedBy(s, msg, key, sign, table) && ShiftedBy(t, msg, key, sign, table)
    ensures s == t
  {
    forall i | 0 <= i < |s| ensures s[i] == t[i] {
      assert s[i] == table[(msg[i] + sign * key[i % |key|]) % 26];
    }
  }

  /** A Vigenere encryption, letter by letter, given the key's numbers. */
  lemma VigenereEncryptByKey(k: string, nums: seq<int>, msg: seq<int>, expected: string, table: string, invTable: Table)
    requires KeyConverts(k, invTable) && ToNumbers(StripSpaces(k), invTable) == Ok(nums) && 26 <= |table|
    requires |nums| > 0 && ShiftedBy(expected, msg, nums, 1, table)
    ensures VigenereEncrypt(k, msg, table, invTable, 26) == Ok(expected)
  {
    ShiftedByUnique(VigenereEncrypt(k, msg, table, invTable, 26).value, expected, msg, nums, 1, table);
  }

  /** A Vigenere decryption, letter by letter, given the key's numbers. */
  lemma VigenereDecryptByKey(k: string, nums: seq<int>, msg: seq<int>, expected: string, table: string, invTable: Table)
    requires KeyConverts(k, invTable) && ToNumbers(StripSpaces(k), invTable) == Ok(nums) && 26 <= |table|
    requires |nums| > 0 && ShiftedBy(expected, msg, nums, -1, table)
    ensures VigenereDecrypt(k, msg, table, invTable, 26) == Ok(expected)
  {
    ShiftedByUnique(VigenereDecrypt(k, msg, table, invTable, 26).value, expected, msg, nums, -1, table);
  }

  /** "SELLALLOURSHARES" shifted by "PLUM", letter by letter. */
  lemma VigenereEncryptEvenLetters(msg: seq<int>, nums: seq<int>, expected: string)
    requires msg == [18, 4, 11, 11, 0, 11, 11, 14, 20, 17, 18, 7, 0, 17, 4, 18] && nums == [15, 11, 20, 12] && expected == "HPFXPWFAJCMTPCYE"
    ensures ShiftedBy(expected, msg, nums, 1, Letters26)
  {
    forall i | 0 <= i < |msg| ensures expected[i] == Letters26[(msg[i] + 1 * nums[i % |nums|]) % 26] {
      if i == 0 {
        assert expected[0] == Letters26[7];
      } else if i == 1 {
        assert expected[1] == Letters26[15];
      } else if i == 2 {
        assert expected[2] == Letters26[5];
      } else if i == 3 {
        assert expected[3] == Letters26[23];
      } else if i == 4 {
        assert expected[4] == Letters26[15];
      } else if i == 5 {
        assert expected[5] == Letters26[22];
      } else if i == 6 {
        assert expected[6] == Letters26[5];
      } else if i == 7 {
        assert expected[7] == Letters26[0];
      } else if i == 8 {
        assert expected[8] == Letters26[9];
      } else if i == 9 {
        assert expected[9] == Letters26[2];
      } else if i == 10 {
        assert expected[10] == Letters26[12];
      } else if i == 11 {
        assert expected[11] == Letters26[19];
      } else if i == 12 {
        assert expected[12] == Letters26[15];
      } else if i == 13 {
        assert expected[13] == Letters26[2];
      } else if i == 14 {
        assert expected[14] == Letters26[24];
      } else {
        assert i == 15;
        assert expected[15] == Letters26[4];
      }
    }
  }

  /** "SELLALLOURSHARES" under the key "PLUM". */
  lemma VigenereEncryptEvenTestVector()
    ensures VigenereEncrypt("PLUM", [18, 4, 11, 11, 0, 11, 11, 14, 20, 17, 18, 7, 0, 17, 4, 18], Letters26, NumsOf26, 26) == Ok("HPFXPWFAJCMTPCYE")
  {
    VigenereEncryptEvenLetters([18, 4, 11, 11, 0, 11, 11, 14, 20, 17, 18, 7, 0, 17, 4, 18], [15, 11, 20, 12], "HPFXPWFAJCMTPCYE");
    PlumKey();
    ConvertTestVectors();
    VigenereEncryptByKey("PLUM", [15, 11, 20, 12], [18, 4, 11, 11, 0, 11, 11, 14, 20, 17, 18, 7, 0, 17, 4, 18], "HPFXPWFAJCMTPCYE", Letters26, NumsOf26);
  }

  /** "SELLALL" shifted by "PLUM", letter by letter. */
  lemma VigenereEncryptOddLetters(msg: seq<int>, nums: seq<int>, expected: string)
    requires msg == [18, 4, 11, 11, 0, 11, 11] && nums == [15, 11, 20, 12] && expected == "HPFXPWF"
    ensures ShiftedBy(expected, msg, nums, 1, Letters26)
  {
    forall i | 0 <= i < |msg| ensures expected[i] == Letters26[(msg[i] + 1 * nums[i % |nums|]) % 26] {
      if i == 0 {
        assert expected[0] == Letters26[7];
      } else if i == 1 {
        assert expected[1] == Letters26[15];
      } else if i == 2 {
        assert expected[2] == Letters26[5];
      } else if i == 3 {
        assert expected[3] == Letters26[23];
      } else if i == 4 {
        assert expected[4] == Letters26[15];
      } else if i == 5 {
        assert expected[5] == Letters26[22];
      } else {
        assert i == 6;
        assert expected[6] == Letters26[5];
      }
    }
  }

  /** A message whose length is not a multiple of the key length. */
  lemma VigenereEncryptOddTestVector()
    ensures VigenereEncrypt("PLUM", [18, 4, 11, 11, 0, 11, 11], Letters26, NumsOf26, 26) == Ok("HPFXPWF")
  {
    VigenereEncryptOddLetters([18, 4, 11, 11, 0, 11, 11], [15, 11, 20, 12], "HPFXPWF");
    PlumKey();
    ConvertTestVectors();
    VigenereEncryptByKey("PLUM", [15, 11, 20, 12], [18, 4, 11, 11, 0, 11, 11], "HPFXPWF", Letters26, NumsOf26);
  }

  /** "SELLA" shifted by "PLUM", letter by letter. */
  lemma VigenereEncryptSpacedKeyLetters(msg: seq<int>, nums: seq<int>, expected: string)
    requires msg == [18, 4, 11, 11, 0] && nums == [15, 11, 20, 12] && expected == "HPFXP"
    ensures ShiftedBy(expected, msg, nums, 1, Letters26)
  {
    forall i | 0 <= i < |msg| ensures expected[i] == Letters26[(msg[i] + 1 * nums[i % |nums|]) % 26] {
      if i == 0 {
        assert expected[0] == Letters26[7];
      } else if i == 1 {
        assert expected[1] == Letters26[15];
      } else if i == 2 {
        assert expected[2] == Letters26[5];
      } else if i == 3 {
        assert expected[3] == Letters26[23];
      } else {
        assert i == 4;
        assert expected[4] == Letters26[15];
      }
    }
  }

  /** A key with a space encrypts as the key without it. */
  lemma VigenereEncryptSpacedKeyTestVector()
    ensures VigenereEncrypt("PL UM", [18, 4, 11, 11, 0], Letters26, NumsOf26, 26) == Ok("HPFXP")
  {
    VigenereEncryptSpacedKeyLetters([18, 4, 11, 11, 0], [15, 11, 20, 12], "HPFXP");
    PlumKey();
    ConvertTestVectors();
    VigenereEncryptByKey("PL UM", [15, 11, 20, 12], [18, 4, 11, 11, 0], "HPFXP", Letters26, NumsOf26);
  }

  /** "JANTTNLQTV" shifted back by "PLUM", letter by letter. */
  lemma VigenereDecryptEvenLetters(msg: seq<int>, nums: seq<int>, expected: string)
    requires msg == [9, 0, 13, 19, 19, 13, 11, 16, 19, 21] && nums == [15, 11, 20, 12] && expected == "UPTHECREEK"
    ensures ShiftedBy(expected, msg, nums, -1, Letters26)
  {
    forall i | 0 <= i < |msg| ensures expected[i] == Letters26[(msg[i] + -1 * nums[i % |nums|]) % 26] {
      if i == 0 {
        assert expected[0] == Letters26[20];
      } else if i == 1 {
        assert expected[1] == Letters26[15];
      } else if i == 2 {
        assert expected[2] == Letters26[19];
      } else if i == 3 {
        assert expected[3] == Letters26[7];
      } else if i == 4 {
        assert expected[4] == Letters26[4];
      } else if i == 5 {
        assert expected[5] == Letters26[2];
      } else if i == 6 {
        assert expected[6] == Letters26[17];
      } else if i == 7 {
        assert expected[7] == Letters26[4];
      } else if i == 8 {
        assert expected[8] == Letters26[4];
      } else {
        assert i == 9;
        assert expected[9] == Letters26[10];
      }
    }
  }

  /** Decryption under the key "PLUM". */
  lemma VigenereDecryptEvenTestVector()
    ensures VigenereDecrypt("PLUM", [9, 0, 13, 19, 19, 13, 11, 16, 19, 21], Letters26, NumsOf26, 26) == Ok("UPTHECREEK")
  {
    VigenereDecryptEvenLetters([9, 0, 13, 19, 19, 13, 11, 16, 19, 21], [15, 11, 20, 12], "UPTHECREEK");
    PlumKey();
    ConvertTestVectors();
    VigenereDecryptByKey("PLUM", [15, 11, 20, 12], [9, 0, 13, 19, 19, 13, 11, 16, 19, 21], "UPTHECREEK", Letters26, NumsOf26);
  }

  /** "JAN" shifted back by "PLUM", letter by letter. */
  lemma VigenereDecryptOddLetters(msg: seq<int>, nums: seq<int>, expected: string)
    requires msg == [9, 0, 13] && nums == [15, 11, 20, 12] && expected == "UPT"
    ensures ShiftedBy(expected, msg, nums, -1, Letters26)
  {
    forall i | 0 <= i < |msg| ensures expected[i] == Letters26[(msg[i] + -1 * nums[i % |nums|]) % 26] {
      if i == 0 {
        assert expected[0] == Letters26[20];
      } else if i == 1 {
        assert expected[1] == Letters26[15];
      } else {
        assert i == 2;
        assert expected[2] == Letters26[19];
      }
    }
  }

  /** A message shorter than the key. */
  lemma VigenereDecryptOddTestVector()
    ensures VigenereDecrypt("PLUM", [9, 0, 13], Letters26, NumsOf26, 26) == Ok("UPT")
  {
    VigenereDecryptOddLetters([9, 0, 13], [15, 11, 20, 12], "UPT");
    PlumKey();
    ConvertTestVectors();
    VigenereDecryptByKey("PLUM", [15, 11, 20, 12], [9, 0, 13], "UPT", Letters26, NumsOf26);
  }

  /** "JANTTN" shifted back by "PLUM", letter by letter. */
  lemma VigenereDecryptSpacedKeyLetters(msg: seq<int>, nums: seq<int>, expected: string)
    requires msg == [9, 0, 13, 19, 19, 13] && nums == [15, 11, 20, 12] && expected == "UPTHEC"
    ensures ShiftedBy(expected, msg, nums, -1, Letters26)
  {
    forall i | 0 <= i < |msg| ensures expected[i] == Letters26[(msg[i] + -1 * nums[i % |nums|]) % 26] {
      if i == 0 {
        assert expected[0] == Letters26[20];
      } else if i == 1 {
        assert expected[1] == Letters26[15];
      } else if i == 2 {
        assert expected[2] == Letters26[19];
      } else if i == 3 {
        assert expected[3] == Letters26[7];
      } else if i == 4 {
        assert expected[4] == Letters26[4];
      } else {
        assert i == 5;
        assert expected[5] == Letters26[2];
      }
    }
  }

  /** A key with two spaces. */
  lemma VigenereDecryptSpacedKeyTestVector()
    ensures VigenereDecrypt("PL U M", [9, 0, 13, 19, 19, 13], Letters26, NumsOf26, 26) == Ok("UPTHEC")
  {
    VigenereDecryptSpacedKeyLetters([9, 0, 13, 19, 19, 13], [15, 11, 20, 12], "UPTHEC");
    PlumKey();
    ConvertTestVectors();
    VigenereDecryptByKey("PL U M", [15, 11, 20, 12], [9, 0, 13, 19, 19, 13], "UPTHEC", Letters26, NumsOf26);
  }

  // ---------------------------------------------------------------------
  // One-time pad test vectors: a key phrase at least as long as the message

  /** Removing the spaces of two space-separated parts joins the parts. */
  lemma StripSpacesJoin(x: string, c: string)
    requires ' ' !in c
    ensures StripSpaces(x + " " + c) == StripSpaces(x) + c
  {
    assert x + " " + c == x + (" " + c);
    StripSpacesAppend(x, " " + c);
    StripSpacesAppend(" ", c);
    StripSpacesNone(c);
    assert StripSpaces(" ") == "";
  }

  /** The key phrase loses its two spaces. */
  lemma RerumStripped()
    ensures StripSpaces("RERUM" + " " + "COGNOSCERE" + " " + "CAUSAS") == "RERUM" + "COGNOSCERE" + "CAUSAS"
  {
    StripSpacesJoin("RERUM" + " " + "COGNOSCERE", "CAUSAS");
    StripSpacesJoin("RERUM", "COGNOSCERE");
    StripSpacesNone("RERUM");
  }

  /** A word whose letters are the given numbers in the mod 26 table is
      read back as those numbers. */
  lemma WordNumbers(w: string, nums: seq<int>)
    requires forall i :: 0 <= i < |nums| ==> 0 <= nums[i] < 26
    requires ToLetters(nums, Letters26).Ok? && ToLetters(nums, Letters26).value == w
    ensures LookUp(w, InverseOf(Letters26)) == Ok(nums)
  {
    LettersDistinct();
    NumbersRoundTrip(nums, Letters26);
  }

  /** The key phrase read as numbers in the mod 26 table, in pieces of at
      most six letters. */
  lemma RerumWordNumbers()
    ensures LookUp("RERUM", InverseOf(Letters26)) == Ok([17, 4, 17, 20, 12])
  {
    WordNumbers("RERUM", [17, 4, 17, 20, 12]);
  }

  /** See RerumWordNumbers. */
  lemma CognoNumbers()
    ensures LookUp("COGNO", InverseOf(Letters26)) == Ok([2, 14, 6, 13, 14])
  {
    WordNumbers("COGNO", [2, 14, 6, 13, 14]);
  }

  /** See RerumWordNumbers. */
  lemma ScereNumbers()
    ensures LookUp("SCERE", InverseOf(Letters26)) == Ok([18, 2, 4, 17, 4])
  {
    WordNumbers("SCERE", [18, 2, 4, 17, 4]);
  }

  /** See RerumWordNumbers. */
  lemma CausasNumbers()
    ensures LookUp("CAUSAS", InverseOf(Letters26)) == Ok([2, 0, 20, 18, 0, 18])
  {
    WordNumbers("CAUSAS", [2, 0, 20, 18, 0, 18]);
  }

  /** The numbers of the key phrase in the mod 26 table, piece by piece. */
  lemma RerumNumbers(k: string)
    requires k == "RERUM" + "COGNO" + "SCERE" + "CAUSAS"
    ensures ToNumbers(k, NumsOf26)
         == Ok([17, 4, 17, 20, 12] + [2, 14, 6, 13, 14] + [18, 2, 4, 17, 4] + [2, 0, 20, 18, 0, 18])
  {
    var t := InverseOf(Letters26);
    RerumWordNumbers();
    CognoNumbers();
    ScereNumbers();
    CausasNumbers();
    LookUpAppend("RERUM", "COGNO", t);
    LookUpAppend("RERUM" + "COGNO", "SCERE", t);
    LookUpAppend("RERUM" + "COGNO" + "SCERE", "CAUSAS", t);
  }

  /** The pieces of the key phrase, end to end. */
  lemma RerumJoin()
    ensures "RERUM" + "COGNOSCERE" + "CAUSAS" == "RERUM" + "COGNO" + "SCERE" + "CAUSAS"
    ensures [17, 4, 17, 20, 12] + [2, 14, 6, 13, 14] + [18, 2, 4, 17, 4] + [2, 0, 20, 18, 0, 18]
         == [17, 4, 17, 20, 12, 2, 14, 6, 13, 14, 18, 2, 4, 17, 4, 2, 0, 20, 18, 0, 18]
  {
  }

  /** The key phrase converts, to the numbers of its three words. */
  lemma RerumKey(k: string, nums: seq<int>)
    requires k == "RERUM" + " " + "COGNOSCERE" + " " + "CAUSAS"
    requires nums == [17, 4, 17, 20, 12, 2, 14, 6, 13, 14, 18, 2, 4, 17, 4, 2, 0, 20, 18, 0, 18]
    ensures KeyConverts(k, NumsOf26) && ToNumbers(StripSpaces(k), NumsOf26) == Ok(nums)
  {
    RerumStripped();
    RerumJoin();
    RerumNumbers("RERUM" + "COGNOSCERE" + "CAUSAS");
  }

  /** The key phrase of the one-time pad tests, as written there. */
  lemma RerumPhrase()
    ensures ToNumbers(StripSpaces("RERUM COGNOSCERE CAUSAS"), NumsOf26) == Ok([17, 4, 17, 20, 12, 2, 14, 6, 13, 14, 18, 2, 4, 17, 4, 2, 0, 20, 18, 0, 18])
  {
    RerumKey("RERUM COGNOSCERE CAUSAS", [17, 4, 17, 20, 12, 2, 14, 6, 13, 14, 18, 2, 4, 17, 4, 2, 0, 20, 18, 0, 18]);
  }

  /** The numbers of the key phrase, split after the letters a message
      uses. */
  lemma RerumPhraseSplit(nums: seq<int>, rest: seq<int>)
    requires nums + rest == [17, 4, 17, 20, 12, 2, 14, 6, 13, 14, 18, 2, 4, 17, 4, 2, 0, 20, 18, 0, 18]
    ensures ToNumbers(StripSpaces("RERUM COGNOSCERE CAUSAS"), NumsOf26) == Ok(nums + rest)
  {
    RerumPhrase();
  }

  /** Each letter is the message number shifted by the key number at the
      same position; the key covers the whole message. */
  predicate ShiftedByPrefix(s: string, msg: seq<int>, nums: seq<int>, sign: int, table: string)
    requires 26 <= |table|
  {
    0 < |s| == |msg| <= |nums| && forall i :: 0 <= i < |msg| ==> s[i] == table[(msg[i] + sign * nums[i]) % 26]
  }

  /** A key at least as long as the message never wraps around: only its
      first numbers are used, one per letter. */
  lemma ShiftedByLongKey(s: string, msg: seq<int>, nums: seq<int>, rest: seq<int>, sign: int, table: string)
    requires 26 <= |table| && ShiftedByPrefix(s, msg, nums, sign, table)
    ensures ShiftedBy(s, msg, nums + rest, sign, table)
  {
    var key := nums + rest;
    forall i | 0 <= i < |msg| ensures s[i] == table[(msg[i] + sign * key[i % |key|]) % 26] {
      ModUnique(i, |key|, 0, i);
      assert key[i] == nums[i];
    }
  }

  /** "GETOUTTONIGHT" shifted by the first thirteen letters of the key phrase. */
  lemma OneTimePadEncryptLetters(msg: seq<int>, nums: seq<int>, expected: string)
    requires msg == [6, 4, 19, 14, 20, 19, 19, 14, 13, 8, 6, 7, 19]
    requires nums == [17, 4, 17, 20, 12, 2, 14, 6, 13, 14, 18, 2, 4]
    requires expected == "XIKIGVHUAWYJX"
    ensures ShiftedByPrefix(expected, msg, nums, 1, Letters26)
  {
    forall i | 0 <= i < |msg| ensures expected[i] == Letters26[(msg[i] + 1 * nums[i]) % 26] {
      if i == 0 {
        assert expected[0] == Letters26[23];
      } else if i == 1 {
        assert expected[1] == Letters26[8];
      } else if i == 2 {
        assert expected[2] == Letters26[10];
      } else if i == 3 {
        assert expected[3] == Letters26[8];
      } else if i == 4 {
        assert expected[4] == Letters26[6];
      } else if i == 5 {
        assert expected[5] == Letters26[21];
      } else if i == 6 {
        assert expected[6] == Letters26[7];
      } else if i == 7 {
        assert expected[7] == Letters26[20];
      } else if i == 8 {
        assert expected[8] == Letters26[0];
      } else if i == 9 {
        assert expected[9] == Letters26[22];
      } else if i == 10 {
        assert expected[10] == Letters26[24];
      } else if i == 11 {
        assert expected[11] == Letters26[9];
      } else {
        assert i == 12;
        assert expected[12] == Letters26[23];
      }
    }
  }

  /** A key phrase longer than the message: only its first letters are used. */
  lemma OneTimePadEncryptTestVector()
    ensures VigenereEncrypt("RERUM COGNOSCERE CAUSAS", [6, 4, 19, 14, 20, 19, 19, 14, 13, 8, 6, 7, 19], Letters26, NumsOf26, 26) == Ok("XIKIGVHUAWYJX")
  {
    OneTimePadEncryptLetters([6, 4, 19, 14, 20, 19, 19, 14, 13, 8, 6, 7, 19], [17, 4, 17, 20, 12, 2, 14, 6, 13, 14, 18, 2, 4], "XIKIGVHUAWYJX");
    ShiftedByLongKey("XIKIGVHUAWYJX", [6, 4, 19, 14, 20, 19, 19, 14, 13, 8, 6, 7, 19], [17, 4, 17, 20, 12, 2, 14, 6, 13, 14, 18, 2, 4], [17, 4, 2, 0, 20, 18, 0, 18], 1, Letters26);
    RerumPhraseSplit([17, 4, 17, 20, 12, 2, 14, 6, 13, 14, 18, 2, 4], [17, 4, 2, 0, 20, 18, 0, 18]);
    VigenereEncryptByKey("RERUM COGNOSCERE CAUSAS", [17, 4, 17, 20, 12, 2, 14, 6, 13, 14, 18, 2, 4] + [17, 4, 2, 0, 20, 18, 0, 18], [6, 4, 19, 14, 20, 19, 19, 14, 13, 8, 6, 7, 19], "XIKIGVHUAWYJX", Letters26, NumsOf26);
  }

  /** "USENSQHNRFW" shifted back by the first eleven letters of the key phrase. */
  lemma OneTimePadDecryptLetters(msg: seq<int>, nums: seq<int>, expected: string)
    requires msg == [20, 18, 4, 13, 18, 16, 7, 13, 17, 5, 22]
    requires nums == [17, 4, 17, 20, 12, 2, 14, 6, 13, 14, 18]
    requires expected == "DONTGOTHERE"
    ensures ShiftedByPrefix(expected, msg, nums, -1, Letters26)
  {
    forall i | 0 <= i < |msg| ensures expected[i] == Letters26[(msg[i] + -1 * nums[i]) % 26] {
      if i == 0 {
        assert expected[0] == Letters26[3];
      } else if i == 1 {
        assert expected[1] == Letters26[14];
      } else if i == 2 {
        assert expected[2] == Letters26[13];
      } else if i == 3 {
        assert expected[3] == Letters26[19];
      } else if i == 4 {
        assert expected[4] == Letters26[6];
      } else if i == 5 {
        assert expected[5] == Letters26[14];
      } else if i == 6 {
        assert expected[6] == Letters26[19];
      } else if i == 7 {
        assert expected[7] == Letters26[7];
      } else if i == 8 {
        assert expected[8] == Letters26[4];
      } else if i == 9 {
        assert expected[9] == Letters26[17];
      } else {
        assert i == 10;
        assert expected[10] == Letters26[4];
      }
    }
  }

  /** Decryption with the same key phrase. */
  lemma OneTimePadDecryptTestVector()
    ensures VigenereDecrypt("RERUM COGNOSCERE CAUSAS", [20, 18, 4, 13, 18, 16, 7, 13, 17, 5, 22], Letters26, NumsOf26, 26) == Ok("DONTGOTHERE")
  {
    OneTimePadDecryptLetters([20, 18, 4, 13, 18, 16, 7, 13, 17, 5, 22], [17, 4, 17, 20, 12, 2, 14, 6, 13, 14, 18], "DONTGOTHERE");
    ShiftedByLongKey("DONTGOTHERE", [20, 18, 4, 13, 18, 16, 7, 13, 17, 5, 22], [17, 4, 17, 20, 12, 2, 14, 6, 13, 14, 18], [2, 4, 17, 4, 2, 0, 20, 18, 0, 18], -1, Letters26);
    RerumPhraseSplit([17, 4, 17, 20, 12, 2, 14, 6, 13, 14, 18], [2, 4, 17, 4, 2, 0, 20, 18, 0, 18]);
    VigenereDecryptByKey("RERUM COGNOSCERE CAUSAS", [17, 4, 17, 20, 12, 2, 14, 6, 13, 14, 18] + [2, 4, 17, 4, 2, 0, 20, 18, 0, 18], [20, 18, 4, 13, 18, 16, 7, 13, 17, 5, 22], "DONTGOTHERE", Letters26, NumsOf26);
  }
}
