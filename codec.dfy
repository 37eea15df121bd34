/** The alphanumeric conversion tables of encryption.py and
    `convert_message`, which maps a numeric message to letters through a
    string, or letters back to numbers through a dictionary. */
module Codec {
  import opened Base

  /** "A".."Z": the letter with code 65 + i stands for i (mod 26 table). */
  const Letters26: string := seq(26, i requires 0 <= i < 26 => (65 + i) as char)

  /** "A".."Z" followed by "_?!" (mod 29 table). */
  const Letters29: string := Letters26 + "_?!"

  /** No letter occurs twice in the conversion string. */
  predicate Distinct(s: string) {
    forall i, j :: 0 <= i < j < |s| ==> s[i] != s[j]
  }

  /** `dict([(l, k) for k, l in enumerate(s)])`: each letter of s mapped to
      its position; a letter occurring twice keeps its last position. */
  function InverseOf(s: string): (t: map<char, int>)
    ensures t.Keys == set c | c in s
    ensures Distinct(s) ==> forall k :: 0 <= k < |s| ==> t[s[k]] == k
  {
    if |s| == 0 then map[]
    else
      var t := InverseOf(s[..|s| - 1]);
      assert forall c :: c in s <==> c in s[..|s| - 1] || c == s[|s| - 1];
      t[s[|s| - 1] := |s| - 1]
  }

  /** An inverse conversion table. The source only checks the type of the
      first key, and its tables have keys of one type. */
  datatype Table =
    | LetterKeyed(letters: map<char, int>)
    | NumberKeyed(numbers: map<int, char>)

  const NumsOf26: Table := LetterKeyed(InverseOf(Letters26))
  const NumsOf29: Table := LetterKeyed(InverseOf(Letters29))

  lemma LettersDistinct()
    ensures Distinct(Letters26) && Distinct(Letters29)
  {
    assert forall i :: 0 <= i < 26 ==> Letters29[i] == (65 + i) as char;
    assert Letters29[26] == '_' && Letters29[27] == '?' && Letters29[28] == '!';
  }

  /** The two conversion strings, letter for letter. */
  lemma AlphabetStrings()
    ensures Letters26 == "ABCDEFGHIJKLMNOPQRSTUVWXYZ"
    ensures Letters29 == "ABCDEFGHIJKLMNOPQRSTUVWXYZ_?!"
  {
  }

  /** The inverse tables map each letter of their conversion string to its
      position, and hold no other letter. */
  lemma InverseTables()
    ensures NumsOf26.LetterKeyed? && NumsOf29.LetterKeyed?
    ensures NumsOf26.letters.Keys == set c | c in Letters26
    ensures NumsOf29.letters.Keys == set c | c in Letters29
    ensures forall k :: 0 <= k < |Letters26| ==> NumsOf26.letters[Letters26[k]] == k
    ensures forall k :: 0 <= k < |Letters29| ==> NumsOf29.letters[Letters29[k]] == k
  {
    LettersDistinct();
  }

  /** Python indexing of a string: a negative index counts from the end. */
  predicate InIndexRange(n: int, table: string) {
    -|table| <= n < |table|
  }

  function At(table: string, n: int): char
    requires InIndexRange(n, table)
  {
    if n < 0 then table[n + |table|] else table[n]
  }

  /** `convert_message(m, table)`: the letter at each number's index. */
  function ToLetters(nums: seq<int>, table: string): (r: Result<string>)
    ensures r.Ok? <==> forall i :: 0 <= i < |nums| ==> InIndexRange(nums[i], table)
    ensures r.Err? ==> r.error == IndexOutOfRange
    ensures r.Ok? ==> |r.value| == |nums|
    ensures r.Ok? ==> forall i :: 0 <= i < |nums| ==> r.value[i] == At(table, nums[i])
  {
    if |nums| == 0 then Ok([])
    else if !InIndexRange(nums[0], table) then Err(IndexOutOfRange)
    else
      var rest :- ToLetters(nums[1..], table);
      Ok([At(table, nums[0])] + rest)
  }

  /** The per-letter lookups of `convert_message(m, table, True)`. */
  function LookUp(msg: string, t: map<char, int>): (r: Result<seq<int>>)
    ensures r.Ok? <==> forall i :: 0 <= i < |msg| ==> msg[i] in t
    ensures r.Err? ==> r.error == KeyNotFound
    ensures r.Ok? ==> |r.value| == |msg|
    ensures r.Ok? ==> forall i :: 0 <= i < |msg| ==> r.value[i] == t[msg[i]]
  {
    if |msg| == 0 then Ok([])
    else if msg[0] !in t then Err(KeyNotFound)
    else
      var rest :- LookUp(msg[1..], t);
      Ok([t[msg[0]]] + rest)
  }

  /** Letters are looked up one by one: the numbers of a concatenation are
      the concatenation of the numbers. */
  lemma LookUpAppend(a: string, b: string, t: map<char, int>)
    requires LookUp(a, t).Ok? && LookUp(b, t).Ok?
    ensures LookUp(a + b, t) == Ok(LookUp(a, t).value + LookUp(b, t).value)
  {
    var u, v, w := LookUp(a, t).value, LookUp(b, t).value, LookUp(a + b, t);
    assert w.Ok? by {
      forall i | 0 <= i < |a + b| ensures (a + b)[i] in t {
        if i < |a| { assert (a + b)[i] == a[i]; } else { assert (a + b)[i] == b[i - |a|]; }
      }
    }
    forall i | 0 <= i < |a + b| ensures w.value[i] == (u + v)[i] {
      if i < |a| { assert (a + b)[i] == a[i]; } else { assert (a + b)[i] == b[i - |a|]; }
    }
    assert w.value == u + v;
  }

  /** `convert_message(m, table, True)`: an empty table has no first key to
      inspect, and a table whose keys are not letters is refused before any
      lookup. */
  function ToNumbers(msg: string, table: Table): (r: Result<seq<int>>)
    ensures table.NumberKeyed? && |table.numbers| > 0 ==> r == Err(WrongTableType)
    ensures table.LetterKeyed? && |table.letters| > 0 ==> r == LookUp(msg, table.letters)
    ensures (table.LetterKeyed? && |table.letters| == 0) || (table.NumberKeyed? && |table.numbers| == 0)
      ==> r == Err(EmptyTable)
  {
    match table
    case NumberKeyed(t) => if |t| == 0 then Err(EmptyTable) else Err(WrongTableType)
    case LetterKeyed(t) => if |t| == 0 then Err(EmptyTable) else LookUp(msg, t)
  }

  /** Numbers in [0, |s|) turned into letters of s come back through the
      inverse table of s. */
  lemma {:induction false} NumbersRoundTrip(nums: seq<int>, s: string)
    requires Distinct(s) && |s| > 0
    requires forall i :: 0 <= i < |nums| ==> 0 <= nums[i] < |s|
    ensures ToLetters(nums, s).Ok?
    ensures ToNumbers(ToLetters(nums, s).value, LetterKeyed(InverseOf(s))) == Ok(nums)
  {
    var t := InverseOf(s);
    assert s[0] in t;
    var letters := ToLetters(nums, s).value;
    var back := LookUp(letters, t);
    forall i | 0 <= i < |letters| ensures letters[i] in t && t[letters[i]] == nums[i] {
      assert letters[i] == s[nums[i]];
    }
    assert back.value == nums;
  }

  /** Letters of s turned into numbers through the inverse table of s come
      back through s. */
  lemma LettersRoundTrip(msg: string, s: string)
    requires Distinct(s) && |s| > 0
    requires forall i :: 0 <= i < |msg| ==> msg[i] in s
    ensures ToNumbers(msg, LetterKeyed(InverseOf(s))).Ok?
    ensures ToLetters(ToNumbers(msg, LetterKeyed(InverseOf(s))).value, s) == Ok(msg)
  {
    var t := InverseOf(s);
    assert s[0] in t;
    var nums := LookUp(msg, t).value;
    forall i | 0 <= i < |msg| ensures 0 <= nums[i] < |s| && s[nums[i]] == msg[i] {
      var k :| 0 <= k < |s| && s[k] == msg[i];
    }
    assert ToLetters(nums, s).value == msg;
  }

  /** The numbers of "PLUM" in the mod 26 table, in both directions. */
  lemma ConvertTestVectors()
    ensures ToLetters([15, 11, 20, 12], Letters26) == Ok("PLUM")
    ensures ToNumbers("PLUM", NumsOf26) == Ok([15, 11, 20, 12])
  {
    LettersDistinct();
    assert ToLetters([15, 11, 20, 12], Letters26).value == "PLUM";
    NumbersRoundTrip([15, 11, 20, 12], Letters26);
  }
}
