/** The letter arithmetic of the GUI callbacks: `modular_subtraction` and
    `xor_operation` of K4Tools.py and `shift_string` of main.py. A letter
    stands for its place 0 .. 25 in A .. Z, so `alphabet.index(c)` over the
    straight alphabet is `ord(c) - ord('A')`. */
module LetterArithmetic {
  import opened Wrappers
  import opened Text
  import opened Modular

  /** The place of a character counted from 'A'. */
  function Pos(c: char): int
  {
    c as int - 'A' as int
  }

  /** The letter at place `p` of A .. Z. */
  function Letter(p: int): (c: char)
    requires 0 <= p < 26
    ensures IsUpper(c) && Pos(c) == p
  {
    (p + 'A' as int) as char
  }

  lemma LetterPos(c: char)
    requires IsUpper(c)
    ensures Letter(Pos(c)) == c
  {
  }

  // ---------------------------------------------------------------------
  // modular_subtraction
  // ---------------------------------------------------------------------

  /** `map_to_ascii_range`: a letter becomes its capital; anything else is
      folded onto the capital with the same code point modulo 26. */
  function Fold(c: char): (f: char)
    ensures IsUpper(f)
    ensures IsLetter(c) ==> f == Upper(c)
    ensures !IsLetter(c) ==> (f as int - c as int) % 26 == 0
  {
    var u := Upper(c);
    if IsUpper(u) then u
    else
      var f := Letter((u as int - 'A' as int) % 26);
      ModUndo(0, u as int - 'A' as int, 26);
      f
  }

  function FoldStr(s: string): (r: string)
    ensures |r| == |s|
    ensures forall j :: 0 <= j < |s| ==> r[j] == Fold(s[j])
  {
    seq(|s|, j requires 0 <= j < |s| => Fold(s[j]))
  }

  /** `s * k`. */
  function Repeat(s: string, k: nat): (r: string)
    ensures |r| == k * |s|
  {
    if k == 0 then [] else
      var r := s + Repeat(s, k - 1);
      assert |r| == |s| + (k - 1) * |s| == k * |s|;
      r
  }

  /** Character `j` of `s * k` is character `j mod |s|` of `s`. */
  lemma {:induction false} RepeatAt(s: string, k: nat, j: nat)
    requires j < k * |s|
    ensures Repeat(s, k)[j] == s[j % |s|]
  {
    if j < |s| {
      ModUnique(j, 0, j, |s|);
    } else {
      assert (k - 1) * |s| == k * |s| - |s|;
      RepeatAt(s, k - 1, j - |s|);
      ModUnique(j, (j - |s|) / |s| + 1, (j - |s|) % |s|, |s|);
    }
  }

  /** Enough repetitions of a non-empty key to cover `n` characters. */
  lemma {:induction false} RepetitionsCover(n: nat, m: nat)
    requires m > 0
    ensures ((n + m - 1) / m) * m >= n
  {
    var q, r := (n + m - 1) / m, (n + m - 1) % m;
    assert n + m - 1 == q * m + r;
  }

  /** `(key * repetitions)[:n]` with `repetitions = (n + len(key) - 1)
      // len(key)`: the key cycled to exactly `n` characters. */
  function Cycle(key: string, n: nat): (r: string)
    requires |key| > 0
    ensures |r| == n
    ensures forall j :: 0 <= j < n ==> r[j] == key[j % |key|]
  {
    var reps := (n + |key| - 1) / |key|;
    RepetitionsCover(n, |key|);
    var r := Repeat(key, reps)[..n];
    assert forall j :: 0 <= j < n ==> r[j] == key[j % |key|] by {
      forall j | 0 <= j < n ensures r[j] == key[j % |key|] {
        RepeatAt(key, reps, j);
      }
    }
    r
  }

  /** Letter by letter `(pos1 - pos2) mod 26`, over `zip`. */
  function SubLetters(x: string, y: string): (r: string)
    requires |x| == |y|
    ensures |r| == |x|
    ensures forall j :: 0 <= j < |x| ==> IsUpper(r[j])
  {
    seq(|x|, j requires 0 <= j < |x| => Letter((Pos(x[j]) - Pos(y[j])) % 26))
  }

  /** Letter by letter `(pos1 + pos2) mod 26`: the operation subtraction
      undoes. */
  function AddLetters(x: string, y: string): (r: string)
    requires |x| == |y|
    ensures |r| == |x|
    ensures forall j :: 0 <= j < |x| ==> IsUpper(r[j])
  {
    seq(|x|, j requires 0 <= j < |x| => Letter((Pos(x[j]) + Pos(y[j])) % 26))
  }

  /** What the callback writes out: the folded repeated key and the
      difference. */
  datatype Subtraction = Subtraction(repeatedKey: string, difference: string)

  /** `modular_subtraction` with the two fields as parameters: both are
      stripped, an empty key is refused with an error dialog, and the key is
      cycled to the length of the text before both are folded. */
  function ModularSubtraction(input1: string, input2: string): (r: Result<Subtraction>)
    ensures r.Err? <==> |Strip(input2)| == 0
    ensures r.Err? ==> r.failure == Rejected
    ensures r.Ok? ==> |r.value.repeatedKey| == |r.value.difference| == |Strip(input1)|
    ensures r.Ok? ==> var key := Strip(input2);
                      forall j :: 0 <= j < |Strip(input1)| ==> r.value.repeatedKey[j] == Fold(key[j % |key|])
    ensures r.Ok? ==> forall j :: 0 <= j < |Strip(input1)| ==> IsUpper(r.value.difference[j])
  {
    var text := Strip(input1);
    var key := Strip(input2);
    if |key| == 0 then Err(Rejected)
    else
      var folded := FoldStr(Cycle(key, |text|));
      Ok(Subtraction(folded, SubLetters(FoldStr(text), folded)))
  }

  lemma {:induction false} AddSubLetters(x: string, y: string)
    requires |x| == |y|
    requires forall j :: 0 <= j < |x| ==> IsUpper(x[j])
    ensures AddLetters(SubLetters(x, y), y) == x
  {
    var d := SubLetters(x, y);
    forall j | 0 <= j < |x| ensures AddLetters(d, y)[j] == x[j] {
      ModUndo(Pos(x[j]), -Pos(y[j]), 26);
      LetterPos(x[j]);
    }
  }

  /** Adding the repeated key back to the difference gives the folded
      text: the subtraction loses nothing but the folding. */
  lemma SubtractionUndo(input1: string, input2: string)
    requires |Strip(input2)| > 0
    ensures var s := ModularSubtraction(input1, input2).value;
            AddLetters(s.difference, s.repeatedKey) == FoldStr(Strip(input1))
  {
    var text := Strip(input1);
    var folded := FoldStr(Cycle(Strip(input2), |text|));
    AddSubLetters(FoldStr(text), folded);
  }

  /** Subtracting place 0 everywhere changes nothing. */
  lemma {:induction false} SubZero(x: string, y: string)
    requires |x| == |y|
    requires forall j :: 0 <= j < |x| ==> IsUpper(x[j]) && y[j] == 'A'
    ensures SubLetters(x, y) == x
  {
    forall j | 0 <= j < |x| ensures SubLetters(x, y)[j] == x[j] {
      ModUnique(Pos(x[j]), 0, Pos(x[j]), 26);
      LetterPos(x[j]);
    }
  }

  /** A key of `A`s (place 0) leaves the folded text as it is. */
  lemma {:induction false} SubtractNothing(input1: string, input2: string)
    requires |Strip(input2)| > 0
    requires forall j :: 0 <= j < |Strip(input2)| ==> Upper(Strip(input2)[j]) == 'A'
    ensures ModularSubtraction(input1, input2).value.difference == FoldStr(Strip(input1))
  {
    var text := Strip(input1);
    var key := Strip(input2);
    var folded := FoldStr(Cycle(key, |text|));
    assert ModularSubtraction(input1, input2).value.difference == SubLetters(FoldStr(text), folded);
    forall j | 0 <= j < |text| ensures folded[j] == 'A' {
      assert Upper(key[j % |key|]) == 'A';
    }
    SubZero(FoldStr(text), folded);
  }

  // ---------------------------------------------------------------------
  // xor_operation
  // ---------------------------------------------------------------------

  /** Python's `^` on non-negative integers, bit by bit from the lowest. */
  function BitXor(a: nat, b: nat): nat
    decreases a + b
  {
    if a == 0 && b == 0 then 0
    else 2 * BitXor(a / 2, b / 2) + (a % 2 + b % 2) % 2
  }

  lemma {:induction false} BitXorSymmetric(a: nat, b: nat)
    ensures BitXor(a, b) == BitXor(b, a)
    decreases a + b
  {
    if a != 0 || b != 0 {
      BitXorSymmetric(a / 2, b / 2);
    }
  }

  lemma {:induction false} BitXorSelf(a: nat)
    ensures BitXor(a, a) == 0
    decreases a
  {
    if a != 0 {
      BitXorSelf(a / 2);
    }
  }

  lemma {:induction false} BitXorHalves(a: nat, b: nat)
    ensures BitXor(a, b) / 2 == BitXor(a / 2, b / 2)
    ensures BitXor(a, b) % 2 == (a % 2 + b % 2) % 2
  {
  }

  /** The low bit of a xor of bits. */
  lemma BitSum(p: nat, q: nat)
    requires p < 2 && q < 2
    ensures ((p + q) % 2 + q) % 2 == p
  {
  }

  /** Xoring twice with the same value gives the first value back. */
  lemma {:induction false} BitXorTwice(a: nat, b: nat)
    ensures BitXor(BitXor(a, b), b) == a
    decreases a + b
  {
    if a != 0 || b != 0 {
      var x := BitXor(a, b);
      BitXorHalves(a, b);
      BitXorTwice(a / 2, b / 2);
      BitSum(a % 2, b % 2);
      assert BitXor(x / 2, b / 2) == a / 2;
      assert (x % 2 + b % 2) % 2 == a % 2;
      BitXorHalves(x, b);
      assert a == 2 * (a / 2) + a % 2;
      assert BitXor(x, b) == 2 * (BitXor(x, b) / 2) + BitXor(x, b) % 2;
    }
  }

  /** `ord(c1) ^ ord(c2)`. */
  function RawXor(c1: char, c2: char): nat
  {
    BitXor(c1 as int, c2 as int)
  }

  /** One character of `xor_operation`: the xor of the code points, or,
      when that is not the code of a capital, the capital `65 + x mod 26`. */
  function XorChar(c1: char, c2: char): (x: char)
    ensures IsUpper(x)
    ensures 65 <= RawXor(c1, c2) <= 90 ==> x as int == RawXor(c1, c2)
    ensures !(65 <= RawXor(c1, c2) <= 90) ==> Pos(x) == RawXor(c1, c2) % 26
  {
    var v := RawXor(c1, c2);
    if v < 65 || v > 90 then (65 + v % 26) as char else v as char
  }

  /** `xor_operation`: strings of unequal length are refused with
      `ValueError`; otherwise the strings are combined character by
      character. */
  function XorOperation(text1: string, text2: string): (r: Result<string>)
    ensures r.Err? <==> |text1| != |text2|
    ensures r.Err? ==> r.failure == ValueError
    ensures r.Ok? ==> |r.value| == |text1|
    ensures r.Ok? ==> forall j :: 0 <= j < |text1| ==> IsUpper(r.value[j])
    ensures r.Ok? ==> forall j :: 0 <= j < |text1| ==> r.value[j] == XorChar(text1[j], text2[j])
  {
    if |text1| != |text2| then Err(ValueError)
    else Ok(seq(|text1|, j requires 0 <= j < |text1| => XorChar(text1[j], text2[j])))
  }

  /** The operation is symmetric in its arguments. */
  lemma {:induction false} XorSymmetric(text1: string, text2: string)
    ensures XorOperation(text1, text2) == XorOperation(text2, text1)
  {
    if |text1| == |text2| {
      var r, q := XorOperation(text1, text2).value, XorOperation(text2, text1).value;
      forall j | 0 <= j < |text1| ensures r[j] == q[j] {
        BitXorSymmetric(text1[j] as int, text2[j] as int);
      }
      assert r == q;
    }
  }

  /** A string xored with itself is all `A`: the xor is 0, which folds to
      place 0. */
  lemma {:induction false} XorSelf(text: string)
    ensures XorOperation(text, text) == Ok(seq(|text|, j => 'A'))
  {
    var r := XorOperation(text, text).value;
    var all: string := seq(|text|, j => 'A');
    forall j | 0 <= j < |text| ensures r[j] == all[j] {
      BitXorSelf(text[j] as int);
    }
    assert r == all;
  }

  /** When the xor of a capital and a key character is itself a capital,
      xoring again with the key gives the capital back. */
  lemma {:induction false} XorUndo(c: char, k: char)
    requires IsUpper(c) && 65 <= RawXor(c, k) <= 90
    ensures XorChar(XorChar(c, k), k) == c
  {
    BitXorTwice(c as int, k as int);
  }

  // ---------------------------------------------------------------------
  // shift_string
  // ---------------------------------------------------------------------

  /** `shift_amounts`: the period-9 shift pattern. */
  const ShiftAmounts: seq<nat> := [1, 2, 3, 4, 5, 1, 2, 3, 4]

  /** One character at absolute position `i`: a capital moves forward by
      the pattern's shift for `i`, cyclically in A .. Z; anything else
      stays. */
  function ShiftChar(c: char, i: nat): (d: char)
    ensures IsUpper(d) <==> IsUpper(c)
    ensures !IsUpper(c) ==> d == c
    ensures IsUpper(c) ==> d != c
  {
    if IsUpper(c) then
      var sh := ShiftAmounts[i % 9];
      var d := Letter((Pos(c) + sh) % 26);
      assert 1 <= sh <= 5;
      assert d != c by {
        if Pos(c) + sh < 26 {
          ModUnique(Pos(c) + sh, 0, Pos(c) + sh, 26);
        } else {
          ModUnique(Pos(c) + sh, 1, Pos(c) + sh - 26, 26);
        }
      }
      d
    else c
  }

  /** `shift_string`: each character shifted at its own position. */
  function ShiftString(input: string): (r: string)
    ensures |r| == |input|
    ensures forall i :: 0 <= i < |input| ==> r[i] == ShiftChar(input[i], i)
  {
    seq(|input|, i requires 0 <= i < |input| => ShiftChar(input[i], i))
  }

  /** The shift taken back at the same position. */
  function UnshiftChar(c: char, i: nat): (d: char)
    ensures IsUpper(d) <==> IsUpper(c)
  {
    if IsUpper(c) then Letter((Pos(c) - ShiftAmounts[i % 9]) % 26) else c
  }

  function UnshiftString(input: string): (r: string)
    ensures |r| == |input|
    ensures forall i :: 0 <= i < |input| ==> r[i] == UnshiftChar(input[i], i)
  {
    seq(|input|, i requires 0 <= i < |input| => UnshiftChar(input[i], i))
  }

  /** Shifting loses nothing: shifting back at the same positions restores
      the input. */
  lemma {:induction false} ShiftRoundTrip(input: string)
    ensures UnshiftString(ShiftString(input)) == input
  {
    var s := ShiftString(input);
    forall i | 0 <= i < |input| ensures UnshiftString(s)[i] == input[i] {
      if IsUpper(input[i]) {
        ModUndo(Pos(input[i]), ShiftAmounts[i % 9], 26);
        LetterPos(input[i]);
      }
    }
  }
}
