/** The base-5 addition of the two tkinter front ends (`base5_addition` in
    K4tools.py and main.py). Each capital is written as two base-5 digits,
    the two digit strings are added digit by digit modulo 5 over `zip`'s
    length, and each pair of result digits is looked up in the table again.
    The two files build the table differently and read it back
    differently:
    - K4tools.py computes it (`A` = `00` up to `Y` = `44`, and `Z` = `50`
      with the digit 5), then sets `X` to `00`; it upper-cases the inputs
      and keeps only the capitals; it reads a pair back through the
      inverted table, where the later `X` wins over `A` and the pair `43`
      has no entry and gives `?`;
    - main.py writes it out (`A` to `W` as computed, then `X` = `00`,
      `Y` = `43`, `Z` = `44`); anything but a capital raises `KeyError`;
      it reads a pair back as the first letter in table order with those
      digits, so `00` gives `A`. */
module Base5 {
  import opened Wrappers
  import opened Text
  import opened Seqs

  /** Which front end's table: K4tools.py's computed one or main.py's
      written-out one. */
  datatype Table = Computed | Written

  /** A capital's place in the alphabet, from 0. */
  function Place(c: char): (p: nat)
    requires IsUpper(c)
    ensures p < 26
  {
    c as int - 65
  }

  /** `base5_dict[c]`. */
  function Code(t: Table, c: char): (r: string)
    requires IsUpper(c)
    ensures |r| == 2 && IsDigit(r[0]) && IsDigit(r[1])
  {
    if c == 'X' then "00"
    else if t == Written && c == 'Y' then "43"
    else if t == Written && c == 'Z' then "44"
    else [DigitChar(Place(c) / 5), DigitChar(Place(c) % 5)]
  }

  /** The number a letter stands for: `X` is 0, and in the written table
      `Y` and `Z` are 23 and 24; every other letter is its place (so the
      computed `Z` is 25). */
  function Num(t: Table, c: char): (n: nat)
    requires IsUpper(c)
    ensures n <= 25 && (t == Written ==> n < 25)
  {
    if c == 'X' then 0
    else if t == Written && c == 'Y' then 23
    else if t == Written && c == 'Z' then 24
    else Place(c)
  }

  /** The table writes each letter's number in base 5: the first digit is
      the fives, the second the units. */
  lemma CodeNum(t: Table, c: char)
    requires IsUpper(c)
    ensures DigitValue(Code(t, c)[0]) == Num(t, c) / 5
    ensures DigitValue(Code(t, c)[1]) == Num(t, c) % 5
  {
  }

  /** The written table is the one the computed table would be without
      its special cases: `W` is `42` in both. */
  lemma WrittenTable()
    ensures Code(Written, 'A') == "00" && Code(Written, 'W') == "42"
    ensures Code(Computed, 'Y') == "44" && Code(Computed, 'Z') == "50"
  {
  }

  function DigitPair(h: nat, l: nat): (r: string)
    requires h < 5 && l < 5
    ensures |r| == 2 && r[0] == DigitChar(h) && r[1] == DigitChar(l)
  {
    [DigitChar(h), DigitChar(l)]
  }

  lemma TwoEqual(p: string, q: string)
    requires |p| == |q| == 2 && p[0] == q[0] && p[1] == q[1]
    ensures p == q
  {
  }

  /** A letter's code is a given pair of base-5 digits exactly when its
      number is the one they write. */
  lemma CodeIs(t: Table, y: char, h: nat, l: nat)
    requires IsUpper(y) && h < 5 && l < 5
    ensures Code(t, y) == DigitPair(h, l) <==> Num(t, y) == 5 * h + l
  {
    CodeNum(t, y);
    var code := Code(t, y);
    if Num(t, y) == 5 * h + l {
      assert code[0] == DigitChar(h) && code[1] == DigitChar(l);
      assert code == DigitPair(h, l);
    }
  }

  // ---------------------------------------------------------------------
  // Reading a pair of digits back
  // ---------------------------------------------------------------------

  /** K4tools.py: `reverse_base5_dict.get(chunk, '?')`. The inverted
      dictionary keeps, for each pair, the last letter in table order
      that has it, so the search runs from `c` down. */
  function LastKey(chunk: string, c: char): (r: char)
    requires IsUpper(c)
    decreases c as int
  {
    if Code(Computed, c) == chunk then c
    else if c == 'A' then '?'
    else LastKey(chunk, (c as int - 1) as char)
  }

  /** main.py: `next((key for key, value in base5_dict.items() if value
      == chunk), '?')`, the search running from `c` up. */
  function FirstKey(chunk: string, c: char): (r: char)
    requires IsUpper(c)
    decreases 'Z' as int - c as int
  {
    if Code(Written, c) == chunk then c
    else if c == 'Z' then '?'
    else FirstKey(chunk, (c as int + 1) as char)
  }

  function Lookup(t: Table, chunk: string): char
  {
    match t
    case Computed => LastKey(chunk, 'Z')
    case Written => FirstKey(chunk, 'A')
  }

  lemma {:induction false} LastKeyFinds(chunk: string, c: char, x: char)
    requires IsUpper(x) && x <= c <= 'Z' && Code(Computed, x) == chunk
    requires forall y :: x < y <= c ==> Code(Computed, y) != chunk
    ensures LastKey(chunk, c) == x
    decreases c as int
  {
    if c != x {
      LastKeyFinds(chunk, (c as int - 1) as char, x);
    }
  }

  lemma {:induction false} LastKeyMissing(chunk: string, c: char)
    requires IsUpper(c)
    requires forall y :: 'A' <= y <= c ==> Code(Computed, y) != chunk
    ensures LastKey(chunk, c) == '?'
    decreases c as int
  {
    if c != 'A' {
      LastKeyMissing(chunk, (c as int - 1) as char);
    }
  }

  lemma {:induction false} FirstKeyFinds(chunk: string, c: char, x: char)
    requires IsUpper(c) && c <= x <= 'Z' && Code(Written, x) == chunk
    requires forall y :: c <= y < x ==> Code(Written, y) != chunk
    ensures FirstKey(chunk, c) == x
    decreases 'Z' as int - c as int
  {
    if c != x {
      FirstKeyFinds(chunk, (c as int + 1) as char, x);
    }
  }

  // ---------------------------------------------------------------------
  // A numeric reference
  // ---------------------------------------------------------------------

  /** Digit-wise base-5 addition without carry, as the digit loop does
      it (the digit 5 of the computed `Z` counts as 0). */
  function SumNum(a: nat, b: nat): (m: nat)
    ensures m < 25
  {
    5 * ((a / 5 + b / 5) % 5) + (a % 5 + b % 5) % 5
  }

  /** The character a pair of digits writing `m` reads back as. The
      computed table never gives `A` or `Z`, and gives `?` for 23; the
      written table gives a letter other than `X` for every pair. */
  function FromNum(t: Table, m: nat): (c: char)
    requires m < 25
    ensures t == Written ==> IsUpper(c) && c != 'X'
    ensures t == Computed ==> c != 'A' && c != 'Z' && (c == '?' <==> m == 23)
    ensures t == Computed && c != '?' ==> IsUpper(c)
  {
    match t
    case Computed => if m == 0 then 'X' else if m == 23 then '?' else (65 + m) as char
    case Written => if m <= 22 then (65 + m) as char else if m == 23 then 'Y' else 'Z'
  }

  /** The inverted or searched table gives, for a pair of base-5 digits,
      the character for the number they write. */
  lemma LookupPair(t: Table, h: nat, l: nat)
    requires h < 5 && l < 5
    ensures Lookup(t, DigitPair(h, l)) == FromNum(t, 5 * h + l)
  {
    var chunk, m := DigitPair(h, l), 5 * h + l;
    if t == Computed {
      if m == 23 {
        forall y | 'A' <= y <= 'Z' ensures Code(Computed, y) != chunk {
          CodeIs(Computed, y, h, l);
        }
        LastKeyMissing(chunk, 'Z');
      } else {
        var x := FromNum(Computed, m);
        forall y | x < y <= 'Z' ensures Code(Computed, y) != chunk {
          CodeIs(Computed, y, h, l);
        }
        CodeIs(Computed, x, h, l);
        LastKeyFinds(chunk, 'Z', x);
      }
    } else {
      var x := FromNum(Written, m);
      forall y | 'A' <= y < x ensures Code(Written, y) != chunk {
        CodeIs(Written, y, h, l);
      }
      CodeIs(Written, x, h, l);
      FirstKeyFinds(chunk, 'A', x);
    }
  }

  // ---------------------------------------------------------------------
  // The operation
  // ---------------------------------------------------------------------

  /** The capitals of `s`, in order. */
  function Capitals(s: string): (r: string)
    ensures AllUpper(r) && |r| <= |s|
    ensures AllUpper(s) ==> r == s
    ensures forall c :: IsUpper(c) ==> (c in r <==> c in s)
  {
    if |s| == 0 then []
    else
      var init := s[..|s| - 1];
      var c := s[|s| - 1];
      assert s == init + [c];
      Capitals(init) + (if IsUpper(c) then [c] else [])
  }

  /** The letters each front end encodes: K4tools.py keeps the capitals
      of the upper-cased text; main.py takes the text as it is, and the
      table lookup fails on anything but a capital. */
  function Read(t: Table, text: string): (r: Result<string>)
    ensures r.Ok? ==> AllUpper(r.value)
    ensures t == Computed ==> r.Ok?
    ensures t == Written ==> (r.Ok? <==> AllUpper(text)) && (r.Ok? ==> r.value == text)
    ensures r.Err? ==> r.failure == KeyError
  {
    match t
    case Computed => Ok(Capitals(UpperStr(text)))
    case Written => if AllUpper(text) then Ok(text) else Err(KeyError)
  }

  /** Characters `2 * j` and `2 * j + 1` of `s`. */
  function Pair(s: string, j: nat): (r: string)
    requires 2 * j + 2 <= |s|
    ensures |r| == 2 && r[0] == s[2 * j] && r[1] == s[2 * j + 1]
  {
    s[2 * j..2 * j + 2]
  }

  /** `''.join(base5_dict[char] for char in letters)`. */
  function Join(t: Table, letters: string): (r: string)
    requires AllUpper(letters)
    ensures |r| == 2 * |letters|
    ensures forall i :: 0 <= i < |r| ==> IsDigit(r[i])
    ensures forall j :: 0 <= j < |letters| ==> r[2 * j] == Code(t, letters[j])[0]
    ensures forall j :: 0 <= j < |letters| ==> r[2 * j + 1] == Code(t, letters[j])[1]
  {
    if |letters| == 0 then []
    else Join(t, letters[..|letters| - 1]) + Code(t, letters[|letters| - 1])
  }

  /** `str((int(d1) + int(d2)) % 5)` for each pair of digits `zip`
      forms. */
  function AddDigits(n1: string, n2: string): (r: string)
    requires forall i :: 0 <= i < |n1| ==> IsDigit(n1[i])
    requires forall i :: 0 <= i < |n2| ==> IsDigit(n2[i])
    ensures |r| == Min(|n1|, |n2|)
    ensures forall i :: 0 <= i < |r| ==> r[i] == DigitChar((DigitValue(n1[i]) + DigitValue(n2[i])) % 5)
  {
    seq(Min(|n1|, |n2|), i requires 0 <= i < Min(|n1|, |n2|) => DigitChar((DigitValue(n1[i]) + DigitValue(n2[i])) % 5))
  }

  /** The loop over `range(0, len(result), 2)`: each slice of two digits
      read back (a last single digit matches no entry). */
  function ReadBack(t: Table, r: string): (out: string)
    ensures 2 * |out| == |r| || 2 * |out| == |r| + 1
    ensures forall j :: 0 <= j && 2 * j + 2 <= |r| ==> out[j] == Lookup(t, Pair(r, j))
  {
    if |r| == 0 then []
    else if |r| == 1 then [Lookup(t, r)]
    else
      var rest := r[2..];
      assert forall j :: 1 <= j && 2 * j + 2 <= |r| ==> Pair(rest, j - 1) == Pair(r, j);
      [Lookup(t, Pair(r, 0))] + ReadBack(t, rest)
  }

  /** `base5_addition`. */
  function Base5Addition(t: Table, cypher: string, dictionary: string): (r: Result<string>)
  {
    match (Read(t, cypher), Read(t, dictionary))
    case (Err(e), _) => Err(e)
    case (_, Err(e)) => Err(e)
    case (Ok(l1), Ok(l2)) => Ok(ReadBack(t, AddDigits(Join(t, l1), Join(t, l2))))
  }

  /** The character a pair of letters gives. */
  function LetterRef(t: Table, c1: char, c2: char): char
    requires IsUpper(c1) && IsUpper(c2)
  {
    FromNum(t, SumNum(Num(t, c1), Num(t, c2)))
  }

  /** What `base5_addition` shows for the letters each input is read
      as: one character per pair, over the shorter input. */
  function Reference(t: Table, l1: string, l2: string): (r: string)
    requires AllUpper(l1) && AllUpper(l2)
    ensures |r| == Min(|l1|, |l2|)
  {
    seq(Min(|l1|, |l2|), j requires 0 <= j < Min(|l1|, |l2|) => LetterRef(t, l1[j], l2[j]))
  }

  /** Letter `j`'s two digits in the joined string. */
  lemma JoinDigits(t: Table, letters: string, j: nat)
    requires AllUpper(letters) && j < |letters|
    ensures var n := Join(t, letters);
            && DigitValue(n[2 * j]) == Num(t, letters[j]) / 5
            && DigitValue(n[2 * j + 1]) == Num(t, letters[j]) % 5
  {
    CodeNum(t, letters[j]);
  }

  /** The pair of digits the digit loop writes for two letters numbered
      `a` and `b`: each digit is the sum of theirs modulo 5. */
  function SumDigits(a: nat, b: nat): (r: string)
    ensures |r| == 2
  {
    DigitPair((a / 5 + b / 5) % 5, (a % 5 + b % 5) % 5)
  }

  /** That pair reads back as the character for their digit-wise sum. */
  lemma LookupSum(t: Table, a: nat, b: nat)
    ensures Lookup(t, SumDigits(a, b)) == FromNum(t, SumNum(a, b))
  {
    LookupPair(t, (a / 5 + b / 5) % 5, (a % 5 + b % 5) % 5);
  }

  /** Two digit strings whose pair `j` writes `a` and `b` in base 5 sum,
      in pair `j`, to the digits of `SumDigits(a, b)`. */
  lemma AddPair(n1: string, n2: string, j: nat, a: nat, b: nat)
    requires forall i :: 0 <= i < |n1| ==> IsDigit(n1[i])
    requires forall i :: 0 <= i < |n2| ==> IsDigit(n2[i])
    requires 2 * j + 2 <= |n1| && 2 * j + 2 <= |n2|
    requires DigitValue(n1[2 * j]) == a / 5 && DigitValue(n1[2 * j + 1]) == a % 5
    requires DigitValue(n2[2 * j]) == b / 5 && DigitValue(n2[2 * j + 1]) == b % 5
    ensures 2 * j + 2 <= |AddDigits(n1, n2)|
    ensures Pair(AddDigits(n1, n2), j) == SumDigits(a, b)
  {
    var sum := AddDigits(n1, n2);
    TwoEqual(Pair(sum, j), SumDigits(a, b));
  }

  /** Pair `j` of the digit sum is the digit pair of letter `j` of each
      input added. */
  lemma SumPair(t: Table, l1: string, l2: string, j: nat)
    requires AllUpper(l1) && AllUpper(l2) && j < Min(|l1|, |l2|)
    ensures 2 * j + 2 <= |AddDigits(Join(t, l1), Join(t, l2))|
    ensures Pair(AddDigits(Join(t, l1), Join(t, l2)), j) == SumDigits(Num(t, l1[j]), Num(t, l2[j]))
  {
    JoinDigits(t, l1, j);
    JoinDigits(t, l2, j);
    AddPair(Join(t, l1), Join(t, l2), j, Num(t, l1[j]), Num(t, l2[j]));
  }

  /** Pair `j` of the sum reads back as the reference character. */
  lemma PairRef(t: Table, l1: string, l2: string, j: nat)
    requires AllUpper(l1) && AllUpper(l2) && j < Min(|l1|, |l2|)
    ensures var sum := AddDigits(Join(t, l1), Join(t, l2));
            2 * j + 2 <= |sum| && Lookup(t, Pair(sum, j)) == LetterRef(t, l1[j], l2[j])
  {
    SumPair(t, l1, l2, j);
    LookupSum(t, Num(t, l1[j]), Num(t, l2[j]));
  }

  /** Reading back the digit sum of two letter strings gives the
      reference characters. */
  lemma SumMatchesReference(t: Table, l1: string, l2: string)
    requires AllUpper(l1) && AllUpper(l2)
    ensures ReadBack(t, AddDigits(Join(t, l1), Join(t, l2))) == Reference(t, l1, l2)
  {
    var sum := AddDigits(Join(t, l1), Join(t, l2));
    var out, ref := ReadBack(t, sum), Reference(t, l1, l2);
    assert |sum| == 2 * Min(|l1|, |l2|);
    assert |out| == |ref|;
    forall j | 0 <= j < |out| ensures out[j] == ref[j] {
      PairRef(t, l1, l2, j);
    }
  }

  /** For the letters it reads, `base5_addition` shows the reference
      characters. */
  lemma Base5MatchesReference(t: Table, cypher: string, dictionary: string)
    requires Read(t, cypher).Ok? && Read(t, dictionary).Ok?
    ensures Base5Addition(t, cypher, dictionary)
         == Ok(Reference(t, Read(t, cypher).value, Read(t, dictionary).value))
  {
    SumMatchesReference(t, Read(t, cypher).value, Read(t, dictionary).value);
  }

  // ---------------------------------------------------------------------
  // Properties
  // ---------------------------------------------------------------------

  /** K4tools.py never fails, since it only keeps capitals; main.py raises
      `KeyError` exactly when an input holds anything but a capital. */
  lemma Base5Fails(t: Table, cypher: string, dictionary: string)
    ensures t == Computed ==> Base5Addition(t, cypher, dictionary).Ok?
    ensures t == Written ==> (Base5Addition(t, cypher, dictionary).Ok? <==> AllUpper(cypher) && AllUpper(dictionary))
    ensures Base5Addition(t, cypher, dictionary).Err? ==> Base5Addition(t, cypher, dictionary).failure == KeyError
  {
  }

  /** K4tools.py reads a text of capitals as it is, and ignores case:
      a lower-cased text reads the same. */
  lemma ComputedRead(text: string)
    ensures AllUpper(text) ==> Read(Computed, text) == Ok(text)
    ensures Read(Computed, LowerStr(text)) == Read(Computed, text)
  {
    if AllUpper(text) {
      assert UpperStr(text) == text;
    }
    forall i | 0 <= i < |text| ensures Upper(Lower(text[i])) == Upper(text[i]) {
      if IsUpper(text[i]) {
        LowerUpper(text[i]);
      }
    }
    assert UpperStr(LowerStr(text)) == UpperStr(text);
  }

  /** The output has one character per letter of the shorter input; the
      written table only ever shows capitals other than `X`, the computed
      one never shows `A` or `Z`. */
  lemma Base5Output(t: Table, cypher: string, dictionary: string)
    requires Base5Addition(t, cypher, dictionary).Ok?
    ensures var r := Base5Addition(t, cypher, dictionary).value;
            && |r| == Min(|Read(t, cypher).value|, |Read(t, dictionary).value|)
            && (t == Written ==> forall i :: 0 <= i < |r| ==> IsUpper(r[i]) && r[i] != 'X')
            && (t == Computed ==> forall i :: 0 <= i < |r| ==> r[i] != 'A' && r[i] != 'Z')
  {
    Base5MatchesReference(t, cypher, dictionary);
  }

  /** The digit-wise sum does not depend on the order of its arguments. */
  lemma ReferenceCommutes(t: Table, l1: string, l2: string)
    requires AllUpper(l1) && AllUpper(l2)
    ensures Reference(t, l1, l2) == Reference(t, l2, l1)
  {
    forall j | 0 <= j < Min(|l1|, |l2|) ensures LetterRef(t, l1[j], l2[j]) == LetterRef(t, l2[j], l1[j]) {
      assert SumNum(Num(t, l1[j]), Num(t, l2[j])) == SumNum(Num(t, l2[j]), Num(t, l1[j]));
    }
  }

  /** Swapping cypher and dictionary gives the same result, error
      included. */
  lemma Base5Commutes(t: Table, cypher: string, dictionary: string)
    ensures Base5Addition(t, cypher, dictionary) == Base5Addition(t, dictionary, cypher)
  {
    if Read(t, cypher).Ok? && Read(t, dictionary).Ok? {
      Base5MatchesReference(t, cypher, dictionary);
      Base5MatchesReference(t, dictionary, cypher);
      ReferenceCommutes(t, Read(t, cypher).value, Read(t, dictionary).value);
    }
  }

  /** In the written table, reading a letter's number back gives the
      letter, except that `X` shares `A`'s `00` and comes back as `A`. */
  lemma WrittenNumInverse(c: char)
    requires IsUpper(c)
    ensures FromNum(Written, Num(Written, c)) == if c == 'X' then 'A' else c
  {
  }

  /** Every number below 25 is the number of the letter it reads back
      as. */
  lemma WrittenFromNumInverse(m: nat)
    requires m < 25
    ensures Num(Written, FromNum(Written, m)) == m
  {
  }

  /** Adding `A`'s number 0 leaves a number below 25 as it is. */
  lemma SumZero(n: nat)
    requires n < 25
    ensures SumNum(n, 0) == n
  {
    assert n == 5 * (n / 5) + n % 5;
  }

  /** `A` adds nothing in the written table: every letter comes back
      (`X` as `A`). */
  lemma WrittenNeutral(c: char)
    requires IsUpper(c)
    ensures LetterRef(Written, c, 'A') == if c == 'X' then 'A' else c
  {
    SumZero(Num(Written, c));
    WrittenNumInverse(c);
  }

  /** `A` adds nothing in the computed table either, except that `A`,
      `X` and `Z` (whose digit 5 wraps to 0) all come back as `X`. */
  lemma ComputedNeutral(c: char)
    requires IsUpper(c)
    ensures LetterRef(Computed, c, 'A') == if c == 'A' || c == 'X' || c == 'Z' then 'X' else c
  {
    if c == 'Z' {
      assert SumNum(25, 0) == 0;
    } else {
      SumZero(Num(Computed, c));
    }
  }

  /** The number whose digits undo those of `n`: each digit's negative
      modulo 5. */
  function NegNum(n: nat): (m: nat)
    requires n < 25
    ensures m < 25
  {
    5 * ((5 - n / 5) % 5) + (5 - n % 5) % 5
  }

  /** The two base-5 digits of `5 * h + l`. */
  lemma Digits(h: nat, l: nat)
    requires l < 5
    ensures (5 * h + l) / 5 == h && (5 * h + l) % 5 == l
  {
  }

  /** `SumNum` adds the two digits of each number separately. */
  lemma SumOfDigits(x: nat, y: nat, h1: nat, l1: nat, h2: nat, l2: nat)
    requires l1 < 5 && l2 < 5 && x == 5 * h1 + l1 && y == 5 * h2 + l2
    ensures SumNum(x, y) == 5 * ((h1 + h2) % 5) + (l1 + l2) % 5
  {
    Digits(h1, l1);
    Digits(h2, l2);
  }

  /** A digit plus `y`, plus the negative of `y`, modulo 5. */
  lemma DigitUndo(x: nat, y: nat, s: nat, n: nat)
    requires x < 5 && y < 5 && s == (x + y) % 5 && n == (5 - y) % 5
    ensures (s + n) % 5 == x
  {
  }

  lemma SumNegDigits(a1: nat, a0: nat, b1: nat, b0: nat)
    requires a1 < 5 && a0 < 5 && b1 < 5 && b0 < 5
    ensures SumNum(SumNum(5 * a1 + a0, 5 * b1 + b0), NegNum(5 * b1 + b0)) == 5 * a1 + a0
  {
    var sh, sl := (a1 + b1) % 5, (a0 + b0) % 5;
    var nh, nl := (5 - b1) % 5, (5 - b0) % 5;
    var sum := SumNum(5 * a1 + a0, 5 * b1 + b0);
    SumOfDigits(5 * a1 + a0, 5 * b1 + b0, a1, a0, b1, b0);
    Digits(b1, b0);
    var neg := NegNum(5 * b1 + b0);
    SumOfDigits(sum, neg, sh, sl, nh, nl);
    DigitUndo(a1, b1, sh, nh);
    DigitUndo(a0, b0, sl, nl);
  }

  /** Adding `b` and then its negative gives `a` back. */
  lemma SumNegNum(a: nat, b: nat)
    requires a < 25 && b < 25
    ensures SumNum(SumNum(a, b), NegNum(b)) == a
  {
    assert a == 5 * (a / 5) + a % 5 && b == 5 * (b / 5) + b % 5;
    SumNegDigits(a / 5, a % 5, b / 5, b % 5);
  }

  /** The written-table key letter that undoes key letter `k`. */
  function NegLetter(k: char): (r: char)
    requires IsUpper(k)
    ensures IsUpper(r) && Num(Written, r) == NegNum(Num(Written, k))
  {
    WrittenFromNumInverse(NegNum(Num(Written, k)));
    FromNum(Written, NegNum(Num(Written, k)))
  }

  /** Adding `k` and then its negative gives every letter back, `X` as
      `A`. */
  lemma LetterUndo(c: char, k: char)
    requires IsUpper(c) && IsUpper(k)
    ensures LetterRef(Written, LetterRef(Written, c, k), NegLetter(k)) == if c == 'X' then 'A' else c
  {
    var a, b := Num(Written, c), Num(Written, k);
    WrittenFromNumInverse(SumNum(a, b));
    SumNegNum(a, b);
    WrittenNumInverse(c);
  }

  /** The key that undoes `key` letter by letter. */
  function NegKey(key: string): (r: string)
    requires AllUpper(key)
    ensures |r| == |key| && AllUpper(r)
    ensures forall j :: 0 <= j < |key| ==> r[j] == NegLetter(key[j])
  {
    seq(|key|, j requires 0 <= j < |key| => NegLetter(key[j]))
  }

  /** Each letter with every `X` read as `A`, the way the written table
      reads its own codes back. */
  function Canonical(text: string): (r: string)
    requires AllUpper(text)
    ensures |r| == |text| && AllUpper(r)
    ensures forall j :: 0 <= j < |text| ==> r[j] == FromNum(Written, Num(Written, text[j]))
  {
    seq(|text|, j requires 0 <= j < |text| => if text[j] == 'X' then 'A' else text[j])
  }

  lemma ReferenceUndo(text: string, key: string)
    requires AllUpper(text) && AllUpper(key) && |text| <= |key|
    ensures AllUpper(Reference(Written, text, key))
    ensures Reference(Written, Reference(Written, text, key), NegKey(key)) == Canonical(text)
  {
    var mid := Reference(Written, text, key);
    var back := Reference(Written, mid, NegKey(key));
    forall j | 0 <= j < |text| ensures back[j] == Canonical(text)[j] {
      LetterUndo(text[j], key[j]);
    }
  }

  /** main.py's addition with a key at least as long as the text, followed
      by the addition of the negated key, gives the text back with every
      `X` read as `A`. */
  lemma WrittenUndo(text: string, key: string)
    requires AllUpper(text) && AllUpper(key) && |text| <= |key|
    ensures Base5Addition(Written, text, key).Ok?
    ensures Base5Addition(Written, Base5Addition(Written, text, key).value, NegKey(key)) == Ok(Canonical(text))
  {
    Base5MatchesReference(Written, text, key);
    ReferenceUndo(text, key);
    Base5MatchesReference(Written, Reference(Written, text, key), NegKey(key));
  }
}
