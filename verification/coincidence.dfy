/** The integer part of `calculate_ioc` (K4Tools.py): the letter counts of
    a text and the two integers whose quotient is its index of
    coincidence. The float division is left to the reader of the result. */
module Coincidence {
  import opened Seqs
  import opened Text

  /** The characters `calculate_ioc` counts: those for which `isalpha`
      holds, case kept, in text order. */
  function Letters(text: string): (r: string)
    ensures |r| <= |text|
    ensures forall j :: 0 <= j < |r| ==> IsLetter(r[j])
    ensures forall c :: IsLetter(c) ==> (c in r <==> c in text)
  {
    if |text| == 0 then []
    else
      var init := text[..|text| - 1];
      var c := text[|text| - 1];
      assert forall d :: d in text <==> d in init || d == c by {
        assert text == init + [c];
      }
      Letters(init) + (if IsLetter(c) then [c] else [])
  }

  /** `char_counts[x]`: how often `x` occurs in `s`. */
  function Count(s: string, x: char): (n: nat)
    ensures n <= |s|
    ensures n == 0 <==> x !in s
  {
    if |s| == 0 then 0
    else
      var init := s[..|s| - 1];
      assert forall d :: d in s <==> d in init || d == s[|s| - 1] by {
        assert s == init + [s[|s| - 1]];
      }
      Count(init, x) + (if s[|s| - 1] == x then 1 else 0)
  }

  lemma CountSnoc(s: string, x: char, k: char)
    ensures Count(s + [x], k) == Count(s, k) + (if x == k then 1 else 0)
  {
    assert (s + [x])[..|s|] == s;
  }

  /** `sum(f(count) for count in char_counts.values())`, with the keys in
      dictionary order. */
  function SumOver(keys: seq<char>, s: string, f: nat -> int): int
  {
    if |keys| == 0 then 0
    else SumOver(keys[..|keys| - 1], s, f) + f(Count(s, keys[|keys| - 1]))
  }

  /** The same sum built up character by character: each character adds
      the step of `f` at its count so far. */
  function Accumulate(s: string, f: nat -> int): int
  {
    if |s| == 0 then 0
    else
      var init := s[..|s| - 1];
      var c := Count(init, s[|s| - 1]);
      Accumulate(init, f) + f(c + 1) - f(c)
  }

  /** One more character changes the sum over distinct keys by the step of
      `f` at that character's count, if the character is a key. */
  lemma {:induction false} SumOverSnoc(keys: seq<char>, s: string, x: char, f: nat -> int)
    requires Distinct(keys)
    ensures SumOver(keys, s + [x], f)
         == SumOver(keys, s, f) + (if x in keys then f(Count(s, x) + 1) - f(Count(s, x)) else 0)
  {
    if |keys| > 0 {
      var init := keys[..|keys| - 1];
      var k := keys[|keys| - 1];
      assert Distinct(init);
      assert keys == init + [k];
      assert x in keys <==> x in init || x == k;
      assert x == k ==> x !in init;
      SumOverSnoc(init, s, x, f);
      CountSnoc(s, x, k);
    }
  }

  /** Summing over the dictionary's keys, in first-occurrence order, is the
      character-by-character accumulation. */
  lemma {:induction false} SumOverKeys(s: string, f: nat -> int)
    requires f(0) == 0
    ensures SumOver(Dedup(s), s, f) == Accumulate(s, f)
  {
    if |s| > 0 {
      var init := s[..|s| - 1];
      var x := s[|s| - 1];
      assert s == init + [x];
      var c := Count(init, x);
      assert Accumulate(s, f) == Accumulate(init, f) + f(c + 1) - f(c);
      SumOverKeys(init, f);
      var d := Dedup(init);
      SumOverSnoc(d, init, x, f);
      if x in d {
        assert Dedup(s) == d;
      } else {
        assert Dedup(s) == d + [x];
        assert (d + [x])[..|d|] == d;
        assert SumOver(d + [x], s, f) == SumOver(d, s, f) + f(Count(s, x));
        CountSnoc(init, x, x);
        assert c == 0;
      }
    }
  }

  function Identity(c: nat): int
  {
    c
  }

  /** `count * (count - 1)`: the ordered pairs among `count` equal
      letters. */
  function PairsOf(c: nat): int
  {
    c * (c - 1)
  }

  lemma PairsStep(c: nat)
    ensures PairsOf(c + 1) == PairsOf(c) + 2 * c
  {
    assert (c + 1) * c == c * c + c;
    assert c * (c - 1) == c * c - c;
  }

  /** Reference count of ordered pairs of distinct positions holding the
      same character: each character pairs with every earlier equal one,
      in both orders. */
  function SamePairs(s: string): (p: nat)
  {
    if |s| == 0 then 0
    else SamePairs(s[..|s| - 1]) + 2 * Count(s[..|s| - 1], s[|s| - 1])
  }

  lemma {:induction false} AccumulateCounts(s: string)
    ensures Accumulate(s, Identity) == |s|
  {
    if |s| > 0 {
      AccumulateCounts(s[..|s| - 1]);
    }
  }

  lemma {:induction false} AccumulatePairs(s: string)
    ensures Accumulate(s, PairsOf) == SamePairs(s)
  {
    if |s| > 0 {
      var init := s[..|s| - 1];
      var c := Count(init, s[|s| - 1]);
      assert Accumulate(s, PairsOf) == Accumulate(init, PairsOf) + PairsOf(c + 1) - PairsOf(c);
      AccumulatePairs(init);
      PairsStep(c);
    }
  }

  /** The index of coincidence as Python computes it: `0` below two
      letters, otherwise the quotient of two integers. */
  datatype Ioc = Zero | Ratio(numerator: nat, denominator: nat)

  /** `calculate_ioc`: the letters are counted in a dictionary; with
      `n = sum(counts)` letters, fewer than two give 0, otherwise the
      result is `sum(c * (c - 1)) / (n * (n - 1))`. */
  function CalculateIoc(text: string): (r: Ioc)
    ensures r.Zero? <==> |Letters(text)| <= 1
    ensures r.Ratio? ==> r.denominator > 0
  {
    var letters := Letters(text);
    var keys := Dedup(letters);
    var n := SumOver(keys, letters, Identity);
    SumOverKeys(letters, Identity);
    AccumulateCounts(letters);
    assert n == |letters|;
    if n <= 1 then Zero
    else
      var numerator := SumOver(keys, letters, PairsOf);
      SumOverKeys(letters, PairsOf);
      AccumulatePairs(letters);
      PositiveDenominator(n);
      Ratio(numerator, n * (n - 1))
  }

  lemma PositiveDenominator(n: nat)
    requires n >= 2
    ensures n * (n - 1) > 0
  {
    assert n * (n - 1) >= n * 1;
  }

  /** The quotient is the share of ordered pairs of letter positions that
      hold the same letter: the denominator counts all ordered pairs of
      distinct positions, the numerator those with equal letters. */
  lemma {:induction false} IocCountsPairs(text: string)
    requires |Letters(text)| >= 2
    ensures var n := |Letters(text)|;
            CalculateIoc(text) == Ratio(SamePairs(Letters(text)), n * (n - 1))
  {
    var letters := Letters(text);
    SumOverKeys(letters, Identity);
    AccumulateCounts(letters);
    SumOverKeys(letters, PairsOf);
    AccumulatePairs(letters);
  }

  /** There are never more equal pairs than pairs. */
  lemma {:induction false} SamePairsBound(s: string)
    ensures SamePairs(s) <= PairsOf(|s|)
  {
    if |s| > 0 {
      var n := |s| - 1;
      SamePairsBound(s[..n]);
      PairsStep(n);
    }
  }

  /** So the index of coincidence is at most 1. */
  lemma IocAtMostOne(text: string)
    requires |Letters(text)| >= 2
    ensures CalculateIoc(text).numerator <= CalculateIoc(text).denominator
  {
    IocCountsPairs(text);
    SamePairsBound(Letters(text));
    assert PairsOf(|Letters(text)|) == |Letters(text)| * (|Letters(text)| - 1);
  }

  /** Every letter the same: every pair matches, and the index is 1. */
  lemma {:induction false} SamePairsConstant(s: string)
    requires forall j :: 0 <= j < |s| ==> s[j] == s[0]
    ensures SamePairs(s) == PairsOf(|s|)
  {
    if |s| > 0 {
      var n := |s| - 1;
      var init := s[..n];
      SamePairsConstant(init);
      ConstantCount(init, s[0]);
      PairsStep(n);
    }
  }

  lemma {:induction false} ConstantCount(s: string, x: char)
    requires forall j :: 0 <= j < |s| ==> s[j] == x
    ensures Count(s, x) == |s|
  {
    if |s| > 0 {
      ConstantCount(s[..|s| - 1], x);
    }
  }

  /** All distinct letters: no pair matches, and the index is 0. */
  lemma {:induction false} SamePairsDistinct(s: string)
    requires Distinct(s)
    ensures SamePairs(s) == 0
  {
    if |s| > 0 {
      var init := s[..|s| - 1];
      assert Distinct(init);
      assert s[|s| - 1] !in init;
      SamePairsDistinct(init);
    }
  }
}
