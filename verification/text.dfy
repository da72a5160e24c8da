/** Python string primitives the toolkit relies on: `upper`, `lower`,
    `isalpha`, `isupper` (on ASCII), `strip` (on Python's full whitespace
    set), `replace(" ", "")`, substring and subsequence tests, and digit
    conversion. */
module Text {

  predicate IsUpper(c: char) { 'A' <= c <= 'Z' }

  predicate IsLower(c: char) { 'a' <= c <= 'z' }

  /** `c.isalpha()` on ASCII. */
  predicate IsLetter(c: char) { IsUpper(c) || IsLower(c) }

  predicate IsDigit(c: char) { '0' <= c <= '9' }

  /** The characters `str.strip()` removes: Python's `isspace` set. */
  predicate IsSpace(c: char)
  {
    c == ' ' || '\t' <= c <= '\r' || '\U{1C}' <= c <= '\U{1F}'
    || c == '\U{85}' || c == '\U{A0}' || c == '\U{1680}' || '\U{2000}' <= c <= '\U{200A}'
    || c == '\U{2028}' || c == '\U{2029}' || c == '\U{202F}' || c == '\U{205F}' || c == '\U{3000}'
  }

  /** `c.upper()` on one character. */
  function Upper(c: char): (u: char)
    ensures IsLower(c) ==> IsUpper(u)
    ensures !IsLower(c) ==> u == c
    ensures IsLetter(c) <==> IsLetter(u)
  {
    if IsLower(c) then c - 'a' + 'A' else c
  }

  /** `c.lower()` on one character. */
  function Lower(c: char): (l: char)
    ensures IsUpper(c) ==> IsLower(l)
    ensures !IsUpper(c) ==> l == c
    ensures IsLetter(c) <==> IsLetter(l)
  {
    if IsUpper(c) then c - 'A' + 'a' else c
  }

  function UpperStr(s: string): (r: string)
    ensures |r| == |s|
    ensures forall i :: 0 <= i < |s| ==> r[i] == Upper(s[i])
  {
    seq(|s|, i requires 0 <= i < |s| => Upper(s[i]))
  }

  function LowerStr(s: string): (r: string)
    ensures |r| == |s|
    ensures forall i :: 0 <= i < |s| ==> r[i] == Lower(s[i])
  {
    seq(|s|, i requires 0 <= i < |s| => Lower(s[i]))
  }

  lemma {:induction false} LowerUpper(c: char)
    requires IsUpper(c)
    ensures Upper(Lower(c)) == c
  {
  }

  /** `s.isalpha()`: non-empty and letters only. */
  predicate IsAlpha(s: string)
  {
    |s| > 0 && forall i :: 0 <= i < |s| ==> IsLetter(s[i])
  }

  /** Every character is a capital `A` to `Z`. */
  predicate AllUpper(s: string)
  {
    forall j :: 0 <= j < |s| ==> IsUpper(s[j])
  }

  /** `s` with every occurrence of `c` removed (`s.replace(c, "")`). */
  function Without(s: string, c: char): (r: string)
    ensures |r| <= |s|
    ensures forall x :: x in r <==> x in s && x != c
  {
    if |s| == 0 then []
    else (if s[0] == c then [] else [s[0]]) + Without(s[1..], c)
  }

  /** Removing `c` keeps every other character as often as it occurs. */
  lemma {:induction false} WithoutCount(s: string, c: char, x: char)
    ensures multiset(Without(s, c))[x] == if x == c then 0 else multiset(s)[x]
  {
    if |s| > 0 {
      WithoutCount(s[1..], c, x);
      assert s == [s[0]] + s[1..];
    }
  }

  lemma {:induction false} WithoutAppend(a: string, b: string, c: char)
    ensures Without(a + b, c) == Without(a, c) + Without(b, c)
  {
    if |a| == 0 {
      assert a + b == b;
    } else {
      assert (a + b)[1..] == a[1..] + b;
      WithoutAppend(a[1..], b, c);
    }
  }

  lemma {:induction false} WithoutOnly(s: string, c: char)
    requires forall i :: 0 <= i < |s| ==> s[i] == c
    ensures Without(s, c) == []
  {
    if |s| > 0 {
      WithoutOnly(s[1..], c);
    }
  }

  lemma {:induction false} WithoutAbsent(s: string, c: char)
    requires c !in s
    ensures Without(s, c) == s
  {
    if |s| > 0 {
      WithoutAbsent(s[1..], c);
    }
  }

  /** Removing a character respects permutations. */
  lemma {:induction false} WithoutPerm(a: string, b: string, c: char)
    requires multiset(a) == multiset(b)
    ensures multiset(Without(a, c)) == multiset(Without(b, c))
  {
    forall x ensures multiset(Without(a, c))[x] == multiset(Without(b, c))[x] {
      WithoutCount(a, c, x);
      WithoutCount(b, c, x);
    }
  }

  /** `p` occurs in `t` at position `i`. */
  ghost predicate OccursAt(p: string, t: string, i: int)
  {
    0 <= i && i + |p| <= |t| && t[i..i + |p|] == p
  }

  /** `s.strip()`: the longest slice that neither starts nor ends with a
      space character. */
  function Strip(s: string): (r: string)
    ensures |r| <= |s|
    ensures exists i :: OccursAt(r, s, i)
    ensures |r| > 0 ==> !IsSpace(r[0]) && !IsSpace(r[|r| - 1])
    ensures (forall i :: 0 <= i < |s| ==> !IsSpace(s[i])) ==> r == s
  {
    var l := StripLeft(s);
    var r := StripRight(l);
    assert OccursAt(r, s, |s| - |l|);
    r
  }

  function StripLeft(s: string): (r: string)
    ensures |r| <= |s| && r == s[|s| - |r|..]
    ensures |r| > 0 ==> !IsSpace(r[0])
    ensures forall i :: 0 <= i < |s| - |r| ==> IsSpace(s[i])
  {
    if |s| > 0 && IsSpace(s[0]) then StripLeft(s[1..]) else s
  }

  function StripRight(s: string): (r: string)
    ensures |r| <= |s| && r == s[..|r|]
    ensures |r| > 0 ==> !IsSpace(r[|r| - 1])
    ensures forall i :: |r| <= i < |s| ==> IsSpace(s[i])
  {
    if |s| > 0 && IsSpace(s[|s| - 1]) then StripRight(s[..|s| - 1]) else s
  }

  lemma {:induction false} OccursShift(p: string, t: string, i: int)
    requires |t| > 0 && i >= 0
    ensures OccursAt(p, t[1..], i) <==> OccursAt(p, t, i + 1)
  {
    if 0 <= i && i + |p| <= |t| - 1 {
      assert t[1..][i..i + |p|] == t[i + 1..i + 1 + |p|];
    }
  }

  /** When `p` does not start `t`, it occurs in `t` exactly when it occurs
      in `t` without its first character. */
  lemma {:induction false} OccursTail(p: string, t: string)
    requires |t| > 0 && !OccursAt(p, t, 0)
    ensures (exists i :: OccursAt(p, t, i)) <==> (exists i :: OccursAt(p, t[1..], i))
  {
    if exists i :: OccursAt(p, t, i) {
      var i :| OccursAt(p, t, i);
      OccursShift(p, t, i - 1);
    }
    if exists i :: OccursAt(p, t[1..], i) {
      var i :| OccursAt(p, t[1..], i);
      OccursShift(p, t, i);
    }
  }

  /** Python's `p in t` on strings. */
  function Contains(t: string, p: string): (b: bool)
    ensures b <==> exists i :: OccursAt(p, t, i)
    decreases |t|
  {
    if |p| > |t| then false
    else if t[..|p|] == p then assert OccursAt(p, t, 0); true
    else
      OccursTail(p, t);
      Contains(t[1..], p)
  }

  /** `w` can be read from `t` by skipping characters. */
  ghost predicate IsSubsequence(w: string, t: string)
    decreases |t|
  {
    if |w| == 0 then true
    else if |t| == 0 then false
    else if t[0] == w[0] then IsSubsequence(w[1..], t[1..])
    else IsSubsequence(w, t[1..])
  }

  /** A subsequence keeps the order of its characters: it is `t` picked at
      increasing positions. */
  ghost predicate PickedAt(w: string, t: string, pos: seq<nat>)
  {
    |pos| == |w|
    && (forall k :: 0 <= k < |pos| ==> pos[k] < |t| && t[pos[k]] == w[k])
    && (forall k, l :: 0 <= k < l < |pos| ==> pos[k] < pos[l])
  }

  lemma {:induction false} SubsequencePositions(w: string, t: string)
    requires IsSubsequence(w, t)
    ensures exists pos :: PickedAt(w, t, pos)
    decreases |t|
  {
    if |w| == 0 {
      assert PickedAt(w, t, []);
    } else if t[0] == w[0] {
      SubsequencePositions(w[1..], t[1..]);
      var pos :| PickedAt(w[1..], t[1..], pos);
      var pos' := [0] + seq(|pos|, k requires 0 <= k < |pos| => pos[k] + 1);
      assert PickedAt(w, t, pos');
    } else {
      SubsequencePositions(w, t[1..]);
      var pos :| PickedAt(w, t[1..], pos);
      var pos' := seq(|pos|, k requires 0 <= k < |pos| => pos[k] + 1);
      assert PickedAt(w, t, pos');
    }
  }

  lemma {:induction false} PositionsSubsequence(w: string, t: string, pos: seq<nat>)
    requires PickedAt(w, t, pos)
    ensures IsSubsequence(w, t)
    decreases |t|
  {
    if |w| > 0 {
      if pos[0] == 0 {
        assert forall k :: 0 < k < |pos| ==> pos[k] > 0;
        var pos' := seq(|pos| - 1, k requires 0 <= k < |pos| - 1 => pos[k + 1] - 1);
        assert PickedAt(w[1..], t[1..], pos');
        PositionsSubsequence(w[1..], t[1..], pos');
      } else {
        assert forall k :: 0 <= k < |pos| ==> pos[k] > 0;
        var pos' := seq(|pos|, k requires 0 <= k < |pos| => pos[k] - 1);
        assert PickedAt(w, t[1..], pos');
        PositionsSubsequence(w, t[1..], pos');
        if t[0] == w[0] {
          SubseqDrop(w, t[1..]);
        }
      }
    }
  }

  /** Dropping the first character of the word keeps a subsequence. */
  lemma {:induction false} SubseqDrop(w: string, t: string)
    requires |w| > 0
    requires IsSubsequence(w, t)
    ensures IsSubsequence(w[1..], t)
    decreases |t|, 1
  {
    if t[0] == w[0] {
      SubseqExtend(w[1..], t);
    } else {
      SubseqDrop(w, t[1..]);
      SubseqExtend(w[1..], t);
    }
  }

  /** A subsequence of a suffix is a subsequence of the whole. */
  lemma {:induction false} SubseqExtend(w: string, t: string)
    requires |t| > 0
    requires IsSubsequence(w, t[1..])
    ensures IsSubsequence(w, t)
    decreases |t|, 0
  {
    if |w| > 0 && t[0] == w[0] {
      SubseqDrop(w, t[1..]);
    }
  }

  /** The decimal digit `c` stands for. */
  function DigitValue(c: char): (d: nat)
    requires IsDigit(c)
    ensures d < 10
  {
    (c - '0') as nat
  }

  function DigitChar(d: nat): (c: char)
    requires d < 10
    ensures IsDigit(c) && DigitValue(c) == d
  {
    (d as char) + '0'
  }

  /** `str(n)` for a natural number: its decimal digits, no leading zero. */
  function NatToString(n: nat): (s: string)
    ensures |s| > 0
    ensures forall i :: 0 <= i < |s| ==> IsDigit(s[i])
    ensures |s| > 1 ==> s[0] != '0'
  {
    if n < 10 then [DigitChar(n)] else NatToString(n / 10) + [DigitChar(n % 10)]
  }

  /** `int(s)` for a string of decimal digits. */
  function DigitsValue(s: string): (n: nat)
    requires forall i :: 0 <= i < |s| ==> IsDigit(s[i])
  {
    if |s| == 0 then 0 else 10 * DigitsValue(s[..|s| - 1]) + DigitValue(s[|s| - 1])
  }

  lemma {:induction false} NatToStringRoundTrip(n: nat)
    ensures DigitsValue(NatToString(n)) == n
  {
    if n >= 10 {
      NatToStringRoundTrip(n / 10);
      var s := NatToString(n);
      assert s[..|s| - 1] == NatToString(n / 10);
    }
  }

  /** `str(n)` for any integer: a leading `-` for negative numbers. */
  function IntToString(n: int): (s: string)
    ensures |s| > 0
    ensures n >= 0 ==> s == NatToString(n)
    ensures n < 0 ==> s == "-" + NatToString(-n)
  {
    if n >= 0 then NatToString(n) else "-" + NatToString(-n)
  }
}
