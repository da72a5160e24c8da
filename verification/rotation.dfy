/** The `transposition` callback of main.py: every symbol of a 25-symbol
    Kryptos alphabet (no `M`) is replaced by the symbol five places later,
    through `str.maketrans` and `str.translate`. */
module Rotation {
  import opened Seqs
  import opened Text
  import opened Modular

  /** `alphabets`. */
  const KryptosAlphabet := "KRYPTOSABCDEFGHIJLNQUVWXZ"

  /** `-step`: how far each symbol moves. */
  const Shift := 5

  /** A place at most one lap past the end, brought back into
      `0 .. n - 1`: the `mod n` of a rotation, without division. */
  function Wrap(x: int, n: int): (y: int)
    requires 0 <= x < 2 * n
    ensures 0 <= y < n && (y == x || y == x - n)
  {
    if x < n then x else x - n
  }

  lemma WrapMod(x: int, n: int)
    requires 0 <= x < 2 * n
    ensures Wrap(x, n) == x % n
  {
    if x < n {
      ModUnique(x, 0, x, n);
    } else {
      ModUnique(x, 1, x - n, n);
    }
  }

  /** `a[k:] + a[:k]`: the alphabet rotated left by `k`. */
  function Rotate(a: string, k: nat): (r: string)
    requires k <= |a|
    ensures |r| == |a|
    ensures forall i :: 0 <= i < |a| ==> r[i] == a[Wrap(i + k, |a|)]
  {
    a[k..] + a[..k]
  }

  /** `str.maketrans(a, b)`: each symbol of `a` maps to the symbol of `b`
      at the same place; a later pair overwrites an earlier one. */
  function MakeTrans(a: string, b: string): (t: map<char, char>)
    requires |a| == |b|
    ensures forall c :: c in t <==> c in a
    ensures forall c :: c in t ==> t[c] == b[LastIndexOf(a, c)]
  {
    if |a| == 0 then map[]
    else
      var n := |a| - 1;
      assert forall c :: c in a <==> c in a[..n] || c == a[n] by {
        assert a == a[..n] + [a[n]];
      }
      MakeTrans(a[..n], b[..n])[a[n] := b[n]]
  }

  /** The character a table gives for `c`: its entry, or `c` itself. */
  function Lookup(t: map<char, char>, c: char): char
  {
    if c in t then t[c] else c
  }

  /** `s.translate(t)`: characters with an entry are replaced, the rest
      are kept. */
  function Translate(s: string, t: map<char, char>): (r: string)
    ensures |r| == |s|
    ensures forall i :: 0 <= i < |s| ==> r[i] == Lookup(t, s[i])
  {
    seq(|s|, i requires 0 <= i < |s| => Lookup(t, s[i]))
  }

  /** The table for a rotation by `k`. */
  function Table(alphabet: string, k: nat): (t: map<char, char>)
    requires k <= |alphabet|
    ensures forall c :: c in t <==> c in alphabet
  {
    MakeTrans(alphabet, Rotate(alphabet, k))
  }

  /** The callback for any alphabet and shift: a table for the alphabet,
      one for its upper-cased copy, merged with `update`, then applied. */
  function RotateText(alphabet: string, k: nat, input: string): (r: string)
    requires k <= |alphabet|
    ensures |r| == |input|
  {
    var upper := UpperStr(alphabet);
    Translate(input, Table(alphabet, k) + MakeTrans(upper, Rotate(upper, k)))
  }

  /** `transposition`. */
  function Transposition(input: string): (r: string)
    ensures |r| == |input|
  {
    RotateText(KryptosAlphabet, Shift, input)
  }

  /** An upper-case alphabet without repeats. */
  ghost predicate UpperAlphabet(a: string)
  {
    |a| > 0 && Distinct(a) && forall i :: 0 <= i < |a| ==> IsUpper(a[i])
  }

  lemma UpperStrUpper(a: string)
    requires forall i :: 0 <= i < |a| ==> IsUpper(a[i])
    ensures UpperStr(a) == a
  {
    assert forall i :: 0 <= i < |a| ==> UpperStr(a)[i] == a[i];
  }

  lemma DistinctLast<T>(s: seq<T>, i: nat)
    requires Distinct(s) && i < |s|
    ensures LastIndexOf(s, s[i]) == i
  {
  }

  /** Every entry of `t` is for a symbol of `a`. */
  ghost predicate KeysIn(t: map<char, char>, a: string)
  {
    forall c :: c in t ==> c in a
  }

  /** `t` sends the symbol at each place `p` of `a` to the symbol `k`
      places on, wrapping at the end. */
  ghost predicate Moves(t: map<char, char>, a: string, k: nat)
    requires k <= |a|
  {
    && (forall p {:trigger a[p] in t} :: 0 <= p < |a| ==> a[p] in t)
    && (forall p {:trigger t[a[p]]} :: 0 <= p < |a| && a[p] in t ==> t[a[p]] == a[Wrap(p + k, |a|)])
  }

  /** Without repeats, the `maketrans` table sends the symbol at `p` to
      the symbol `k` places on. */
  lemma TableAt(alphabet: string, k: nat, p: nat)
    requires Distinct(alphabet) && k <= |alphabet| && p < |alphabet|
    ensures alphabet[p] in Table(alphabet, k)
    ensures Table(alphabet, k)[alphabet[p]] == alphabet[Wrap(p + k, |alphabet|)]
  {
    var b := Rotate(alphabet, k);
    DistinctLast(alphabet, p);
    assert MakeTrans(alphabet, b)[alphabet[p]] == b[p];
  }

  /** So the table is such a rotation. */
  lemma TableRotates(alphabet: string, k: nat)
    requires Distinct(alphabet) && k <= |alphabet|
    ensures KeysIn(Table(alphabet, k), alphabet) && Moves(Table(alphabet, k), alphabet, k)
  {
    var t := Table(alphabet, k);
    forall p | 0 <= p < |alphabet|
      ensures alphabet[p] in t && t[alphabet[p]] == alphabet[Wrap(p + k, |alphabet|)]
    {
      TableAt(alphabet, k, p);
    }
  }

  /** For an upper-case alphabet the second table repeats the first, so
      the callback applies the one rotation table. */
  lemma RotateTextTable(alphabet: string, k: nat, input: string)
    requires UpperAlphabet(alphabet) && k <= |alphabet|
    ensures RotateText(alphabet, k, input) == Translate(input, Table(alphabet, k))
    ensures KeysIn(Table(alphabet, k), alphabet) && Moves(Table(alphabet, k), alphabet, k)
  {
    UpperStrUpper(alphabet);
    var t := Table(alphabet, k);
    assert t + t == t;
    TableRotates(alphabet, k);
  }

  lemma WrapSum(p: nat, k: nat, j: nat, n: nat)
    requires p < n && k <= n && j <= n && k + j < 2 * n
    ensures Wrap(Wrap(p + k, n) + j, n) == Wrap(p + Wrap(k + j, n), n)
  {
  }

  /** Moving `k` places and then `j` places is moving `k + j` places,
      wrapped once. */
  lemma LookupComposeAt(t1: map<char, char>, t2: map<char, char>, t3: map<char, char>,
                        a: string, k: nat, j: nat, p: nat)
    requires p < |a| && k <= |a| && j <= |a| && k + j < 2 * |a|
    requires Moves(t1, a, k) && Moves(t2, a, j) && Moves(t3, a, Wrap(k + j, |a|))
    ensures Lookup(t2, Lookup(t1, a[p])) == Lookup(t3, a[p])
  {
    var n := |a|;
    var q := Wrap(p + k, n);
    assert Lookup(t1, a[p]) == a[q];
    assert Lookup(t2, a[q]) == a[Wrap(q + j, n)];
    assert Lookup(t3, a[p]) == a[Wrap(p + Wrap(k + j, n), n)];
    WrapSum(p, k, j, n);
  }

  /** Characters outside the alphabet pass every table. */
  lemma LookupMiss(t: map<char, char>, a: string, c: char)
    requires KeysIn(t, a) && c !in a
    ensures Lookup(t, c) == c
  {
  }

  lemma LookupCompose(t1: map<char, char>, t2: map<char, char>, t3: map<char, char>,
                      a: string, k: nat, j: nat, c: char)
    requires k <= |a| && j <= |a| && k + j < 2 * |a|
    requires KeysIn(t1, a) && KeysIn(t2, a) && KeysIn(t3, a)
    requires Moves(t1, a, k) && Moves(t2, a, j) && Moves(t3, a, Wrap(k + j, |a|))
    ensures Lookup(t2, Lookup(t1, c)) == Lookup(t3, c)
  {
    if c in a {
      var p :| 0 <= p < |a| && a[p] == c;
      LookupComposeAt(t1, t2, t3, a, k, j, p);
    } else {
      LookupMiss(t1, a, c);
      LookupMiss(t2, a, c);
      LookupMiss(t3, a, c);
    }
  }

  /** Rotating by `k` and then by `j` is rotating by `k + j`, wrapped. */
  lemma {:induction false} RotateCompose(alphabet: string, k: nat, j: nat, input: string)
    requires UpperAlphabet(alphabet) && k <= |alphabet| && j <= |alphabet| && k + j < 2 * |alphabet|
    ensures RotateText(alphabet, j, RotateText(alphabet, k, input))
         == RotateText(alphabet, Wrap(k + j, |alphabet|), input)
  {
    var n := |alphabet|;
    var kj := Wrap(k + j, n);
    var once := RotateText(alphabet, k, input);
    RotateTextTable(alphabet, k, input);
    RotateTextTable(alphabet, j, once);
    RotateTextTable(alphabet, kj, input);
    var t1, t2, t3 := Table(alphabet, k), Table(alphabet, j), Table(alphabet, kj);
    var twice := RotateText(alphabet, j, once);
    var direct := RotateText(alphabet, kj, input);
    forall i | 0 <= i < |input| ensures twice[i] == direct[i] {
      LookupCompose(t1, t2, t3, alphabet, k, j, input[i]);
    }
  }

  /** A rotation by nothing leaves every character. */
  lemma LookupNothing(t: map<char, char>, a: string, c: char)
    requires KeysIn(t, a) && Moves(t, a, 0)
    ensures Lookup(t, c) == c
  {
    if c in t {
      var p :| 0 <= p < |a| && a[p] == c;
      assert t[a[p]] == a[Wrap(p, |a|)];
    }
  }

  /** Rotating by nothing changes nothing. */
  lemma {:induction false} RotateNothing(alphabet: string, input: string)
    requires UpperAlphabet(alphabet)
    ensures RotateText(alphabet, 0, input) == input
  {
    RotateTextTable(alphabet, 0, input);
    forall i | 0 <= i < |input| ensures RotateText(alphabet, 0, input)[i] == input[i] {
      LookupNothing(Table(alphabet, 0), alphabet, input[i]);
    }
  }

  /** Rotating on by the rest of the alphabet undoes a rotation. */
  lemma RotateUndo(alphabet: string, k: nat, input: string)
    requires UpperAlphabet(alphabet) && k <= |alphabet|
    ensures RotateText(alphabet, |alphabet| - k, RotateText(alphabet, k, input)) == input
  {
    RotateCompose(alphabet, k, |alphabet| - k, input);
    RotateNothing(alphabet, input);
  }

  // ---------------------------------------------------------------------
  // The Kryptos alphabet
  // ---------------------------------------------------------------------

  /** The place of each symbol of the Kryptos alphabet, written out. */
  function KryptosPlace(c: char): (p: int)
    ensures -1 <= p < 25
    ensures p >= 0 ==> IsUpper(c)
  {
    match c
      case 'K' => 0
      case 'R' => 1
      case 'Y' => 2
      case 'P' => 3
      case 'T' => 4
      case 'O' => 5
      case 'S' => 6
      case 'A' => 7
      case 'B' => 8
      case 'C' => 9
      case 'D' => 10
      case 'E' => 11
      case 'F' => 12
      case 'G' => 13
      case 'H' => 14
      case 'I' => 15
      case 'J' => 16
      case 'L' => 17
      case 'N' => 18
      case 'Q' => 19
      case 'U' => 20
      case 'V' => 21
      case 'W' => 22
      case 'X' => 23
      case 'Z' => 24
      case _ => -1
  }

  lemma KryptosLow()
    ensures forall i :: 0 <= i < 9 ==> KryptosPlace(KryptosAlphabet[i]) == i
  {
    assert KryptosAlphabet[0] == 'K';
    assert KryptosAlphabet[1] == 'R';
    assert KryptosAlphabet[2] == 'Y';
    assert KryptosAlphabet[3] == 'P';
    assert KryptosAlphabet[4] == 'T';
    assert KryptosAlphabet[5] == 'O';
    assert KryptosAlphabet[6] == 'S';
    assert KryptosAlphabet[7] == 'A';
    assert KryptosAlphabet[8] == 'B';
  }

  lemma KryptosMiddle()
    ensures forall i :: 9 <= i < 17 ==> KryptosPlace(KryptosAlphabet[i]) == i
  {
    assert KryptosAlphabet[9] == 'C';
    assert KryptosAlphabet[10] == 'D';
    assert KryptosAlphabet[11] == 'E';
    assert KryptosAlphabet[12] == 'F';
    assert KryptosAlphabet[13] == 'G';
    assert KryptosAlphabet[14] == 'H';
    assert KryptosAlphabet[15] == 'I';
    assert KryptosAlphabet[16] == 'J';
  }

  lemma KryptosHigh()
    ensures forall i :: 17 <= i < 25 ==> KryptosPlace(KryptosAlphabet[i]) == i
  {
    assert KryptosAlphabet[17] == 'L';
    assert KryptosAlphabet[18] == 'N';
    assert KryptosAlphabet[19] == 'Q';
    assert KryptosAlphabet[20] == 'U';
    assert KryptosAlphabet[21] == 'V';
    assert KryptosAlphabet[22] == 'W';
    assert KryptosAlphabet[23] == 'X';
    assert KryptosAlphabet[24] == 'Z';
  }

  /** Every symbol of the alphabet is at its place in the table above. */
  lemma KryptosPlaces()
    ensures |KryptosAlphabet| == 25
    ensures forall i :: 0 <= i < |KryptosAlphabet| ==> KryptosPlace(KryptosAlphabet[i]) == i
  {
    KryptosLow();
    KryptosMiddle();
    KryptosHigh();
  }

  /** The Kryptos alphabet is 25 distinct capitals, and exactly the
      characters the table places. */
  lemma KryptosAlphabetFacts()
    ensures UpperAlphabet(KryptosAlphabet) && |KryptosAlphabet| == 25
    ensures forall c :: c in KryptosAlphabet <==> KryptosPlace(c) >= 0
    ensures forall c :: KryptosPlace(c) >= 0 ==> KryptosAlphabet[KryptosPlace(c)] == c
  {
    KryptosPlaces();
    forall i, j | 0 <= i < j < |KryptosAlphabet| ensures KryptosAlphabet[i] != KryptosAlphabet[j] {
      assert KryptosPlace(KryptosAlphabet[i]) != KryptosPlace(KryptosAlphabet[j]);
    }
    forall c | KryptosPlace(c) >= 0 ensures c in KryptosAlphabet {
      assert KryptosAlphabet[KryptosPlace(c)] == c;
    }
  }

  /** A symbol of an upper-case alphabet moves `k` places on. */
  lemma RotateTextHit(alphabet: string, k: nat, input: string, i: nat, p: nat)
    requires UpperAlphabet(alphabet) && k <= |alphabet|
    requires i < |input| && p < |alphabet| && input[i] == alphabet[p]
    ensures RotateText(alphabet, k, input)[i] == alphabet[Wrap(p + k, |alphabet|)]
  {
    RotateTextTable(alphabet, k, input);
    TableAt(alphabet, k, p);
  }

  /** Any other character stays. */
  lemma RotateTextMiss(alphabet: string, k: nat, input: string, i: nat)
    requires UpperAlphabet(alphabet) && k <= |alphabet|
    requires i < |input| && input[i] !in alphabet
    ensures RotateText(alphabet, k, input)[i] == input[i]
  {
    RotateTextTable(alphabet, k, input);
  }

  /** `transposition` moves each alphabet symbol five places on,
      cyclically; `M`, lower-case letters and everything else stay. */
  lemma TranspositionAt(input: string, i: nat)
    requires i < |input|
    ensures KryptosPlace(input[i]) >= 0 ==>
              Transposition(input)[i] == KryptosAlphabet[(KryptosPlace(input[i]) + 5) % 25]
    ensures KryptosPlace(input[i]) < 0 ==> Transposition(input)[i] == input[i]
  {
    KryptosAlphabetFacts();
    var p := KryptosPlace(input[i]);
    if p >= 0 {
      RotateTextHit(KryptosAlphabet, 5, input, i, p);
      WrapMod(p + 5, 25);
    } else {
      RotateTextMiss(KryptosAlphabet, 5, input, i);
    }
  }

  /** The characters left alone include `M` and every lower-case
      letter. */
  lemma KryptosOutside(c: char)
    requires c == 'M' || IsLower(c)
    ensures KryptosPlace(c) < 0 && c !in KryptosAlphabet
  {
    KryptosAlphabetFacts();
  }

  /** Five applications bring every symbol back: 5 * 5 = 25 places. */
  lemma TranspositionFiveTimes(input: string)
    ensures Transposition(Transposition(Transposition(Transposition(Transposition(input))))) == input
  {
    KryptosAlphabetFacts();
    var a := KryptosAlphabet;
    var t1 := Transposition(input);
    var t2 := Transposition(t1);
    var t3 := Transposition(t2);
    var t4 := Transposition(t3);
    RotateCompose(a, 5, 5, input);
    RotateCompose(a, 10, 5, input);
    RotateCompose(a, 15, 5, input);
    RotateCompose(a, 20, 5, input);
    RotateNothing(a, input);
  }
}
