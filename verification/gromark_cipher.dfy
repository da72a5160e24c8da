/** The Gromark cipher proper (Gromark_transposition.py): the running key
    grown from a primer, decryption through a mixed alphabet, and the
    keyword pre-filter that checks known (cipher, plain) pairs. */
module GromarkCipher {
  import opened Wrappers
  import opened Seqs
  import opened Text
  import opened Modular
  import opened Gromark

  // ---------------------------------------------------------------------
  // Running key
  // ---------------------------------------------------------------------

  predicate AllDigits(s: string)
  {
    forall i :: 0 <= i < |s| ==> IsDigit(s[i])
  }

  predicate SmallDigits(a: seq<nat>)
  {
    forall k :: 0 <= k < |a| ==> a[k] < 10
  }

  /** `[int(d) for d in primer]` once every character is a digit. */
  function Digits(s: string): (d: seq<nat>)
    requires AllDigits(s)
    ensures |d| == |s| && SmallDigits(d)
  {
    seq(|s|, i requires 0 <= i < |s| => DigitValue(s[i]))
  }

  /** The loop of `generate_running_key` from index `i` on: entry `i`
      becomes `(result[i-5] + result[i-4]) % 10`.  numpy reads a negative
      index from the end of the array, and one below `-len` raises
      IndexError, which only a key shorter than five digits can reach. */
  function FillFrom(a: seq<nat>, i: nat): (r: Result<seq<nat>>)
    requires i <= |a|
    ensures r.Err? <==> i < |a| && i + |a| < 5
    ensures r.Err? ==> r.failure == IndexError
    ensures r.Ok? ==> |r.value| == |a| && r.value[..i] == a[..i]
    ensures r.Ok? && SmallDigits(a) ==> SmallDigits(r.value)
    decreases |a| - i
  {
    if i == |a| then Ok(a)
    else
      var p := WrapIndex(|a|, i - 5);
      var q := WrapIndex(|a|, i - 4);
      if p.None? || q.None? then Err(IndexError)
      else
        var r := FillFrom(a[i := (a[p.value] + a[q.value]) % 10], i + 1);
        assert r.Ok? ==> r.value[..i] == a[i := (a[p.value] + a[q.value]) % 10][..i + 1][..i];
        r
  }

  /** The recurrence the running key follows: the primer's digits, then
      each digit the sum of the digits five and four places back, mod 10. */
  function KeyDigit(p: seq<nat>, i: nat): nat
    requires |p| >= 5
    decreases i
  {
    if i < |p| then p[i] else (KeyDigit(p, i - 5) + KeyDigit(p, i - 4)) % 10
  }

  lemma {:induction false} FillFromRecurrence(p: seq<nat>, a: seq<nat>, i: nat)
    requires 5 <= |p| <= i <= |a|
    requires forall k :: 0 <= k < i ==> a[k] == KeyDigit(p, k)
    ensures FillFrom(a, i).Ok?
    ensures forall k :: 0 <= k < |a| ==> FillFrom(a, i).value[k] == KeyDigit(p, k)
    decreases |a| - i
  {
    if i < |a| {
      var a' := a[i := (a[i - 5] + a[i - 4]) % 10];
      assert WrapIndex(|a|, i - 5) == Some(i - 5);
      assert WrapIndex(|a|, i - 4) == Some(i - 4);
      assert FillFrom(a, i) == FillFrom(a', i + 1);
      FillFromRecurrence(p, a', i + 1);
    }
  }

  /** numpy assigns the primer's digits to the first `length` cells only
      when the two shapes broadcast: a primer no longer than the key, or
      a one-digit primer written into the empty slice of a zero-length
      key. */
  predicate Broadcasts(primer: string, length: nat)
  {
    |primer| <= length || (|primer| == 1 && length == 0)
  }

  /** `generate_running_key` as digits: a non-digit in the primer and a
      primer numpy cannot broadcast into the key raise ValueError; the rest
      is the loop above over the primer padded with zeros. */
  function RunningKeyDigits(primer: string, length: nat): (r: Result<seq<nat>>)
    ensures r.Err? <==> !AllDigits(primer) || !Broadcasts(primer, length) || (|primer| < length && |primer| + length < 5)
    ensures r.Err? ==> r.failure == if AllDigits(primer) && |primer| <= length then IndexError else ValueError
    ensures r.Ok? ==> |r.value| == length && SmallDigits(r.value)
    ensures r.Ok? && |primer| <= length ==> r.value[..|primer|] == Digits(primer)
  {
    if !AllDigits(primer) then Err(ValueError)
    else if |primer| > length then (if Broadcasts(primer, length) then Ok([]) else Err(ValueError))
    else
      var a := Digits(primer) + seq(length - |primer|, _ => 0);
      assert a[..|primer|] == Digits(primer);
      FillFrom(a, |primer|)
  }

  /** `generate_running_key`: the digits written out as text. */
  function GenerateRunningKey(primer: string, length: nat): (r: Result<string>)
    ensures r.Err? <==> RunningKeyDigits(primer, length).Err?
    ensures r.Err? ==> r.failure == RunningKeyDigits(primer, length).failure
    ensures r.Ok? ==> |r.value| == length && AllDigits(r.value)
    ensures r.Ok? ==> forall i :: 0 <= i < length ==> DigitValue(r.value[i]) == RunningKeyDigits(primer, length).value[i]
  {
    match RunningKeyDigits(primer, length)
    case Err(f) => Err(f)
    case Ok(d) => Ok(seq(length, i requires 0 <= i < length => DigitChar(d[i])))
  }

  /** A one-digit primer fills no cell of a zero-length key: numpy
      broadcasts it into the empty slice and the key is empty. */
  lemma OneDigitPrimerEmptyKey()
    ensures GenerateRunningKey("7", 0) == Ok("")
  {
  }

  /** For a primer of five or more digits every key digit is the
      recurrence's. */
  lemma {:induction false} RunningKeyDigitsAre(primer: string, length: nat)
    requires AllDigits(primer) && 5 <= |primer| <= length
    ensures RunningKeyDigits(primer, length).Ok?
    ensures forall k :: 0 <= k < length ==> RunningKeyDigits(primer, length).value[k] == KeyDigit(Digits(primer), k)
  {
    var p := Digits(primer);
    var a := p + seq(length - |primer|, _ => 0);
    FillFromRecurrence(p, a, |primer|);
  }

  lemma {:induction false} RunningKeyAt(primer: string, length: nat, i: nat)
    requires AllDigits(primer) && 5 <= |primer| <= length && i < length
    ensures GenerateRunningKey(primer, length).Ok?
    ensures DigitValue(GenerateRunningKey(primer, length).value[i]) == KeyDigit(Digits(primer), i)
  {
    RunningKeyDigitsAre(primer, length);
  }

  lemma {:induction false} RunningKeyStarts(primer: string, length: nat)
    requires AllDigits(primer) && 5 <= |primer| <= length
    ensures GenerateRunningKey(primer, length).Ok?
    ensures GenerateRunningKey(primer, length).value[..|primer|] == primer
  {
    RunningKeyAt(primer, length, 0);
    var key := GenerateRunningKey(primer, length).value;
    forall i | 0 <= i < |primer| ensures key[i] == primer[i] {
      RunningKeyAt(primer, length, i);
      DigitInjective(key[i], primer[i]);
    }
  }

  /** A digit string that spells the key digits at `i - 5`, `i - 4` and
      `i` follows the recurrence there. */
  lemma StepFromKey(key: string, p: seq<nat>, i: nat)
    requires 5 <= |p| <= i < |key| && AllDigits(key)
    requires DigitValue(key[i]) == KeyDigit(p, i)
    requires DigitValue(key[i - 5]) == KeyDigit(p, i - 5) && DigitValue(key[i - 4]) == KeyDigit(p, i - 4)
    ensures DigitValue(key[i]) == (DigitValue(key[i - 5]) + DigitValue(key[i - 4])) % 10
  {
  }

  lemma {:induction false} RunningKeyStep(primer: string, length: nat, i: nat)
    requires AllDigits(primer) && 5 <= |primer| <= i < length
    ensures GenerateRunningKey(primer, length).Ok?
    ensures var key := GenerateRunningKey(primer, length).value;
            DigitValue(key[i]) == (DigitValue(key[i - 5]) + DigitValue(key[i - 4])) % 10
  {
    RunningKeyDigitsAre(primer, length);
    var key := GenerateRunningKey(primer, length).value;
    StepFromKey(key, Digits(primer), i);
  }

  lemma {:induction false} RunningKeyFollows(primer: string, length: nat)
    requires AllDigits(primer) && 5 <= |primer| <= length
    ensures GenerateRunningKey(primer, length).Ok?
    ensures var key := GenerateRunningKey(primer, length).value;
            forall i :: |primer| <= i < length ==>
              DigitValue(key[i]) == (DigitValue(key[i - 5]) + DigitValue(key[i - 4])) % 10
  {
    RunningKeyAt(primer, length, 0);
    forall i | |primer| <= i < length
      ensures DigitValue(GenerateRunningKey(primer, length).value[i]) ==
        (DigitValue(GenerateRunningKey(primer, length).value[i - 5]) + DigitValue(GenerateRunningKey(primer, length).value[i - 4])) % 10
    {
      RunningKeyStep(primer, length, i);
    }
  }

  /** For a primer of at least five digits and a key at least as long, the
      key is exactly `length` digits, starts with the primer, and every
      later digit is the sum of the digits five and four places back,
      mod 10. */
  lemma {:induction false} RunningKeyRecurrence(primer: string, length: nat)
    requires AllDigits(primer) && 5 <= |primer| <= length
    ensures GenerateRunningKey(primer, length).Ok?
    ensures var key := GenerateRunningKey(primer, length).value;
            && |key| == length
            && key[..|primer|] == primer
            && forall i :: |primer| <= i < length ==>
                 DigitValue(key[i]) == (DigitValue(key[i - 5]) + DigitValue(key[i - 4])) % 10
  {
    RunningKeyStarts(primer, length);
    RunningKeyFollows(primer, length);
  }

  lemma {:induction false} DigitInjective(a: char, b: char)
    requires IsDigit(a) && IsDigit(b) && DigitValue(a) == DigitValue(b)
    ensures a == b
  {
  }

  /** The self-test's primer: 32941 grows into 3294151356648 for its
      13-letter known plaintext. */
  lemma {:induction false} TestPrimerDigits()
    ensures var p: seq<nat> := [3, 2, 9, 4, 1];
            var want: seq<nat> := [3, 2, 9, 4, 1, 5, 1, 3, 5, 6, 6, 4, 8];
            forall i :: 0 <= i < 13 ==> KeyDigit(p, i) == want[i]
  {
    var p: seq<nat> := [3, 2, 9, 4, 1];
    assert KeyDigit(p, 5) == 5;
    assert KeyDigit(p, 6) == 1;
    assert KeyDigit(p, 7) == 3;
    assert KeyDigit(p, 8) == 5;
    assert KeyDigit(p, 9) == 6;
    assert KeyDigit(p, 10) == 6;
    assert KeyDigit(p, 11) == 4;
    assert KeyDigit(p, 12) == 8;
  }

  lemma {:induction false} TestPrimerKeyFor(primer: string, length: nat)
    requires primer == "32941" && length == 13
    ensures RunningKeyDigits(primer, length) == Ok([3, 2, 9, 4, 1, 5, 1, 3, 5, 6, 6, 4, 8])
  {
    assert Digits(primer) == [3, 2, 9, 4, 1];
    TestPrimerDigits();
    RunningKeyDigitsAre(primer, length);
    var v := RunningKeyDigits(primer, length).value;
    var want: seq<nat> := [3, 2, 9, 4, 1, 5, 1, 3, 5, 6, 6, 4, 8];
    assert forall i :: 0 <= i < 13 ==> v[i] == want[i];
    assert v == want;
  }

  lemma {:induction false} TestPrimerKey()
    ensures RunningKeyDigits("32941", 13) == Ok([3, 2, 9, 4, 1, 5, 1, 3, 5, 6, 6, 4, 8])
  {
    TestPrimerKeyFor("32941", 13);
  }

  // ---------------------------------------------------------------------
  // Decryption
  // ---------------------------------------------------------------------

  /** The body of the loop of `decrypt_gromark` at position `i`.  A symbol
      of the mixed alphabet that the key reaches is looked up: its place in
      the mixed alphabet names a straight-alphabet symbol (IndexError past
      the alphabet's end), which moves back by the key digit (ValueError
      for a non-digit) and is lower-cased.  Anything else is only
      lower-cased. */
  function DecryptChar(c: char, i: nat, mixed: string, key: string, alphabet: string): (r: Result<char>)
    ensures c !in mixed || i >= |key| ==> r == Ok(Lower(c))
    ensures r.Err? ==> c in mixed && i < |key|
  {
    if c in mixed && i < |key| then
      var m := IndexOf(mixed, c);
      if m >= |alphabet| then Err(IndexError)
      else if !IsDigit(key[i]) then Err(ValueError)
      else
        var s := IndexOf(alphabet, alphabet[m]);
        Ok(Lower(alphabet[(s - DigitValue(key[i])) % |alphabet|]))
    else Ok(Lower(c))
  }

  /** A looked-up symbol that decrypts without error sits within the
      alphabet's length in the mixed alphabet, meets a digit of the key,
      and comes out as the straight symbol moved back by that digit.
      This unfolds `DecryptChar` for the lemmas below; `GromarkRoundTrip`
      is the independent property that keeps that definition honest. */
  lemma {:induction false} DecryptCharLookup(c: char, i: nat, mixed: string, key: string, alphabet: string)
    requires c in mixed && i < |key|
    requires DecryptChar(c, i, mixed, key, alphabet).Ok?
    ensures IndexOf(mixed, c) < |alphabet| && IsDigit(key[i])
    ensures DecryptChar(c, i, mixed, key, alphabet).value ==
      Lower(alphabet[(IndexOf(alphabet, alphabet[IndexOf(mixed, c)]) - DigitValue(key[i])) % |alphabet|])
  {
  }

  /** Each position of the ciphertext decrypted on its own. */
  function DecryptSteps(ct: string, mixed: string, key: string, alphabet: string): (rs: seq<Result<char>>)
    ensures |rs| == |ct|
    ensures forall i :: 0 <= i < |ct| ==> rs[i] == DecryptChar(ct[i], i, mixed, key, alphabet)
  {
    seq(|ct|, i requires 0 <= i < |ct| => DecryptChar(ct[i], i, mixed, key, alphabet))
  }

  /** `decrypt_gromark`: every position decrypted in turn; the first
      failing position raises its error. */
  function DecryptGromark(ct: string, mixed: string, key: string, alphabet: string): (r: Result<string>)
    ensures r.Ok? <==> forall i :: 0 <= i < |ct| ==> DecryptChar(ct[i], i, mixed, key, alphabet).Ok?
    ensures r.Ok? ==> |r.value| == |ct|
    ensures r.Ok? ==> forall i :: 0 <= i < |ct| ==> DecryptChar(ct[i], i, mixed, key, alphabet) == Ok(r.value[i])
    ensures r.Err? ==> exists i :: 0 <= i < |ct| && DecryptChar(ct[i], i, mixed, key, alphabet) == Err(r.failure)
                                   && forall k :: 0 <= k < i ==> DecryptChar(ct[k], k, mixed, key, alphabet).Ok?
  {
    Collect(DecryptSteps(ct, mixed, key, alphabet))
  }

  /** Gromark encryption, the inverse of the decryption: a plain symbol
      moves forward by the key digit along the straight alphabet and is
      written as the mixed-alphabet symbol at that place. */
  function EncryptGromark(pt: string, key: string, mixed: string, alphabet: string): (ct: string)
    requires |mixed| == |alphabet| && |pt| <= |key|
    requires forall i :: 0 <= i < |pt| ==> pt[i] in alphabet && IsDigit(key[i])
    ensures |ct| == |pt|
    ensures forall i :: 0 <= i < |pt| ==> ct[i] in mixed
  {
    seq(|pt|, i requires 0 <= i < |pt| =>
      mixed[(IndexOf(alphabet, pt[i]) + DigitValue(key[i])) % |alphabet|])
  }

  /** Decrypting the encryption gives back the plaintext, lower-cased,
      when neither alphabet repeats a symbol and both are the same length. */
  lemma {:induction false} GromarkRoundTrip(pt: string, key: string, mixed: string, alphabet: string)
    requires Distinct(mixed) && Distinct(alphabet) && |mixed| == |alphabet|
    requires |pt| <= |key|
    requires forall i :: 0 <= i < |pt| ==> pt[i] in alphabet && IsDigit(key[i])
    ensures DecryptGromark(EncryptGromark(pt, key, mixed, alphabet), mixed, key, alphabet) == Ok(LowerStr(pt))
  {
    var ct := EncryptGromark(pt, key, mixed, alphabet);
    var n := |alphabet|;
    forall i | 0 <= i < |pt| ensures DecryptChar(ct[i], i, mixed, key, alphabet) == Ok(Lower(pt[i])) {
      var q := IndexOf(alphabet, pt[i]);
      var d := DigitValue(key[i]);
      var s := (q + d) % n;
      DistinctIndex(mixed, s);
      DistinctIndex(alphabet, s);
      ModUndo(q, d, n);
    }
    var r := DecryptGromark(ct, mixed, key, alphabet);
    assert r.Ok?;
    assert r.value == LowerStr(pt);
  }

  /** The round trip with the keyed alphabet and running key the search
      builds: for a keyword whose letters all lie in an alphabet without
      repeats, and a primer of five or more digits, the decryption undoes
      the encryption. */
  lemma {:induction false} KeyedRoundTrip(keyword: string, alphabet: string, primer: string, pt: string)
    requires |keyword| > 0 && Distinct(alphabet)
    requires forall i :: 0 <= i < |keyword| ==> Upper(keyword[i]) in alphabet
    requires AllDigits(primer) && 5 <= |primer| <= |pt|
    requires forall i :: 0 <= i < |pt| ==> pt[i] in alphabet
    ensures KeyedAlphabet(keyword, alphabet).Ok? && |KeyedAlphabet(keyword, alphabet).value| == |alphabet|
    ensures GenerateRunningKey(primer, |pt|).Ok? && |GenerateRunningKey(primer, |pt|).value| == |pt|
    ensures var mixed := KeyedAlphabet(keyword, alphabet).value;
            var key := GenerateRunningKey(primer, |pt|).value;
            DecryptGromark(EncryptGromark(pt, key, mixed, alphabet), mixed, key, alphabet) == Ok(LowerStr(pt))
  {
    KeyedAlphabetPerm(keyword, alphabet);
    RunningKeyRecurrence(primer, |pt|);
    GromarkRoundTrip(pt, GenerateRunningKey(primer, |pt|).value, KeyedAlphabet(keyword, alphabet).value, alphabet);
  }

  // ---------------------------------------------------------------------
  // Keyword pre-filter
  // ---------------------------------------------------------------------

  /** A known stretch of plaintext: where it sits, its ciphertext, its
      plaintext. */
  datatype Anchor = Anchor(position: int, cipher: string, plain: string)

  /** The shift a (cipher, plain) pair implies under a mixed alphabet, or
      None when one of the lookups of `validate_keyword` fails. */
  function ImpliedShift(mixed: string, alphabet: string, c: char, p: char): (r: Option<nat>)
    ensures r.Some? ==> r.value < |alphabet|
  {
    if c !in mixed then None
    else
      var m := IndexOf(mixed, c);
      if m >= |alphabet| || Upper(p) !in alphabet then None
      else Some((IndexOf(alphabet, alphabet[m]) - IndexOf(alphabet, Upper(p))) % |alphabet|)
  }

  /** A pair passes when every lookup succeeds and the shift is a digit. */
  predicate PairFits(mixed: string, alphabet: string, c: char, p: char)
  {
    var s := ImpliedShift(mixed, alphabet, c, p);
    s.Some? && s.value <= 9
  }

  /** The inner loop over `zip(cipher_segment, plain_segment)`: it stops
      at the shorter one and fails at the first pair that does not fit. */
  function CheckPairs(mixed: string, alphabet: string, cs: string, ps: string): (b: bool)
    ensures b <==> forall k :: 0 <= k < |cs| && k < |ps| ==> PairFits(mixed, alphabet, cs[k], ps[k])
  {
    if |cs| == 0 || |ps| == 0 then true
    else if !PairFits(mixed, alphabet, cs[0], ps[0]) then false
    else
      var b := CheckPairs(mixed, alphabet, cs[1..], ps[1..]);
      assert forall k :: 1 <= k < |cs| && k < |ps| ==> cs[1..][k - 1] == cs[k] && ps[1..][k - 1] == ps[k];
      b
  }

  /** The outer loop over the anchors. */
  function CheckAnchors(mixed: string, alphabet: string, anchors: seq<Anchor>): (b: bool)
    ensures b <==> forall i :: 0 <= i < |anchors| ==> CheckPairs(mixed, alphabet, anchors[i].cipher, anchors[i].plain)
  {
    if |anchors| == 0 then true
    else if !CheckPairs(mixed, alphabet, anchors[0].cipher, anchors[0].plain) then false
    else
      var b := CheckAnchors(mixed, alphabet, anchors[1..]);
      assert forall i :: 1 <= i < |anchors| ==> anchors[1..][i - 1] == anchors[i];
      b
  }

  /** `validate_keyword`: true exactly when the keyed alphabet can be built
      and every aligned pair of every anchor fits; any failed lookup, and
      the empty keyword's division by zero, give false.  The anchors'
      positions play no part. */
  function ValidateKeyword(keyword: string, anchors: seq<Anchor>, alphabet: string): (b: bool)
    ensures b <==> (|keyword| > 0 &&
      forall i, k :: 0 <= i < |anchors| && 0 <= k < |anchors[i].cipher| && k < |anchors[i].plain| ==>
        PairFits(KeyedAlphabet(keyword, alphabet).value, alphabet, anchors[i].cipher[k], anchors[i].plain[k]))
  {
    match KeyedAlphabet(keyword, alphabet)
    case Err(_) => false
    case Ok(mixed) => CheckAnchors(mixed, alphabet, anchors)
  }

  /** The decryption of one pair under a one-digit key reproduces the
      plain symbol, lower-cased. */
  ghost predicate Reproduced(mixed: string, alphabet: string, c: char, p: char)
  {
    c in mixed && exists d: nat :: d <= 9 && DecryptChar(c, 0, mixed, [DigitChar(d)], alphabet) == Ok(Lower(Upper(p)))
  }

  lemma {:induction false} LowerInjective(a: char, b: char)
    requires IsUpper(a) && IsUpper(b) && Lower(a) == Lower(b)
    ensures a == b
  {
  }

  /** A pair that passes is reproduced by the digit it implies ... */
  lemma {:induction false} PairFitsReproduced(mixed: string, alphabet: string, c: char, p: char)
    requires Distinct(alphabet)
    requires PairFits(mixed, alphabet, c, p)
    ensures Reproduced(mixed, alphabet, c, p)
  {
    var n := |alphabet|;
    var m := IndexOf(mixed, c);
    var pp := IndexOf(alphabet, Upper(p));
    DistinctIndex(alphabet, m);
    var d := (m - pp) % n;
    ModSub(m, pp, d, n);
    assert DecryptChar(c, 0, mixed, [DigitChar(d)], alphabet) == Ok(Lower(Upper(p)));
  }

  /** What a reproducing digit says about the lookup. */
  lemma {:induction false} ReproducedAt(mixed: string, alphabet: string, c: char, p: char, d: nat)
    requires Distinct(alphabet) && c in mixed && d <= 9
    requires DecryptChar(c, 0, mixed, [DigitChar(d)], alphabet) == Ok(Lower(Upper(p)))
    ensures IndexOf(mixed, c) < |alphabet|
    ensures Lower(alphabet[(IndexOf(mixed, c) - d) % |alphabet|]) == Lower(Upper(p))
  {
    var key := [DigitChar(d)];
    DecryptCharLookup(c, 0, mixed, key, alphabet);
    DistinctIndex(alphabet, IndexOf(mixed, c));
    assert DigitValue(key[0]) == d;
  }

  /** The straight symbol `d` places back from the looked-up one is the
      plain symbol: the implied shift is `d` (mod the alphabet's length). */
  lemma {:induction false} ShiftFromPlace(mixed: string, alphabet: string, c: char, p: char, d: nat)
    requires Distinct(alphabet) && c in mixed && IndexOf(mixed, c) < |alphabet|
    requires alphabet[(IndexOf(mixed, c) - d) % |alphabet|] == Upper(p)
    ensures ImpliedShift(mixed, alphabet, c, p) == Some(d % |alphabet|)
  {
    var n := |alphabet|;
    var m := IndexOf(mixed, c);
    var j := (m - d) % n;
    DistinctIndex(alphabet, m);
    DistinctIndex(alphabet, j);
    assert Upper(p) in alphabet;
    ModShift(m, d, j, n);
  }

  /** ... and, over distinct upper-case letters, a reproduced pair passes. */
  lemma {:induction false} ReproducedPairFits(mixed: string, alphabet: string, c: char, p: char)
    requires Distinct(alphabet) && forall i :: 0 <= i < |alphabet| ==> IsUpper(alphabet[i])
    requires Reproduced(mixed, alphabet, c, p)
    ensures PairFits(mixed, alphabet, c, p)
  {
    var n := |alphabet|;
    var d: nat :| d <= 9 && DecryptChar(c, 0, mixed, [DigitChar(d)], alphabet) == Ok(Lower(Upper(p)));
    ReproducedAt(mixed, alphabet, c, p, d);
    var j := (IndexOf(mixed, c) - d) % n;
    var u := Upper(p);
    assert IsUpper(u) by {
      assert IsLower(Lower(u));
    }
    LowerInjective(alphabet[j], u);
    ShiftFromPlace(mixed, alphabet, c, p, d);
    ModAtMost(d, n);
  }

  lemma {:induction false} PairFitsIff(mixed: string, alphabet: string, c: char, p: char)
    requires Distinct(alphabet) && forall i :: 0 <= i < |alphabet| ==> IsUpper(alphabet[i])
    ensures PairFits(mixed, alphabet, c, p) <==> Reproduced(mixed, alphabet, c, p)
  {
    if PairFits(mixed, alphabet, c, p) {
      PairFitsReproduced(mixed, alphabet, c, p);
    }
    if Reproduced(mixed, alphabet, c, p) {
      ReproducedPairFits(mixed, alphabet, c, p);
    }
  }

  /** Hence `validate_keyword` accepts a keyword exactly when every anchor
      pair is reproduced by the decryption under some digit. */
  lemma {:induction false} ValidateReproduces(keyword: string, anchors: seq<Anchor>, alphabet: string)
    requires |keyword| > 0
    requires Distinct(alphabet) && forall i :: 0 <= i < |alphabet| ==> IsUpper(alphabet[i])
    ensures ValidateKeyword(keyword, anchors, alphabet) <==>
      forall i, k :: 0 <= i < |anchors| && 0 <= k < |anchors[i].cipher| && k < |anchors[i].plain| ==>
        Reproduced(KeyedAlphabet(keyword, alphabet).value, alphabet, anchors[i].cipher[k], anchors[i].plain[k])
  {
    var mixed := KeyedAlphabet(keyword, alphabet).value;
    forall i, k | 0 <= i < |anchors| && 0 <= k < |anchors[i].cipher| && k < |anchors[i].plain|
      ensures PairFits(mixed, alphabet, anchors[i].cipher[k], anchors[i].plain[k])
          <==> Reproduced(mixed, alphabet, anchors[i].cipher[k], anchors[i].plain[k])
    {
      PairFitsIff(mixed, alphabet, anchors[i].cipher[k], anchors[i].plain[k]);
    }
  }
}
