/** The Vigenère decryption both GUI toolkits share (K4Tools.py and
    K4tools.py): the alphabet is the upper-cased alphabet field, the key is
    taken as typed, and the key index is the absolute position in the
    ciphertext; plus the `highlight_match` helper that marks a found phrase.
    The cached alphabet of `get_alphabet` is an explicit parameter. */
module GuiVigenere {
  import opened Wrappers
  import opened Seqs
  import opened Text
  import opened Modular
  import opened Alphabets

  /** `key_shifts`: the places of the key characters found in the
      alphabet, in key order; the key is not upper-cased. */
  function KeyShifts(key: string, alphabet: string): (r: seq<nat>)
    ensures |r| <= |key|
    ensures forall j :: 0 <= j < |r| ==> r[j] < |alphabet|
  {
    if |key| == 0 then []
    else (if key[0] in alphabet then [Place(alphabet, key[0])] else []) + KeyShifts(key[1..], alphabet)
  }

  /** The key shifts are exactly the places of the key's alphabet
      symbols: a key of alphabet symbols only gives one shift per key
      character. */
  lemma {:induction false} KeyShiftsAll(key: string, alphabet: string)
    requires forall i :: 0 <= i < |key| ==> key[i] in alphabet
    ensures |KeyShifts(key, alphabet)| == |key|
    ensures forall i :: 0 <= i < |key| ==> KeyShifts(key, alphabet)[i] == Place(alphabet, key[i])
  {
    if |key| > 0 {
      KeyShiftsAll(key[1..], alphabet);
    }
  }

  /** One character at absolute position `i`: an alphabet symbol moves
      back by shift `i mod m`; anything else passes through. */
  function DecryptChar(c: char, alphabet: string, shifts: seq<nat>, i: nat): (d: char)
    requires |shifts| > 0
    ensures c in alphabet ==> d in alphabet
    ensures c !in alphabet ==> d == c
  {
    if c in alphabet then alphabet[(Place(alphabet, c) - shifts[i % |shifts|]) % |alphabet|] else c
  }

  /** `decrypt_vigenere` of both GUI toolkits: the ciphertext is returned
      as it is when the key has no alphabet symbol; otherwise every
      character is decrypted at its own position, so characters outside
      the alphabet still use up a key position. */
  function Decrypt(ct: string, key: string, alphabetStr: string): (r: string)
    ensures |r| == |ct|
    ensures var alphabet := UpperStr(alphabetStr);
            var shifts := KeyShifts(key, alphabet);
            && (|shifts| == 0 ==> r == ct)
            && (|shifts| > 0 ==> forall i :: 0 <= i < |ct| ==> r[i] == DecryptChar(ct[i], alphabet, shifts, i))
  {
    var alphabet := UpperStr(alphabetStr);
    var shifts := KeyShifts(key, alphabet);
    if |shifts| == 0 then ct
    else seq(|ct|, i requires 0 <= i < |ct| => DecryptChar(ct[i], alphabet, shifts, i))
  }

  /** The encryption `Decrypt` undoes: every character at absolute
      position `i` moved forward by shift `i mod m`. */
  function Encrypt(pt: string, key: string, alphabetStr: string): (r: string)
    requires |KeyShifts(key, UpperStr(alphabetStr))| > 0
    ensures |r| == |pt|
    ensures forall i :: 0 <= i < |pt| ==> r[i] == ShiftForward(pt[i], UpperStr(alphabetStr), KeyShifts(key, UpperStr(alphabetStr)), i)
  {
    var alphabet := UpperStr(alphabetStr);
    seq(|pt|, i requires 0 <= i < |pt| => ShiftForward(pt[i], alphabet, KeyShifts(key, alphabet), i))
  }

  lemma CharRoundTrip(c: char, alphabet: string, shifts: seq<nat>, i: nat)
    requires |shifts| > 0 && Distinct(alphabet)
    ensures DecryptChar(ShiftForward(c, alphabet, shifts, i), alphabet, shifts, i) == c
  {
    if c in alphabet {
      var q := Place(alphabet, c);
      var sh := shifts[i % |shifts|];
      DistinctIndex(alphabet, (q + sh) % |alphabet|);
      ModUndo(q, sh, |alphabet|);
    }
  }

  /** With a usable key and an alphabet without repeats, decryption
      undoes encryption exactly, case included. */
  lemma {:induction false} RoundTrip(pt: string, key: string, alphabetStr: string)
    requires |KeyShifts(key, UpperStr(alphabetStr))| > 0 && Distinct(UpperStr(alphabetStr))
    ensures Decrypt(Encrypt(pt, key, alphabetStr), key, alphabetStr) == pt
  {
    var alphabet := UpperStr(alphabetStr);
    var shifts := KeyShifts(key, alphabet);
    var ct := Encrypt(pt, key, alphabetStr);
    forall i | 0 <= i < |pt| ensures Decrypt(ct, key, alphabetStr)[i] == pt[i] {
      CharRoundTrip(pt[i], alphabet, shifts, i);
    }
  }

  // ---------------------------------------------------------------------
  // highlight_match
  // ---------------------------------------------------------------------

  /** `text.index(phrase)` from position `from` on: the first occurrence,
      or none. */
  function FindFrom(text: string, phrase: string, from: nat): (r: Option<nat>)
    requires from <= |text|
    ensures r.Some? ==> from <= r.value && OccursAt(phrase, text, r.value)
    ensures r.Some? ==> forall j :: from <= j < r.value ==> !OccursAt(phrase, text, j)
    ensures r.None? ==> forall j :: from <= j ==> !OccursAt(phrase, text, j)
    decreases |text| - from
  {
    if from + |phrase| > |text| then None
    else if text[from..from + |phrase|] == phrase then Some(from)
    else if from == |text| then None
    else FindFrom(text, phrase, from + 1)
  }

  /** Where `text.index(phrase)` finds the phrase: its first occurrence. */
  function FirstAt(text: string, phrase: string): (s: nat)
    requires Contains(text, phrase)
    ensures OccursAt(phrase, text, s)
    ensures forall j :: 0 <= j < s ==> !OccursAt(phrase, text, j)
  {
    FindFrom(text, phrase, 0).value
  }

  /** `highlight_match`: `mark` on each side of the first occurrence of
      the phrase (K4Tools.py uses `*`, K4tools.py `**`); an absent phrase
      makes `index` raise. */
  function Highlight(text: string, phrase: string, mark: string): (r: Result<string>)
    ensures r.Err? <==> !Contains(text, phrase)
    ensures r.Err? ==> r.failure == ValueError
    ensures r.Ok? ==> |r.value| == |text| + 2 * |mark|
  {
    match FindFrom(text, phrase, 0)
    case None => Err(ValueError)
    case Some(s) => Ok(text[..s] + mark + text[s..s + |phrase|] + mark + text[s + |phrase|..])
  }

  /** `r` with the `m` characters at `s` and the `m` characters after
      the following `p` taken out. */
  function Unmark(r: string, s: nat, m: nat, p: nat): string
    requires s + 2 * m + p <= |r|
  {
    r[..s] + r[s + m..s + m + p] + r[s + 2 * m + p..]
  }

  lemma UnmarkSplice(a: string, mark: string, b: string, c: string)
    ensures Unmark(a + mark + b + mark + c, |a|, |mark|, |b|) == a + b + c
  {
    var r := a + mark + b + mark + c;
    assert r[..|a|] == a;
    assert r[|a| + |mark|..|a| + |mark| + |b|] == b;
    assert r[|a| + 2 * |mark| + |b|..] == c;
  }

  /** The highlighted text is the text with a mark inserted before and
      after the first occurrence of the phrase. */
  lemma HighlightShape(text: string, phrase: string, mark: string)
    requires Contains(text, phrase)
    ensures var s := FirstAt(text, phrase);
            Highlight(text, phrase, mark).value == text[..s] + mark + phrase + mark + text[s + |phrase|..]
  {
  }

  lemma Cut(t: string, i: nat, j: nat)
    requires i <= j <= |t|
    ensures t == t[..i] + t[i..j] + t[j..]
  {
  }

  /** Taking the two marks out of the highlighted text gives the text
      back. */
  lemma HighlightRestores(text: string, phrase: string, mark: string)
    requires Contains(text, phrase)
    ensures Unmark(Highlight(text, phrase, mark).value, FirstAt(text, phrase), |mark|, |phrase|) == text
  {
    var s := FirstAt(text, phrase);
    HighlightShape(text, phrase, mark);
    Cut(text, s, s + |phrase|);
    UnmarkSplice(text[..s], mark, phrase, text[s + |phrase|..]);
  }
}
