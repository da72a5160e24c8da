/** The dictionary Vigenère cracker (vigenere.py): decryption whose key
    pointer advances only on alphabet symbols, the all-phrases test, the
    filter of one batch of candidate keys, and the search over specific
    keys and then the dictionary, modelled in submission order. */
module VigenereCracker {
  import opened Seqs
  import opened Text
  import opened Modular
  import opened Alphabets
  import opened Batching

  /** `key_shifts`: the places of the upper-cased key's alphabet symbols,
      other key characters dropped. */
  function KeyShifts(key: string, alphabet: string): (r: seq<nat>)
    ensures |r| <= |key|
    ensures forall j :: 0 <= j < |r| ==> r[j] < |alphabet|
  {
    if |key| == 0 then []
    else
      var k := Upper(key[0]);
      (if k in alphabet then [Place(alphabet, k)] else []) + KeyShifts(key[1..], alphabet)
  }

  /** A key yields no shift exactly when none of its upper-cased characters
      is in the alphabet. */
  lemma {:induction false} KeyShiftsEmpty(key: string, alphabet: string)
    ensures |KeyShifts(key, alphabet)| == 0 <==> forall i :: 0 <= i < |key| ==> Upper(key[i]) !in alphabet
  {
    if |key| > 0 {
      KeyShiftsEmpty(key[1..], alphabet);
      assert forall i :: 1 <= i < |key| ==> key[1..][i - 1] == key[i];
    }
  }

  /** How many symbols of `s` lie in the alphabet: the key pointer after
      reading `s`. */
  function CountIn(s: string, alphabet: string): (n: nat)
    ensures n <= |s|
  {
    if |s| == 0 then 0 else (if s[0] in alphabet then 1 else 0) + CountIn(s[1..], alphabet)
  }

  /** The pointer after reading `c`: advanced only by an alphabet
      symbol. */
  function NextPointer(c: char, alphabet: string, k: nat): (k': nat)
    ensures k' == k + (if c in alphabet then 1 else 0)
  {
    if c in alphabet then k + 1 else k
  }

  /** One character of the decryption at pointer `k`: an alphabet symbol
      moves back by the current shift; the result is lower-cased. */
  function DecryptStep(c: char, alphabet: string, shifts: seq<nat>, k: nat): (d: char)
    requires |shifts| > 0
    ensures c !in alphabet ==> d == Lower(c)
    ensures !IsUpper(d)
  {
    var e := if c in alphabet then alphabet[(Place(alphabet, c) - shifts[k % |shifts|]) % |alphabet|] else c;
    LowerNotUpper(e);
    Lower(e)
  }

  lemma LowerNotUpper(c: char)
    ensures !IsUpper(Lower(c))
  {
  }

  /** The loop of `decrypt_vigenere` from key pointer `k` on. */
  function DecryptFrom(ct: string, alphabet: string, shifts: seq<nat>, k: nat): (r: string)
    requires |shifts| > 0
    ensures |r| == |ct|
  {
    if |ct| == 0 then []
    else [DecryptStep(ct[0], alphabet, shifts, k)] + DecryptFrom(ct[1..], alphabet, shifts, NextPointer(ct[0], alphabet, k))
  }

  /** `decrypt_vigenere`: the alphabet is upper-cased; a key without any
      alphabet symbol returns the ciphertext as it is. */
  function DecryptVigenere(ct: string, key: string, alphabetStr: string): (r: string)
    ensures |r| == |ct|
    ensures |KeyShifts(key, UpperStr(alphabetStr))| == 0 ==> r == ct
  {
    var alphabet := UpperStr(alphabetStr);
    var shifts := KeyShifts(key, alphabet);
    if |shifts| == 0 then ct else DecryptFrom(ct, alphabet, shifts, 0)
  }

  /** Position `i` of the decryption is decrypted at the pointer reached
      after the alphabet symbols before it. */
  lemma {:induction false} DecryptFromAt(ct: string, alphabet: string, shifts: seq<nat>, k: nat, i: nat)
    requires |shifts| > 0 && i < |ct|
    ensures DecryptFrom(ct, alphabet, shifts, k)[i] == DecryptStep(ct[i], alphabet, shifts, k + CountIn(ct[..i], alphabet))
  {
    if i > 0 {
      DecryptFromAt(ct[1..], alphabet, shifts, NextPointer(ct[0], alphabet, k), i - 1);
      assert ct[1..][i - 1] == ct[i];
      assert ct[..i][1..] == ct[1..][..i - 1];
    }
  }

  /** With a usable key, every output character is lower-case or not a
      letter at all, characters outside the alphabet come through
      lower-cased, and the `j`-th alphabet symbol of the ciphertext is
      moved back by shift `j mod m`. */
  lemma {:induction false} DecryptVigenereAt(ct: string, key: string, alphabetStr: string, i: nat)
    requires |KeyShifts(key, UpperStr(alphabetStr))| > 0 && i < |ct|
    ensures var alphabet := UpperStr(alphabetStr);
            var shifts := KeyShifts(key, alphabet);
            var r := DecryptVigenere(ct, key, alphabetStr);
            && !IsUpper(r[i])
            && (ct[i] !in alphabet ==> r[i] == Lower(ct[i]))
            && (ct[i] in alphabet ==>
                 r[i] == Lower(alphabet[(Place(alphabet, ct[i]) - shifts[CountIn(ct[..i], alphabet) % |shifts|]) % |alphabet|]))
  {
    var alphabet := UpperStr(alphabetStr);
    var shifts := KeyShifts(key, alphabet);
    DecryptFromAt(ct, alphabet, shifts, 0, i);
    assert DecryptVigenere(ct, key, alphabetStr) == DecryptFrom(ct, alphabet, shifts, 0);
    if ct[i] in alphabet {
      DecryptStepShift(ct[i], alphabet, shifts, CountIn(ct[..i], alphabet));
    }
  }

  /** An alphabet symbol decrypted at pointer `k` moves back by shift
      `k mod m`. */
  lemma DecryptStepShift(c: char, alphabet: string, shifts: seq<nat>, k: nat)
    requires |shifts| > 0 && c in alphabet
    ensures DecryptStep(c, alphabet, shifts, k)
         == Lower(alphabet[(Place(alphabet, c) - shifts[k % |shifts|]) % |alphabet|])
  {
  }

  /** The encryption the decryption undoes: alphabet symbols move forward
      by the current shift, with the same pointer rule; other characters
      stay. */
  function EncryptFrom(pt: string, alphabet: string, shifts: seq<nat>, k: nat): (r: string)
    requires |shifts| > 0
    ensures |r| == |pt|
  {
    if |pt| == 0 then []
    else [ShiftForward(pt[0], alphabet, shifts, k)] + EncryptFrom(pt[1..], alphabet, shifts, NextPointer(pt[0], alphabet, k))
  }

  /** One alphabet symbol moved forward and back by the same shift is
      itself again. */
  lemma ShiftUndo(alphabet: string, c: char, sh: nat)
    requires Distinct(alphabet) && c in alphabet
    ensures var e := alphabet[(Place(alphabet, c) + sh) % |alphabet|];
            alphabet[(Place(alphabet, e) - sh) % |alphabet|] == c
  {
    var n := |alphabet|;
    var q := Place(alphabet, c);
    DistinctIndex(alphabet, (q + sh) % n);
    ModUndo(q, sh, n);
  }

  /** Decrypting one encrypted character at the same pointer gives it
      back lower-cased, and the pointer moves alike. */
  lemma StepUndo(c: char, alphabet: string, shifts: seq<nat>, k: nat)
    requires |shifts| > 0 && Distinct(alphabet)
    ensures DecryptStep(ShiftForward(c, alphabet, shifts, k), alphabet, shifts, k) == Lower(c)
    ensures NextPointer(ShiftForward(c, alphabet, shifts, k), alphabet, k) == NextPointer(c, alphabet, k)
  {
    if c in alphabet {
      ShiftUndo(alphabet, c, shifts[k % |shifts|]);
    }
  }

  lemma {:induction false} RoundTripFrom(pt: string, alphabet: string, shifts: seq<nat>, k: nat)
    requires |shifts| > 0 && Distinct(alphabet)
    ensures DecryptFrom(EncryptFrom(pt, alphabet, shifts, k), alphabet, shifts, k) == LowerStr(pt)
  {
    if |pt| > 0 {
      var k' := NextPointer(pt[0], alphabet, k);
      var ct := EncryptFrom(pt, alphabet, shifts, k);
      StepUndo(pt[0], alphabet, shifts, k);
      assert ct[1..] == EncryptFrom(pt[1..], alphabet, shifts, k');
      RoundTripFrom(pt[1..], alphabet, shifts, k');
      assert LowerStr(pt) == [Lower(pt[0])] + LowerStr(pt[1..]);
    }
  }

  /** Decrypting with a usable key undoes the encryption with it, up to
      lower case, when the upper-cased alphabet has no repeated symbol. */
  lemma {:induction false} VigenereRoundTrip(pt: string, key: string, alphabetStr: string)
    requires |KeyShifts(key, UpperStr(alphabetStr))| > 0 && Distinct(UpperStr(alphabetStr))
    ensures var alphabet := UpperStr(alphabetStr);
            DecryptVigenere(EncryptFrom(pt, alphabet, KeyShifts(key, alphabet), 0), key, alphabetStr) == LowerStr(pt)
  {
    RoundTripFrom(pt, UpperStr(alphabetStr), KeyShifts(key, UpperStr(alphabetStr)), 0);
  }

  // ---------------------------------------------------------------------
  // Phrases
  // ---------------------------------------------------------------------

  /** `contains_all_phrases`: every upper-cased phrase occurs in the
      upper-cased text with its spaces removed; no phrases, no demand. */
  function ContainsAllPhrases(text: string, phrases: seq<string>): (b: bool)
    ensures b <==> forall k :: 0 <= k < |phrases| ==> Contains(Without(UpperStr(text), ' '), UpperStr(phrases[k]))
  {
    if |phrases| == 0 then true
    else
      var haystack := Without(UpperStr(text), ' ');
      forall k :: 0 <= k < |phrases| ==> Contains(haystack, UpperStr(phrases[k]))
  }

  /** The text searched has no spaces left, so a phrase holding a space
      is never found. */
  lemma {:induction false} SpacedPhraseNeverFound(text: string, phrases: seq<string>, k: nat)
    requires k < |phrases| && ' ' in phrases[k]
    ensures !ContainsAllPhrases(text, phrases)
  {
    var haystack := Without(UpperStr(text), ' ');
    var p := UpperStr(phrases[k]);
    var j :| 0 <= j < |phrases[k]| && phrases[k][j] == ' ';
    assert p[j] == ' ';
    if Contains(haystack, p) {
      ContainedSymbol(haystack, p, j);
    }
  }

  /** Every symbol of a phrase that occurs in a text is in the text. */
  lemma ContainedSymbol(t: string, p: string, j: nat)
    requires Contains(t, p) && j < |p|
    ensures p[j] in t
  {
    var i :| OccursAt(p, t, i);
    assert t[i..i + |p|][j] == t[i + j];
  }

  // ---------------------------------------------------------------------
  // Batches and the search
  // ---------------------------------------------------------------------

  /** The dictionary `process_batch` records for a key that works. */
  datatype Match = Match(key: string, plaintext: string, phrases: seq<string>)

  /** The record for one key: its match, or nothing when its decryption
      misses a phrase. */
  function KeyHit(key: string, ct: string, phrases: seq<string>, alphabetStr: string): (r: seq<Match>)
    ensures |r| <= 1
  {
    var pt := DecryptVigenere(ct, key, alphabetStr);
    if ContainsAllPhrases(pt, phrases) then [Match(key, pt, phrases)] else []
  }

  /** `process_batch`: the keys, in order, whose decryption contains every
      phrase. */
  function ProcessBatch(batch: seq<string>, ct: string, phrases: seq<string>, alphabetStr: string): (r: seq<Match>)
    ensures |r| <= |batch|
  {
    if |batch| == 0 then []
    else KeyHit(batch[0], ct, phrases, alphabetStr) + ProcessBatch(batch[1..], ct, phrases, alphabetStr)
  }

  /** A match is reported exactly for the keys of the batch that work, and
      holds that key's decryption and the phrases. */
  lemma {:induction false} ProcessBatchMembers(batch: seq<string>, ct: string, phrases: seq<string>, alphabetStr: string, m: Match)
    ensures m in ProcessBatch(batch, ct, phrases, alphabetStr) <==>
      && m.key in batch
      && m.plaintext == DecryptVigenere(ct, m.key, alphabetStr)
      && m.phrases == phrases
      && ContainsAllPhrases(m.plaintext, phrases)
  {
    if |batch| > 0 {
      ProcessBatchMembers(batch[1..], ct, phrases, alphabetStr, m);
      assert m.key in batch <==> m.key == batch[0] || m.key in batch[1..];
    }
  }

  lemma ProcessBatchCons(a: seq<string>, b: seq<string>, ct: string, phrases: seq<string>, alphabetStr: string)
    requires |a| > 0
    ensures ProcessBatch(a + b, ct, phrases, alphabetStr)
         == KeyHit(a[0], ct, phrases, alphabetStr) + ProcessBatch(a[1..] + b, ct, phrases, alphabetStr)
  {
    assert (a + b)[0] == a[0] && (a + b)[1..] == a[1..] + b;
  }

  lemma {:induction false} ProcessBatchAppend(a: seq<string>, b: seq<string>, ct: string, phrases: seq<string>, alphabetStr: string)
    ensures ProcessBatch(a + b, ct, phrases, alphabetStr) == ProcessBatch(a, ct, phrases, alphabetStr) + ProcessBatch(b, ct, phrases, alphabetStr)
  {
    if |a| > 0 {
      var hit := KeyHit(a[0], ct, phrases, alphabetStr);
      var ra, rb := ProcessBatch(a[1..], ct, phrases, alphabetStr), ProcessBatch(b, ct, phrases, alphabetStr);
      ProcessBatchCons(a, b, ct, phrases, alphabetStr);
      ProcessBatchAppend(a[1..], b, ct, phrases, alphabetStr);
      assert ProcessBatch(a, ct, phrases, alphabetStr) == hit + ra;
      assert hit + (ra + rb) == (hit + ra) + rb;
    } else {
      assert a + b == b;
    }
  }

  /** The batches' matches, concatenated, are the matches of all their
      keys. */
  lemma {:induction false} ProcessBatchesFlatten(batches: seq<seq<string>>, ct: string, phrases: seq<string>, alphabetStr: string)
    ensures Flatten(seq(|batches|, j requires 0 <= j < |batches| => ProcessBatch(batches[j], ct, phrases, alphabetStr)))
         == ProcessBatch(Flatten(batches), ct, phrases, alphabetStr)
  {
    if |batches| > 0 {
      var all := seq(|batches|, j requires 0 <= j < |batches| => ProcessBatch(batches[j], ct, phrases, alphabetStr));
      var rest := seq(|batches| - 1, j requires 0 <= j < |batches| - 1 => ProcessBatch(batches[1..][j], ct, phrases, alphabetStr));
      ProcessBatchesFlatten(batches[1..], ct, phrases, alphabetStr);
      assert all[1..] == rest;
      ProcessBatchAppend(batches[0], Flatten(batches[1..]), ct, phrases, alphabetStr);
    }
  }

  /** `batch_words`' default batch size. */
  const WordBatchSize := 500

  /** The sequential part of `crack_vigenere`: the specific keys are tried
      first, in order; then the dictionary, cut into batches of 500, is
      searched batch by batch (the batches' results gathered in submission
      order). */
  function CrackVigenere(ct: string, alphabetStr: string, phrases: seq<string>, dictionary: seq<string>, specificKeys: seq<string>): (r: seq<Match>)
  {
    var first := ProcessBatch(specificKeys, ct, phrases, alphabetStr);
    if |dictionary| == 0 then first
    else
      var batches := ChunksOf(dictionary, WordBatchSize);
      first + Flatten(seq(|batches|, j requires 0 <= j < |batches| => ProcessBatch(batches[j], ct, phrases, alphabetStr)))
  }

  /** The matches of the specific keys come first, followed by the
      matches of the dictionary words in dictionary order, as if it had not
      been cut into batches; every match contains every phrase. */
  lemma {:induction false} CrackOrder(ct: string, alphabetStr: string, phrases: seq<string>, dictionary: seq<string>, specificKeys: seq<string>)
    ensures CrackVigenere(ct, alphabetStr, phrases, dictionary, specificKeys)
         == ProcessBatch(specificKeys, ct, phrases, alphabetStr) + ProcessBatch(dictionary, ct, phrases, alphabetStr)
    ensures forall k :: 0 <= k < |CrackVigenere(ct, alphabetStr, phrases, dictionary, specificKeys)| ==>
      ContainsAllPhrases(CrackVigenere(ct, alphabetStr, phrases, dictionary, specificKeys)[k].plaintext, phrases)
  {
    var r := CrackVigenere(ct, alphabetStr, phrases, dictionary, specificKeys);
    if |dictionary| > 0 {
      var batches := ChunksOf(dictionary, WordBatchSize);
      ProcessBatchesFlatten(batches, ct, phrases, alphabetStr);
      ChunksFlatten(dictionary, WordBatchSize);
    }
    ProcessBatchAppend(specificKeys, dictionary, ct, phrases, alphabetStr);
    forall k | 0 <= k < |r| ensures ContainsAllPhrases(r[k].plaintext, phrases) {
      ProcessBatchMembers(specificKeys + dictionary, ct, phrases, alphabetStr, r[k]);
    }
  }
}
