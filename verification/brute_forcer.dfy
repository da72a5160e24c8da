/** The stand-alone dictionary attack on a Vigenère cipher over a fixed
    mixed alphabet (VigenereBruteForcer.py): decryption whose key index is
    the absolute position in the ciphertext, the dictionary filter, and the
    scan that stops at the first key revealing a known Kryptos phrase. */
module BruteForcer {
  import opened Wrappers
  import opened Seqs
  import opened Text
  import opened Modular

  /** The file's custom alphabet. */
  const Alphabet := "DYAHRBCEFGIJKLMNOPQSTUVWXZ"

  /** The place of each symbol in the alphabet, written out. */
  function PlaceOf(c: char): (p: int)
    ensures -1 <= p < 26
  {
    match c
      case 'D' => 0
      case 'Y' => 1
      case 'A' => 2
      case 'H' => 3
      case 'R' => 4
      case 'B' => 5
      case 'C' => 6
      case 'E' => 7
      case 'F' => 8
      case 'G' => 9
      case 'I' => 10
      case 'J' => 11
      case 'K' => 12
      case 'L' => 13
      case 'M' => 14
      case 'N' => 15
      case 'O' => 16
      case 'P' => 17
      case 'Q' => 18
      case 'S' => 19
      case 'T' => 20
      case 'U' => 21
      case 'V' => 22
      case 'W' => 23
      case 'X' => 24
      case 'Z' => 25
      case _ => -1
  }

  lemma PlacesLow()
    ensures forall i :: 0 <= i < 9 ==> PlaceOf(Alphabet[i]) == i
  {
    assert Alphabet[0] == 'D';
    assert Alphabet[1] == 'Y';
    assert Alphabet[2] == 'A';
    assert Alphabet[3] == 'H';
    assert Alphabet[4] == 'R';
    assert Alphabet[5] == 'B';
    assert Alphabet[6] == 'C';
    assert Alphabet[7] == 'E';
    assert Alphabet[8] == 'F';
  }

  lemma PlacesMiddle()
    ensures forall i :: 9 <= i < 18 ==> PlaceOf(Alphabet[i]) == i
  {
    assert Alphabet[9] == 'G';
    assert Alphabet[10] == 'I';
    assert Alphabet[11] == 'J';
    assert Alphabet[12] == 'K';
    assert Alphabet[13] == 'L';
    assert Alphabet[14] == 'M';
    assert Alphabet[15] == 'N';
    assert Alphabet[16] == 'O';
    assert Alphabet[17] == 'P';
  }

  lemma PlacesHigh()
    ensures forall i :: 18 <= i < 26 ==> PlaceOf(Alphabet[i]) == i
  {
    assert Alphabet[18] == 'Q';
    assert Alphabet[19] == 'S';
    assert Alphabet[20] == 'T';
    assert Alphabet[21] == 'U';
    assert Alphabet[22] == 'V';
    assert Alphabet[23] == 'W';
    assert Alphabet[24] == 'X';
    assert Alphabet[25] == 'Z';
  }

  /** Every symbol of the alphabet is at its place in the table above. */
  lemma Places()
    ensures |Alphabet| == 26
    ensures forall i :: 0 <= i < |Alphabet| ==> PlaceOf(Alphabet[i]) == i
  {
    PlacesLow();
    PlacesMiddle();
    PlacesHigh();
  }

  /** The alphabet has no repeated symbol, and `?` is not one of them. */
  lemma AlphabetDistinct()
    ensures Distinct(Alphabet) && |Alphabet| == 26 && Alphabet[0] == 'D'
    ensures '?' !in Alphabet
  {
    Places();
    forall i, j | 0 <= i < j < |Alphabet| ensures Alphabet[i] != Alphabet[j] {
      assert PlaceOf(Alphabet[i]) != PlaceOf(Alphabet[j]);
    }
  }

  /** So `ALPHABET.index` is the table. */
  lemma AlphabetIndex(c: char)
    requires c in Alphabet
    ensures IndexOf(Alphabet, c) == PlaceOf(c)
  {
    Places();
    AlphabetDistinct();
    var i :| 0 <= i < |Alphabet| && Alphabet[i] == c;
    DistinctIndex(Alphabet, i);
  }

  /** One character of `decrypt_vigenere` at position `i`: `?` and
      characters outside the alphabet pass through; an alphabet symbol is
      moved back by the place of key character `i mod |key|` (an empty key
      divides by zero), unless that key character is outside the alphabet,
      which leaves the symbol as it is. */
  function DecryptChar(alphabet: string, c: char, key: string, i: nat): (r: Result<char>)
    ensures r.Err? <==> c != '?' && c in alphabet && |key| == 0
    ensures r.Err? ==> r.failure == ZeroDivisionError
    ensures r.Ok? && c !in alphabet ==> r.value == c
    ensures r.Ok? && c != '?' && c in alphabet ==> r.value in alphabet
  {
    if c == '?' then Ok('?')
    else if c in alphabet then
      if |key| == 0 then Err(ZeroDivisionError)
      else
        var k := key[i % |key|];
        if k in alphabet then Ok(alphabet[(IndexOf(alphabet, c) - IndexOf(alphabet, k)) % |alphabet|])
        else Ok(c)
    else Ok(c)
  }

  /** The loop of `decrypt_vigenere` from absolute position `i` on; the
      first failing character ends it. */
  function DecryptFrom(alphabet: string, ct: string, key: string, i: nat): (r: Result<string>)
    ensures r.Ok? <==> forall j :: 0 <= j < |ct| ==> DecryptChar(alphabet, ct[j], key, i + j).Ok?
    ensures r.Ok? ==> |r.value| == |ct|
    ensures r.Ok? ==> forall j :: 0 <= j < |ct| ==> r.value[j] == DecryptChar(alphabet, ct[j], key, i + j).value
    ensures r.Err? ==> r.failure == ZeroDivisionError
  {
    if |ct| == 0 then Ok([])
    else
      var c := DecryptChar(alphabet, ct[0], key, i);
      var rest := DecryptFrom(alphabet, ct[1..], key, i + 1);
      assert forall j :: 1 <= j < |ct| ==> ct[1..][j - 1] == ct[j];
      if c.Err? then Err(c.failure)
      else if rest.Err? then Err(rest.failure)
      else Ok([c.value] + rest.value)
  }

  /** `decrypt_vigenere`, over the file's alphabet. */
  function Decrypt(ct: string, key: string): (r: Result<string>)
    ensures r.Ok? ==> |r.value| == |ct|
  {
    DecryptFrom(Alphabet, ct, key, 0)
  }

  /** Decryption fails exactly when the key is empty and the ciphertext
      holds an alphabet symbol, and then with a division by zero; with a
      key, characters outside the alphabet come through unchanged. */
  lemma DecryptErr(ct: string, key: string)
    ensures Decrypt(ct, key).Err? <==> |key| == 0 && exists j :: 0 <= j < |ct| && ct[j] in Alphabet
    ensures Decrypt(ct, key).Err? ==> Decrypt(ct, key).failure == ZeroDivisionError
    ensures Decrypt(ct, key).Ok? ==> forall j :: 0 <= j < |ct| && ct[j] !in Alphabet ==> Decrypt(ct, key).value[j] == ct[j]
  {
    AlphabetDistinct();
  }

  /** The encryption the decryption undoes: an alphabet symbol moves
      forward by the place of the key character at the same absolute
      position; anything else stays. */
  function EncryptChar(alphabet: string, c: char, key: string, i: nat): (e: char)
    requires |key| > 0
    ensures e in alphabet <==> c in alphabet
  {
    var k := key[i % |key|];
    if c in alphabet && k in alphabet
    then alphabet[(IndexOf(alphabet, c) + IndexOf(alphabet, k)) % |alphabet|]
    else c
  }

  function Encrypt(alphabet: string, pt: string, key: string): (r: string)
    requires |key| > 0
    ensures |r| == |pt|
    ensures forall i :: 0 <= i < |pt| ==> r[i] == EncryptChar(alphabet, pt[i], key, i)
  {
    seq(|pt|, i requires 0 <= i < |pt| => EncryptChar(alphabet, pt[i], key, i))
  }

  /** A symbol moved forward and back by the same key character is itself
      again. */
  lemma CharRoundTrip(alphabet: string, c: char, key: string, j: nat)
    requires |key| > 0 && Distinct(alphabet) && '?' !in alphabet
    ensures DecryptChar(alphabet, EncryptChar(alphabet, c, key, j), key, j) == Ok(c)
  {
    var k := key[j % |key|];
    if c in alphabet && k in alphabet {
      var q := IndexOf(alphabet, c);
      var e := (q + IndexOf(alphabet, k)) % |alphabet|;
      DistinctIndex(alphabet, e);
      ModUndo(q, IndexOf(alphabet, k), |alphabet|);
    }
  }

  /** With any non-empty key, decrypting the encryption gives the text
      back, when the alphabet has no repeats and no `?`. */
  lemma {:induction false} RoundTripWith(alphabet: string, pt: string, key: string)
    requires |key| > 0 && Distinct(alphabet) && '?' !in alphabet
    ensures DecryptFrom(alphabet, Encrypt(alphabet, pt, key), key, 0) == Ok(pt)
  {
    var ct := Encrypt(alphabet, pt, key);
    forall j | 0 <= j < |ct| ensures DecryptChar(alphabet, ct[j], key, j) == Ok(pt[j]) {
      CharRoundTrip(alphabet, pt[j], key, j);
    }
    assert DecryptFrom(alphabet, ct, key, 0).value == pt;
  }

  /** The same over the file's alphabet. */
  lemma RoundTrip(pt: string, key: string)
    requires |key| > 0
    ensures Decrypt(Encrypt(Alphabet, pt, key), key) == Ok(pt)
  {
    AlphabetDistinct();
    RoundTripWith(Alphabet, pt, key);
  }

  /** A key made only of the alphabet's first symbol shifts nothing. */
  lemma {:induction false} IdentityKeyWith(alphabet: string, ct: string, key: string)
    requires |key| > 0 && |alphabet| > 0 && forall k :: 0 <= k < |key| ==> key[k] == alphabet[0]
    ensures DecryptFrom(alphabet, ct, key, 0) == Ok(ct)
  {
    forall j | 0 <= j < |ct| ensures DecryptChar(alphabet, ct[j], key, j) == Ok(ct[j]) {
      if ct[j] != '?' && ct[j] in alphabet {
        var q := IndexOf(alphabet, ct[j]);
        assert IndexOf(alphabet, key[j % |key|]) == 0;
        assert (q - 0) % |alphabet| == q;
      }
    }
    assert DecryptFrom(alphabet, ct, key, 0).value == ct;
  }

  /** `D` is the first symbol of the file's alphabet: a key of `D`s
      returns the ciphertext unchanged. */
  lemma IdentityKey(ct: string, key: string)
    requires |key| > 0 && forall k :: 0 <= k < |key| ==> key[k] == 'D'
    ensures Decrypt(ct, key) == Ok(ct)
  {
    AlphabetDistinct();
    IdentityKeyWith(Alphabet, ct, key);
  }

  // ---------------------------------------------------------------------
  // Dictionary
  // ---------------------------------------------------------------------

  /** A dictionary line, stripped and upper-cased, is kept when all its
      characters are symbols of `alphabet` (the empty word included); the
      file filters with its own `Alphabet`. */
  predicate Admissible(alphabet: string, word: string)
  {
    forall c :: c in UpperStr(Strip(word)) ==> c in alphabet
  }

  /** The word one line contributes: none, or the line stripped and
      upper-cased. */
  function LineWord(alphabet: string, line: string): (r: seq<string>)
    ensures |r| <= 1
  {
    if Admissible(alphabet, line) then [UpperStr(Strip(line))] else []
  }

  /** `load_dictionary` over the file's lines. */
  function LoadDictionary(alphabet: string, lines: seq<string>): (words: seq<string>)
    ensures |words| <= |lines|
  {
    if |lines| == 0 then [] else LineWord(alphabet, lines[0]) + LoadDictionary(alphabet, lines[1..])
  }

  /** A word is in the dictionary exactly when some admissible line gives
      it. */
  lemma {:induction false} LoadDictionaryMembers(alphabet: string, lines: seq<string>, w: string)
    ensures w in LoadDictionary(alphabet, lines) <==> exists k :: 0 <= k < |lines| && w in LineWord(alphabet, lines[k])
  {
    if |lines| > 0 {
      var rest := lines[1..];
      LoadDictionaryMembers(alphabet, rest, w);
      assert LoadDictionary(alphabet, lines) == LineWord(alphabet, lines[0]) + LoadDictionary(alphabet, rest);
      if w in LoadDictionary(alphabet, rest) {
        var k :| 0 <= k < |rest| && w in LineWord(alphabet, rest[k]);
        assert lines[k + 1] == rest[k];
      }
      if exists k :: 0 <= k < |lines| && w in LineWord(alphabet, lines[k]) {
        var k :| 0 <= k < |lines| && w in LineWord(alphabet, lines[k]);
        if k > 0 {
          assert rest[k - 1] == lines[k];
        }
      }
    }
  }

  /** The line's word, when there is one, is its stripped, upper-cased
      text, and it is there exactly when that text uses alphabet symbols
      only. */
  lemma LineWordIff(alphabet: string, line: string, w: string)
    ensures w in LineWord(alphabet, line) <==> w == UpperStr(Strip(line)) && forall c :: c in w ==> c in alphabet
  {
  }

  // ---------------------------------------------------------------------
  // The attack
  // ---------------------------------------------------------------------

  /** The plaintext shows one of the two known phrases. */
  predicate Revealing(pt: string)
  {
    Contains(pt, "BERLINCLOCK") || Contains(pt, "EASTNORTH")
  }

  /** A key tried without success: it decrypts, and shows neither
      phrase. */
  predicate Miss(alphabet: string, ct: string, key: string)
  {
    var d := DecryptFrom(alphabet, ct, key, 0);
    d.Ok? && !Revealing(d.value)
  }

  /** `crack_vigenere`'s answer: the cracked plaintext and key, or none. */
  datatype Outcome = Cracked(plaintext: string, key: string) | NotCracked

  /** What a scan that stopped after `attempts` keys reports: every key
      before the last one tried missed; "not cracked" exactly when every
      key missed; a hit names the last key tried, with its revealing
      decryption; a failure is that key's decryption failing. */
  ghost predicate Reported(alphabet: string, ct: string, dictionary: seq<string>, r: Result<Outcome>, attempts: nat)
  {
    && attempts <= |dictionary|
    && (forall j :: 0 <= j < attempts - 1 ==> Miss(alphabet, ct, dictionary[j]))
    && (r == Ok(NotCracked) <==> attempts == |dictionary| && forall j :: 0 <= j < |dictionary| ==> Miss(alphabet, ct, dictionary[j]))
    && (r.Ok? && r.value.Cracked? ==>
      && 0 < attempts
      && r.value.key == dictionary[attempts - 1]
      && DecryptFrom(alphabet, ct, r.value.key, 0) == Ok(r.value.plaintext)
      && Revealing(r.value.plaintext))
    && (r.Err? ==> 0 < attempts && DecryptFrom(alphabet, ct, dictionary[attempts - 1], 0).Err? && r.failure == ZeroDivisionError)
  }

  /** `crack_vigenere` over a given alphabet: the keys are tried in
      dictionary order and the first revealing one is returned with the
      number of attempts; a key whose decryption raises ends the scan with
      that error. */
  method CrackWith(alphabet: string, ct: string, dictionary: seq<string>) returns (r: Result<Outcome>, attempts: nat)
    ensures Reported(alphabet, ct, dictionary, r, attempts)
  {
    attempts := 0;
    while attempts < |dictionary|
      invariant attempts <= |dictionary|
      invariant forall j :: 0 <= j < attempts ==> Miss(alphabet, ct, dictionary[j])
    {
      var key := dictionary[attempts];
      attempts := attempts + 1;
      var d := DecryptFrom(alphabet, ct, key, 0);
      if d.Err? {
        return Err(d.failure), attempts;
      }
      if Revealing(d.value) {
        return Ok(Cracked(d.value, key)), attempts;
      }
    }
    return Ok(NotCracked), attempts;
  }

  /** `crack_vigenere` over the file's alphabet. */
  method Crack(ct: string, dictionary: seq<string>) returns (r: Result<Outcome>, attempts: nat)
    ensures attempts <= |dictionary|
    ensures forall j :: 0 <= j < attempts - 1 ==> Miss(Alphabet, ct, dictionary[j])
    ensures r == Ok(NotCracked) <==> attempts == |dictionary| && forall j :: 0 <= j < |dictionary| ==> Miss(Alphabet, ct, dictionary[j])
    ensures r.Ok? && r.value.Cracked? ==>
      && 0 < attempts
      && r.value.key == dictionary[attempts - 1]
      && Decrypt(ct, r.value.key) == Ok(r.value.plaintext)
      && Revealing(r.value.plaintext)
    ensures r.Err? ==> 0 < attempts && Decrypt(ct, dictionary[attempts - 1]).Err? && r.failure == ZeroDivisionError
  {
    r, attempts := CrackWith(Alphabet, ct, dictionary);
  }
}
