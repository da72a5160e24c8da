/** The Gromark search (Gromark_transposition.py): the "formable word"
    test, the filter of one batch of primers for one keyword, and the
    fan-out over keywords and primer batches, modelled in submission
    order. */
module GromarkSearch {
  import opened Wrappers
  import opened Seqs
  import opened Text
  import opened Batching
  import opened Gromark
  import opened GromarkCipher

  // ---------------------------------------------------------------------
  // Formable words
  // ---------------------------------------------------------------------

  /** The loop of `can_form_word` over the rest of the text, `ptr` letters
      of the word matched so far: a text letter equal to the next word
      letter advances the pointer. */
  function Scan(w: string, t: string, ptr: nat): (r: nat)
    requires ptr <= |w|
    ensures ptr <= r <= |w|
    decreases |t|
  {
    if |t| == 0 then ptr
    else if ptr < |w| && t[0] == w[ptr] then Scan(w, t[1..], ptr + 1)
    else Scan(w, t[1..], ptr)
  }

  /** The greedy scan reaches the end of the word exactly when the rest of
      the word is a subsequence of the text. */
  lemma {:induction false} ScanSubsequence(w: string, t: string, ptr: nat)
    requires ptr <= |w|
    ensures Scan(w, t, ptr) == |w| <==> IsSubsequence(w[ptr..], t)
    decreases |t|
  {
    if |t| > 0 {
      if ptr < |w| && t[0] == w[ptr] {
        ScanSubsequence(w, t[1..], ptr + 1);
        assert w[ptr..][1..] == w[ptr + 1..];
      } else {
        ScanSubsequence(w, t[1..], ptr);
      }
    }
  }

  /** `can_form_word`: both sides upper-cased, the word read greedily from
      the text. */
  function CanFormWord(word: string, text: string): (b: bool)
    ensures |word| == 0 ==> b
  {
    Scan(UpperStr(word), UpperStr(text), 0) == |word|
  }

  /** A word can be formed exactly when its upper-cased letters appear in
      the upper-cased text at increasing positions, other letters
      interspersed. */
  lemma {:induction false} CanFormWordIff(word: string, text: string)
    ensures CanFormWord(word, text) <==> exists pos :: PickedAt(UpperStr(word), UpperStr(text), pos)
  {
    var w, t := UpperStr(word), UpperStr(text);
    ScanSubsequence(w, t, 0);
    assert w[0..] == w;
    if IsSubsequence(w, t) {
      SubsequencePositions(w, t);
    }
    if exists pos :: PickedAt(w, t, pos) {
      var pos :| PickedAt(w, t, pos);
      PositionsSubsequence(w, t, pos);
    }
  }

  lemma UpperConcatenate(text: string)
    requires text == "CONCATENATE"
    ensures UpperStr(text) == text
  {
    assert forall i :: 0 <= i < |text| ==> UpperStr(text)[i] == text[i];
  }

  lemma FormableCat()
    ensures CanFormWord("CAT", "CONCATENATE")
  {
    UpperConcatenate("CONCATENATE");
    assert UpperStr("CAT") == "CAT";
    assert Scan("CAT", "CONCATENATE", 0) == 3;
  }

  lemma FormableDog()
    ensures !CanFormWord("DOG", "CONCATENATE")
  {
    UpperConcatenate("CONCATENATE");
    assert UpperStr("DOG") == "DOG";
    assert Scan("DOG", "CONCATENATE", 0) == 0;
  }

  /** Two examples: CAT can be formed from CONCATENATE, DOG cannot (there
      is no D in it). */
  lemma FormableExamples()
    ensures CanFormWord("CAT", "CONCATENATE")
    ensures !CanFormWord("DOG", "CONCATENATE")
  {
    FormableCat();
    FormableDog();
  }

  /** `all(can_form_word(word, decrypted) for word in required_words)`. */
  predicate AllFormable(words: seq<string>, text: string)
  {
    forall k :: 0 <= k < |words| ==> CanFormWord(words[k], text)
  }

  // ---------------------------------------------------------------------
  // One batch of primers
  // ---------------------------------------------------------------------

  /** The dictionary `try_decrypt_batch` records for a hit. */
  datatype Record = Record(keyword: string, primer: string, runningKey: string, decrypted: string)

  /** One turn of the loop of `try_decrypt_batch`: the primer written in
      decimal grows a key as long as the ciphertext, the ciphertext is
      decrypted, and the result is kept when every required word can be
      formed.  An exception skips only this primer. */
  function Attempt(keyword: string, mixed: string, primer: int, ct: string, words: seq<string>, alphabet: string): Option<Record>
  {
    var p := IntToString(primer);
    match GenerateRunningKey(p, |ct|)
    case Err(_) => None
    case Ok(key) =>
      match DecryptGromark(ct, mixed, key, alphabet)
      case Err(_) => None
      case Ok(dec) => if AllFormable(words, dec) then Some(Record(keyword, p, key, dec)) else None
  }

  /** The hits of a list of primers, in primer order. */
  function Attempts(keyword: string, mixed: string, primers: seq<int>, ct: string, words: seq<string>, alphabet: string): (r: seq<Record>)
    ensures |r| <= |primers|
  {
    if |primers| == 0 then []
    else Kept(Attempt(keyword, mixed, primers[0], ct, words, alphabet)) + Attempts(keyword, mixed, primers[1..], ct, words, alphabet)
  }

  function Kept<T>(x: Option<T>): (r: seq<T>)
    ensures |r| <= 1
  {
    match x
    case None => []
    case Some(v) => [v]
  }

  /** `try_decrypt_batch`: the keyed alphabet is built before the loop, so
      its failure (an empty keyword) fails the whole batch. */
  function TryDecryptBatch(keyword: string, primers: seq<int>, ct: string, words: seq<string>, alphabet: string): (r: Result<seq<Record>>)
    ensures r.Err? <==> |keyword| == 0
    ensures r.Ok? ==> r.value == Attempts(keyword, KeyedAlphabet(keyword, alphabet).value, primers, ct, words, alphabet)
  {
    match KeyedAlphabet(keyword, alphabet)
    case Err(f) => Err(f)
    case Ok(mixed) => Ok(Attempts(keyword, mixed, primers, ct, words, alphabet))
  }

  /** A record is kept exactly when some primer of the list produces it. */
  lemma {:induction false} AttemptsMembers(keyword: string, mixed: string, primers: seq<int>, ct: string, words: seq<string>, alphabet: string, rec: Record)
    ensures rec in Attempts(keyword, mixed, primers, ct, words, alphabet) <==>
      exists k :: 0 <= k < |primers| && Attempt(keyword, mixed, primers[k], ct, words, alphabet) == Some(rec)
  {
    if |primers| > 0 {
      AttemptsMembers(keyword, mixed, primers[1..], ct, words, alphabet, rec);
      if exists k :: 0 <= k < |primers| && Attempt(keyword, mixed, primers[k], ct, words, alphabet) == Some(rec) {
        var k :| 0 <= k < |primers| && Attempt(keyword, mixed, primers[k], ct, words, alphabet) == Some(rec);
        if k > 0 {
          assert primers[1..][k - 1] == primers[k];
        }
      }
      if rec in Attempts(keyword, mixed, primers[1..], ct, words, alphabet) {
        var k :| 0 <= k < |primers| - 1 && Attempt(keyword, mixed, primers[1..][k], ct, words, alphabet) == Some(rec);
        assert primers[1..][k] == primers[k + 1];
      }
    }
  }

  /** Every kept record carries the keyword, the primer's decimal text,
      that primer's running key, and its decryption, in which every
      required word can be formed. This unfolds `Attempt` for one primer;
      with `AttemptsMembers`, `SearchSound` carries it to every record the
      search reports. */
  lemma {:induction false} AttemptSound(keyword: string, mixed: string, primer: int, ct: string, words: seq<string>, alphabet: string)
    requires Attempt(keyword, mixed, primer, ct, words, alphabet).Some?
    ensures var rec := Attempt(keyword, mixed, primer, ct, words, alphabet).value;
            && rec.keyword == keyword
            && rec.primer == IntToString(primer)
            && GenerateRunningKey(rec.primer, |ct|) == Ok(rec.runningKey)
            && DecryptGromark(ct, mixed, rec.runningKey, alphabet) == Ok(rec.decrypted)
            && |rec.decrypted| == |ct|
            && AllFormable(words, rec.decrypted)
  {
  }

  /** Splitting the primers splits the hits the same way. */
  lemma {:induction false} AttemptsAppend(keyword: string, mixed: string, a: seq<int>, b: seq<int>, ct: string, words: seq<string>, alphabet: string)
    ensures Attempts(keyword, mixed, a + b, ct, words, alphabet)
         == Attempts(keyword, mixed, a, ct, words, alphabet) + Attempts(keyword, mixed, b, ct, words, alphabet)
  {
    if |a| > 0 {
      assert (a + b)[0] == a[0];
      assert (a + b)[1..] == a[1..] + b;
      AttemptsAppend(keyword, mixed, a[1..], b, ct, words, alphabet);
    } else {
      assert a + b == b;
    }
  }

  /** The hits of the batches, concatenated, are the hits of all their
      primers. */
  lemma {:induction false} AttemptsFlatten(keyword: string, mixed: string, batches: seq<seq<int>>, ct: string, words: seq<string>, alphabet: string)
    ensures Flatten(seq(|batches|, j requires 0 <= j < |batches| => Attempts(keyword, mixed, batches[j], ct, words, alphabet)))
         == Attempts(keyword, mixed, Flatten(batches), ct, words, alphabet)
  {
    if |batches| > 0 {
      var hits := seq(|batches|, j requires 0 <= j < |batches| => Attempts(keyword, mixed, batches[j], ct, words, alphabet));
      var rest := seq(|batches| - 1, j requires 0 <= j < |batches| - 1 => Attempts(keyword, mixed, batches[1..][j], ct, words, alphabet));
      AttemptsFlatten(keyword, mixed, batches[1..], ct, words, alphabet);
      assert hits[1..] == rest;
      assert Flatten(batches) == batches[0] + Flatten(batches[1..]);
      AttemptsAppend(keyword, mixed, batches[0], Flatten(batches[1..]), ct, words, alphabet);
    }
  }

  // ---------------------------------------------------------------------
  // All keywords and batches
  // ---------------------------------------------------------------------

  /** What one submitted job contributes: its records, or nothing when it
      raised (the error is printed and the loop goes on). */
  function JobResult(keyword: string, batch: seq<int>, ct: string, words: seq<string>, alphabet: string): seq<Record>
  {
    match TryDecryptBatch(keyword, batch, ct, words, alphabet)
    case Err(_) => []
    case Ok(rs) => rs
  }

  /** The jobs in submission order: for each keyword, each batch. */
  function Jobs(keywords: seq<string>, batches: seq<seq<int>>, ct: string, words: seq<string>, alphabet: string): (r: seq<seq<Record>>)
    ensures |r| == |keywords| * |batches|
  {
    if |keywords| == 0 then []
    else
      seq(|batches|, j requires 0 <= j < |batches| => JobResult(keywords[0], batches[j], ct, words, alphabet))
      + Jobs(keywords[1..], batches, ct, words, alphabet)
  }

  /** `parallel_process_keywords` with the results gathered in submission
      order: the primer batches are made first (a zero batch size raises
      ValueError there), then every job's records are concatenated. */
  function ProcessKeywords(keywords: seq<string>, ct: string, words: seq<string>, alphabet: string, batchSize: int): (r: Result<seq<Record>>)
    ensures r.Err? <==> batchSize == 0
  {
    match BatchPrimers(10000, 99999, batchSize)
    case Err(f) => Err(f)
    case Ok(batches) => Ok(Flatten(Jobs(keywords, batches, ct, words, alphabet)))
  }

  /** The search of one keyword over the whole primer list, unbatched. */
  function KeywordHits(keyword: string, primers: seq<int>, ct: string, words: seq<string>, alphabet: string): seq<Record>
  {
    JobResult(keyword, primers, ct, words, alphabet)
  }

  /** The reference search: every keyword over every primer in one piece. */
  function Search(keywords: seq<string>, primers: seq<int>, ct: string, words: seq<string>, alphabet: string): seq<Record>
  {
    if |keywords| == 0 then []
    else KeywordHits(keywords[0], primers, ct, words, alphabet) + Search(keywords[1..], primers, ct, words, alphabet)
  }

  /** One keyword's jobs, concatenated, find what the unbatched search of
      its primers finds. */
  lemma {:induction false} KeywordJobsFlatten(keyword: string, batches: seq<seq<int>>, ct: string, words: seq<string>, alphabet: string)
    ensures Flatten(seq(|batches|, j requires 0 <= j < |batches| => JobResult(keyword, batches[j], ct, words, alphabet)))
         == KeywordHits(keyword, Flatten(batches), ct, words, alphabet)
  {
    var jobs := seq(|batches|, j requires 0 <= j < |batches| => JobResult(keyword, batches[j], ct, words, alphabet));
    if |keyword| == 0 {
      EmptyFlatten(jobs);
    } else {
      var mixed := KeyedAlphabet(keyword, alphabet).value;
      var hits := seq(|batches|, j requires 0 <= j < |batches| => Attempts(keyword, mixed, batches[j], ct, words, alphabet));
      forall j | 0 <= j < |batches| ensures jobs[j] == hits[j] {
        assert TryDecryptBatch(keyword, batches[j], ct, words, alphabet).Ok?;
      }
      assert jobs == hits;
      AttemptsFlatten(keyword, mixed, batches, ct, words, alphabet);
      assert TryDecryptBatch(keyword, Flatten(batches), ct, words, alphabet).Ok?;
    }
  }

  lemma {:induction false} EmptyFlatten<T>(xss: seq<seq<T>>)
    requires forall j :: 0 <= j < |xss| ==> xss[j] == []
    ensures Flatten(xss) == []
  {
    if |xss| > 0 {
      EmptyFlatten(xss[1..]);
    }
  }

  /** Batching does not change the result: with a positive batch size the
      jobs together find exactly what the unbatched search of every
      five-digit primer finds, keyword after keyword. */
  lemma {:induction false} BatchingInvariant(keywords: seq<string>, ct: string, words: seq<string>, alphabet: string, batchSize: int)
    requires batchSize > 0
    ensures ProcessKeywords(keywords, ct, words, alphabet, batchSize) == Ok(Search(keywords, IntRange(10000, 99999), ct, words, alphabet))
  {
    var batches := BatchPrimers(10000, 99999, batchSize).value;
    JobsFlatten(keywords, batches, ct, words, alphabet);
  }

  lemma {:induction false} JobsFlatten(keywords: seq<string>, batches: seq<seq<int>>, ct: string, words: seq<string>, alphabet: string)
    ensures Flatten(Jobs(keywords, batches, ct, words, alphabet)) == Search(keywords, Flatten(batches), ct, words, alphabet)
  {
    if |keywords| > 0 {
      var first := seq(|batches|, j requires 0 <= j < |batches| => JobResult(keywords[0], batches[j], ct, words, alphabet));
      var rest := Jobs(keywords[1..], batches, ct, words, alphabet);
      FlattenAppend(first, rest);
      KeywordJobsFlatten(keywords[0], batches, ct, words, alphabet);
      JobsFlatten(keywords[1..], batches, ct, words, alphabet);
    }
  }

  /** The jobs finish in any order; whatever the order, the records
      gathered are the same records, each as often. */
  lemma {:induction false} CompletionOrder(keywords: seq<string>, ct: string, words: seq<string>, alphabet: string, batchSize: int, completed: seq<seq<Record>>)
    requires batchSize != 0
    requires multiset(completed) == multiset(Jobs(keywords, BatchPrimers(10000, 99999, batchSize).value, ct, words, alphabet))
    ensures multiset(Flatten(completed)) == multiset(ProcessKeywords(keywords, ct, words, alphabet, batchSize).value)
  {
    FlattenPerm(completed, Jobs(keywords, BatchPrimers(10000, 99999, batchSize).value, ct, words, alphabet));
  }

  /** Every record found names one of the keywords and satisfies the
      search: its decryption, under that keyword's keyed alphabet and its
      primer's running key, lets every required word be formed. */
  lemma {:induction false} SearchSound(keywords: seq<string>, primers: seq<int>, ct: string, words: seq<string>, alphabet: string, rec: Record)
    requires rec in Search(keywords, primers, ct, words, alphabet)
    ensures rec.keyword in keywords && KeyedAlphabet(rec.keyword, alphabet).Ok?
    ensures exists k :: 0 <= k < |primers| && rec.primer == IntToString(primers[k])
    ensures GenerateRunningKey(rec.primer, |ct|) == Ok(rec.runningKey)
    ensures DecryptGromark(ct, KeyedAlphabet(rec.keyword, alphabet).value, rec.runningKey, alphabet) == Ok(rec.decrypted)
    ensures AllFormable(words, rec.decrypted)
  {
    if rec in KeywordHits(keywords[0], primers, ct, words, alphabet) {
      var mixed := KeyedAlphabet(keywords[0], alphabet).value;
      AttemptsMembers(keywords[0], mixed, primers, ct, words, alphabet, rec);
      var k :| 0 <= k < |primers| && Attempt(keywords[0], mixed, primers[k], ct, words, alphabet) == Some(rec);
      AttemptSound(keywords[0], mixed, primers[k], ct, words, alphabet);
    } else {
      SearchSound(keywords[1..], primers, ct, words, alphabet, rec);
    }
  }
}
