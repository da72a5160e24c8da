/** The Gromark search kernel (Gromark_transposition.py): the keyed mixed
    alphabet, the running key grown from a five-digit primer, decryption
    through the mixed alphabet, the cheap keyword pre-filter against known
    plaintext anchors, the "formable word" test, and the search over a
    batch of primers. */
module Gromark {
  import opened Wrappers
  import opened Seqs
  import opened Text
  import opened Columnar
  import opened Batching

  /** The default alphabet of every function in the file. */
  const Straight := "ABCDEFGHIJKLMNOPQRSTUVWXYZ"

  // ---------------------------------------------------------------------
  // Keyed alphabet
  // ---------------------------------------------------------------------

  /** The keyword upper-cased, each letter kept at its first occurrence
      (`''.join(dict.fromkeys(keyword.upper()))`). */
  function KeyLetters(keyword: string): (kw: string)
    ensures Distinct(kw)
    ensures |kw| == 0 <==> |keyword| == 0
    ensures forall x :: x in kw <==> x in UpperStr(keyword)
  {
    var u := UpperStr(keyword);
    assert |u| > 0 ==> u[0] in u;
    Dedup(u)
  }

  /** The symbols of `alphabet` the keyword does not use, in alphabet
      order. */
  function Remaining(alphabet: string, kw: string): (r: string)
    ensures |r| <= |alphabet|
  {
    if |alphabet| == 0 then []
    else (if alphabet[0] in kw then [] else [alphabet[0]]) + Remaining(alphabet[1..], kw)
  }

  /** Each unused symbol is kept as often as the alphabet holds it; the
      keyword's letters are dropped. */
  lemma {:induction false} RemainingCount(alphabet: string, kw: string, x: char)
    ensures multiset(Remaining(alphabet, kw))[x] == if x in kw then 0 else multiset(alphabet)[x]
  {
    if |alphabet| > 0 {
      RemainingCount(alphabet[1..], kw, x);
      assert alphabet == [alphabet[0]] + alphabet[1..];
    }
  }

  /** The text written into the transposition block: the keyword letters,
      then the rest of the alphabet. */
  function Base(keyword: string, alphabet: string): string
  {
    var kw := KeyLetters(keyword);
    kw + Remaining(alphabet, kw)
  }

  /** `order` in `create_keyed_alphabet`: the 1-based rank of keyword letter `j` among
      the sorted keyword letters. */
  function Rank(kw: string, j: nat): (k: nat)
    requires j < |kw|
    ensures 1 <= k <= |kw|
  {
    assert kw[j] in multiset(Sort(kw));
    IndexOf(Sort(kw), kw[j]) + 1
  }

  /** `col_order` in `create_keyed_alphabet`: for each letter of the sorted keyword, the
      column that holds it. */
  function ColumnOrder(kw: string): (order: seq<nat>)
    ensures |order| == |kw|
    ensures forall r :: 0 <= r < |kw| ==> order[r] < |kw| && kw[order[r]] == Sort(kw)[r]
  {
    var s := Sort(kw);
    assert |s| == |kw| by {
      assert |multiset(s)| == |multiset(kw)|;
    }
    seq(|kw|, r requires 0 <= r < |kw| => (assert s[r] in multiset(kw); IndexOf(kw, s[r])))
  }

  /** Sorting letters without repeats leaves none. */
  lemma {:induction false} SortDistinct(kw: string)
    requires Distinct(kw)
    ensures Distinct(Sort(kw)) && |Sort(kw)| == |kw|
  {
    PermDistinct(kw, Sort(kw));
    assert |multiset(Sort(kw))| == |multiset(kw)|;
  }

  lemma {:induction false} ColumnOrderDistinct(kw: string)
    requires Distinct(kw)
    ensures Distinct(ColumnOrder(kw))
  {
    var s := Sort(kw);
    var order := ColumnOrder(kw);
    SortDistinct(kw);
    forall i, j | 0 <= i < j < |order| ensures order[i] != order[j] {
      assert s[i] != s[j];
    }
  }

  lemma {:induction false} ColumnOrderCovers(kw: string, x: nat)
    requires Distinct(kw) && x < |kw|
    ensures x in ColumnOrder(kw)
  {
    var s := Sort(kw);
    SortDistinct(kw);
    assert kw[x] in multiset(s);
    var r := IndexOf(s, kw[x]);
    DistinctIndex(kw, x);
    assert ColumnOrder(kw)[r] == x;
  }

  /** For keyword letters without repeats, `col_order` is what sorting the
      column numbers by rank gives: the columns by increasing rank ... */
  lemma {:induction false} ColumnOrderRanks(kw: string)
    requires Distinct(kw)
    ensures forall r :: 0 <= r < |kw| ==> Rank(kw, ColumnOrder(kw)[r]) == r + 1
  {
    SortDistinct(kw);
    forall r | 0 <= r < |kw| ensures Rank(kw, ColumnOrder(kw)[r]) == r + 1 {
      DistinctIndex(Sort(kw), r);
    }
  }

  /** ... each column once. */
  lemma {:induction false} ColumnOrderPerm(kw: string)
    requires Distinct(kw)
    ensures multiset(ColumnOrder(kw)) == multiset(Range(|kw|))
  {
    var order := ColumnOrder(kw);
    ColumnOrderDistinct(kw);
    forall x ensures x in order <==> x in Range(|kw|) {
      if x in Range(|kw|) {
        ColumnOrderCovers(kw, x);
      }
      if x in order {
        var r :| 0 <= r < |order| && order[r] == x;
        assert Range(|kw|)[x] == x;
      }
    }
    DistinctPerm(order, Range(|kw|));
  }

  /** `create_keyed_alphabet`: the keyword letters followed by the unused
      alphabet symbols are written row by row under the keyword and read
      off column by column, the columns taken in alphabetical order of
      their keyword letters; the empty cells of the last row are skipped.
      An empty keyword gives no columns, and the row count divides by
      zero. */
  function KeyedAlphabet(keyword: string, alphabet: string): (r: Result<string>)
    ensures r.Err? <==> |keyword| == 0
    ensures r.Err? ==> r.failure == ZeroDivisionError
    ensures r.Ok? ==> multiset(r.value) == multiset(Base(keyword, alphabet))
    ensures r.Ok? ==> |r.value| == |Base(keyword, alphabet)| && r.value[0] == Sort(KeyLetters(keyword))[0]
  {
    var kw := KeyLetters(keyword);
    if |kw| == 0 then Err(ZeroDivisionError)
    else
      var base := Base(keyword, alphabet);
      var order := ColumnOrder(kw);
      ColumnOrderPerm(kw);
      ReadColumnsPerm(base, |kw|, order);
      assert |multiset(ReadColumns(base, |kw|, order))| == |multiset(base)|;
      FirstColumnFirst(base, |kw|, order);
      Ok(ReadColumns(base, |kw|, order))
  }

  /** The reading starts at the top of the first column chosen. */
  lemma {:induction false} FirstColumnFirst(s: string, w: nat, order: seq<nat>)
    requires 0 < |order| && order[0] < w <= |s|
    ensures |ReadColumns(s, w, order)| > 0 && ReadColumns(s, w, order)[0] == s[order[0]]
  {
    var cs := Columns(s, w, order);
    assert cs[0] == [s[order[0]]] + Column(s, w, order[0] + w);
    assert ReadColumns(s, w, order) == cs[0] + Flatten(cs[1..]);
  }

  /** When the alphabet has no repeated symbol and holds every keyword
      letter, the keyed alphabet is a rearrangement of it. */
  lemma {:induction false} KeyedAlphabetPerm(keyword: string, alphabet: string)
    requires |keyword| > 0 && Distinct(alphabet)
    requires forall i :: 0 <= i < |keyword| ==> Upper(keyword[i]) in alphabet
    ensures multiset(KeyedAlphabet(keyword, alphabet).value) == multiset(alphabet)
    ensures |KeyedAlphabet(keyword, alphabet).value| == |alphabet|
    ensures Distinct(KeyedAlphabet(keyword, alphabet).value)
  {
    var kw := KeyLetters(keyword);
    var rest := Remaining(alphabet, kw);
    forall x ensures multiset(kw + rest)[x] == multiset(alphabet)[x] {
      DistinctCount(kw, x);
      DistinctCount(alphabet, x);
      RemainingCount(alphabet, kw, x);
      if x in kw {
        var u := UpperStr(keyword);
        assert x in u;
        var i :| 0 <= i < |u| && u[i] == x;
        assert x in alphabet;
      }
    }
    assert multiset(kw + rest) == multiset(alphabet);
    var r := KeyedAlphabet(keyword, alphabet).value;
    assert |multiset(r)| == |multiset(alphabet)|;
    PermDistinct(alphabet, r);
  }

  /** Deduplicating letters that do not repeat changes nothing. */
  lemma {:induction false} DedupDistinct(s: string)
    requires Distinct(s)
    ensures Dedup(s) == s
  {
    if |s| > 0 {
      var p := s[..|s| - 1];
      DedupDistinct(p);
      assert s[|s| - 1] !in p;
      assert p + [s[|s| - 1]] == s;
    }
  }

  lemma {:induction false} RemainingAppend(a: string, b: string, kw: string)
    ensures Remaining(a + b, kw) == Remaining(a, kw) + Remaining(b, kw)
  {
    if |a| > 0 {
      RemainingAppend(a[1..], b, kw);
      assert (a + b)[1..] == a[1..] + b;
    } else {
      assert a + b == b;
    }
  }

  // ---------------------------------------------------------------------
  // The test case of `run`: keyword GRONSFELD
  // ---------------------------------------------------------------------

  /** `order[r]` is the position in `kw` of the `r`-th letter of `sorted`. */
  ghost predicate ReadsInOrder(kw: string, sorted: string, order: seq<nat>)
  {
    |order| == |kw| == |sorted| &&
    forall r :: 0 <= r < |kw| ==> order[r] < |kw| && kw[order[r]] == sorted[r]
  }

  /** For keyword letters without repeats the column order is the only
      sequence of positions that reads the keyword in sorted order. */
  lemma {:induction false} ColumnOrderOf(kw: string, sorted: string, order: seq<nat>)
    requires Distinct(kw) && Sort(kw) == sorted && ReadsInOrder(kw, sorted, order)
    ensures ColumnOrder(kw) == order
  {
    var o := ColumnOrder(kw);
    forall r | 0 <= r < |kw| ensures o[r] == order[r] {
      assert kw[o[r]] == kw[order[r]];
    }
  }

  lemma {:induction false} RemainingJoin(a1: string, a2: string, a3: string, a4: string, a5: string, a6: string, a7: string, a8: string, a9: string, kw: string)
    ensures Remaining(a1 + a2 + a3 + a4 + a5 + a6 + a7 + a8 + a9, kw)
         == Remaining(a1, kw) + Remaining(a2, kw) + Remaining(a3, kw) + Remaining(a4, kw) + Remaining(a5, kw) + Remaining(a6, kw) + Remaining(a7, kw) + Remaining(a8, kw) + Remaining(a9, kw)
  {
    RemainingAppend(a1 + a2 + a3 + a4 + a5 + a6 + a7 + a8, a9, kw);
    RemainingAppend(a1 + a2 + a3 + a4 + a5 + a6 + a7, a8, kw);
    RemainingAppend(a1 + a2 + a3 + a4 + a5 + a6, a7, kw);
    RemainingAppend(a1 + a2 + a3 + a4 + a5, a6, kw);
    RemainingAppend(a1 + a2 + a3 + a4, a5, kw);
    RemainingAppend(a1 + a2 + a3, a4, kw);
    RemainingAppend(a1 + a2, a3, kw);
    RemainingAppend(a1, a2, kw);
  }

  /** `Remaining` over three symbols, one test per symbol. */
  lemma RemainingThree(a: string, kw: string, x: char, y: char, z: char)
    requires a == [x, y, z]
    ensures Remaining(a, kw)
         == (if x in kw then [] else [x]) + (if y in kw then [] else [y]) + (if z in kw then [] else [z])
  {
    assert a[1..] == [y, z] && a[1..][1..] == [z] && a[1..][1..][1..] == [];
    assert Remaining([z], kw) == (if z in kw then [] else [z]) + Remaining([], kw);
    assert Remaining([y, z], kw) == (if y in kw then [] else [y]) + Remaining([z], kw);
  }

  lemma GronsfeldRemaining1()
    ensures Remaining("ABC", "GRONSFELD") == "ABC"
  {
    RemainingThree("ABC", "GRONSFELD", 'A', 'B', 'C');
  }

  lemma GronsfeldRemaining2()
    ensures Remaining("DEF", "GRONSFELD") == ""
  {
    RemainingThree("DEF", "GRONSFELD", 'D', 'E', 'F');
    assert "GRONSFELD"[8] == 'D' && "GRONSFELD"[6] == 'E' && "GRONSFELD"[5] == 'F';
  }

  lemma GronsfeldRemaining3()
    ensures Remaining("GHI", "GRONSFELD") == "HI"
  {
    RemainingThree("GHI", "GRONSFELD", 'G', 'H', 'I');
    assert "GRONSFELD"[0] == 'G';
  }

  lemma GronsfeldRemaining4()
    ensures Remaining("JKL", "GRONSFELD") == "JK"
  {
    RemainingThree("JKL", "GRONSFELD", 'J', 'K', 'L');
    assert "GRONSFELD"[7] == 'L';
  }

  lemma GronsfeldRemaining5()
    ensures Remaining("MNO", "GRONSFELD") == "M"
  {
    RemainingThree("MNO", "GRONSFELD", 'M', 'N', 'O');
    assert "GRONSFELD"[3] == 'N' && "GRONSFELD"[2] == 'O';
  }

  lemma GronsfeldRemaining6()
    ensures Remaining("PQR", "GRONSFELD") == "PQ"
  {
    RemainingThree("PQR", "GRONSFELD", 'P', 'Q', 'R');
    assert "GRONSFELD"[1] == 'R';
  }

  lemma GronsfeldRemaining7()
    ensures Remaining("STU", "GRONSFELD") == "TU"
  {
    RemainingThree("STU", "GRONSFELD", 'S', 'T', 'U');
    assert "GRONSFELD"[4] == 'S';
  }

  lemma GronsfeldRemaining8()
    ensures Remaining("VWX", "GRONSFELD") == "VWX"
  {
    RemainingThree("VWX", "GRONSFELD", 'V', 'W', 'X');
  }

  lemma GronsfeldRemaining9()
    ensures Remaining("YZ", "GRONSFELD") == "YZ"
  {
  }

  lemma StraightPieces(a: string)
    requires a == Straight
    ensures a == "ABC" + "DEF" + "GHI" + "JKL" + "MNO" + "PQR" + "STU" + "VWX" + "YZ"
  {
    var t := "ABC" + "DEF" + "GHI" + "JKL" + "MNO" + "PQR" + "STU" + "VWX" + "YZ";
    assert |t| == 26;
    forall i | 0 <= i < 26 ensures a[i] == t[i] { }
  }

  lemma RestPieces(r: string)
    requires r == "ABC" + "" + "HI" + "JK" + "M" + "PQ" + "TU" + "VWX" + "YZ"
    ensures r == "ABCHIJKMPQTUVWXYZ"
  {
    var t := "ABCHIJKMPQTUVWXYZ";
    assert |r| == 17;
    forall i | 0 <= i < 17 ensures r[i] == t[i] { }
  }

  /** The seventeen letters GRONSFELD leaves unused, in alphabet order. */
  lemma GronsfeldRemaining()
    ensures Remaining(Straight, "GRONSFELD") == "ABCHIJKMPQTUVWXYZ"
  {
    GronsfeldRemaining1();
    GronsfeldRemaining2();
    GronsfeldRemaining3();
    GronsfeldRemaining4();
    GronsfeldRemaining5();
    GronsfeldRemaining6();
    GronsfeldRemaining7();
    GronsfeldRemaining8();
    GronsfeldRemaining9();
    StraightPieces(Straight);
    RemainingJoin("ABC", "DEF", "GHI", "JKL", "MNO", "PQR", "STU", "VWX", "YZ", "GRONSFELD");
    RestPieces("ABC" + "" + "HI" + "JK" + "M" + "PQ" + "TU" + "VWX" + "YZ");
  }

  lemma GronsfeldDistinct(kw: string)
    requires kw == "GRONSFELD"
    ensures Distinct(kw)
  {
  }

  lemma GronsfeldKeyLetters(kw: string)
    requires kw == "GRONSFELD"
    ensures KeyLetters(kw) == kw
  {
    assert UpperStr(kw) == kw by {
      assert forall i :: 0 <= i < |kw| ==> UpperStr(kw)[i] == kw[i];
    }
    GronsfeldDistinct(kw);
    DedupDistinct(kw);
  }

  lemma BasePieces(b: string)
    requires b == "GRONSFELD" + "ABCHIJKMPQTUVWXYZ"
    ensures b == "GRONSFELDABCHIJKMPQTUVWXYZ"
  {
    var t := "GRONSFELDABCHIJKMPQTUVWXYZ";
    assert |b| == 26;
    forall i | 0 <= i < 26 ensures b[i] == t[i] { }
  }

  /** The block text: the keyword, then the unused letters. */
  lemma GronsfeldBase()
    ensures KeyLetters("GRONSFELD") == "GRONSFELD"
    ensures Base("GRONSFELD", Straight) == "GRONSFELDABCHIJKMPQTUVWXYZ"
  {
    GronsfeldKeyLetters("GRONSFELD");
    GronsfeldRemaining();
    BasePieces(Base("GRONSFELD", Straight));
  }

  lemma SortedLetters(sorted: string)
    requires sorted == "DEFGLNORS"
    ensures Sorted(sorted) && Distinct(sorted)
  {
  }

  lemma GronsfeldSort(kw: string, sorted: string)
    requires kw == "GRONSFELD" && sorted == "DEFGLNORS"
    ensures Sort(kw) == sorted
  {
    GronsfeldDistinct(kw);
    SortedLetters(sorted);
    assert forall x :: x in kw <==> x in sorted;
    DistinctPerm(kw, sorted);
    SortUnique(kw, sorted);
  }

  lemma GronsfeldReadsInOrder(kw: string, sorted: string, order: seq<nat>)
    requires kw == "GRONSFELD" && sorted == "DEFGLNORS" && order == [8, 6, 5, 0, 7, 3, 2, 1, 4]
    ensures ReadsInOrder(kw, sorted, order)
  {
  }

  const GronsfeldOrder: seq<nat> := [8, 6, 5, 0, 7, 3, 2, 1, 4]

  lemma GronsfeldOrderOf(kw: string, sorted: string, order: seq<nat>)
    requires kw == "GRONSFELD" && sorted == "DEFGLNORS" && order == [8, 6, 5, 0, 7, 3, 2, 1, 4]
    ensures ColumnOrder(kw) == order
  {
    GronsfeldSort(kw, sorted);
    GronsfeldDistinct(kw);
    GronsfeldReadsInOrder(kw, sorted, order);
    ColumnOrderOf(kw, sorted, order);
  }

  /** The columns are read in the order of the letters D, E, F, G, L, N,
      O, R, S, which stand at positions 8, 6, 5, 0, 7, 3, 2, 1, 4. */
  lemma GronsfeldColumnOrder()
    ensures ColumnOrder("GRONSFELD") == GronsfeldOrder
  {
    GronsfeldOrderOf("GRONSFELD", "DEFGLNORS", GronsfeldOrder);
  }

  lemma GronsfeldColumns1()
    ensures Column("GRONSFELDABCHIJKMPQTUVWXYZ", 9, 8) == "DP"
    ensures Column("GRONSFELDABCHIJKMPQTUVWXYZ", 9, 6) == "EKY"
    ensures Column("GRONSFELDABCHIJKMPQTUVWXYZ", 9, 5) == "FJX"
  {
  }

  lemma GronsfeldColumns2()
    ensures Column("GRONSFELDABCHIJKMPQTUVWXYZ", 9, 0) == "GAQ"
    ensures Column("GRONSFELDABCHIJKMPQTUVWXYZ", 9, 7) == "LMZ"
    ensures Column("GRONSFELDABCHIJKMPQTUVWXYZ", 9, 3) == "NHV"
  {
  }

  lemma GronsfeldColumns3()
    ensures Column("GRONSFELDABCHIJKMPQTUVWXYZ", 9, 2) == "OCU"
    ensures Column("GRONSFELDABCHIJKMPQTUVWXYZ", 9, 1) == "RBT"
    ensures Column("GRONSFELDABCHIJKMPQTUVWXYZ", 9, 4) == "SIW"
  {
  }

  lemma GronsfeldColumns(s: string, order: seq<nat>, cs: seq<string>)
    requires s == "GRONSFELDABCHIJKMPQTUVWXYZ" && order == [8, 6, 5, 0, 7, 3, 2, 1, 4]
    requires cs == ["DP", "EKY", "FJX", "GAQ", "LMZ", "NHV", "OCU", "RBT", "SIW"]
    ensures Columns(s, 9, order) == cs
  {
    GronsfeldColumns1();
    GronsfeldColumns2();
    GronsfeldColumns3();
    var xs := Columns(s, 9, order);
    forall i | 0 <= i < 9 ensures xs[i] == cs[i] {
      assert xs[i] == Column(s, 9, order[i]);
    }
  }

  lemma Flatten3<T>(a: seq<T>, b: seq<T>, c: seq<T>)
    ensures Flatten([a, b, c]) == a + b + c
  {
    assert [a, b, c][1..] == [b, c];
    assert [b, c][1..] == [c];
    assert [c][1..] == [];
    assert Flatten([c]) == c;
    assert Flatten([b, c]) == b + c;
  }

  lemma Flatten9<T>(a: seq<T>, b: seq<T>, c: seq<T>, d: seq<T>, e: seq<T>, f: seq<T>, g: seq<T>, h: seq<T>, i: seq<T>)
    ensures Flatten([a, b, c, d, e, f, g, h, i]) == a + b + c + d + e + f + g + h + i
  {
    assert [a, b, c, d, e, f, g, h, i] == [a, b, c] + [d, e, f] + [g, h, i];
    FlattenAppend([a, b, c] + [d, e, f], [g, h, i]);
    FlattenAppend([a, b, c], [d, e, f]);
    Flatten3(a, b, c);
    Flatten3(d, e, f);
    Flatten3(g, h, i);
  }

  lemma MixedPieces(r: string)
    requires r == "DP" + "EKY" + "FJX" + "GAQ" + "LMZ" + "NHV" + "OCU" + "RBT" + "SIW"
    ensures r == "DPEKYFJXGAQLMZNHVOCURBTSIW"
  {
    var t := "DPEKYFJXGAQLMZNHVOCURBTSIW";
    assert |r| == 26;
    forall i | 0 <= i < 26 ensures r[i] == t[i] { }
  }

  lemma GronsfeldRead(base: string, order: seq<nat>, cs: seq<string>)
    requires base == "GRONSFELDABCHIJKMPQTUVWXYZ" && order == [8, 6, 5, 0, 7, 3, 2, 1, 4]
    requires cs == ["DP", "EKY", "FJX", "GAQ", "LMZ", "NHV", "OCU", "RBT", "SIW"]
    ensures ReadColumns(base, 9, order) == "DPEKYFJXGAQLMZNHVOCURBTSIW"
  {
    GronsfeldColumns(base, order, cs);
    Flatten9("DP", "EKY", "FJX", "GAQ", "LMZ", "NHV", "OCU", "RBT", "SIW");
    MixedPieces(Flatten(cs));
  }

  /** Reading the three-row block column by column in that order. */
  lemma GronsfeldReadColumns()
    ensures ReadColumns("GRONSFELDABCHIJKMPQTUVWXYZ", 9, GronsfeldOrder) == "DPEKYFJXGAQLMZNHVOCURBTSIW"
  {
    GronsfeldRead("GRONSFELDABCHIJKMPQTUVWXYZ", GronsfeldOrder,
                  ["DP", "EKY", "FJX", "GAQ", "LMZ", "NHV", "OCU", "RBT", "SIW"]);
  }

  /** The keyword GRONSFELD over the straight alphabet gives the mixed
      alphabet DPEKYFJXGAQLMZNHVOCURBTSIW: the nine keyword letters and the
      seventeen others fill three rows of nine, and the columns are read in
      the order D, E, F, G, L, N, O, R, S of their keyword letters. */
  lemma GronsfeldAlphabet()
    ensures KeyedAlphabet("GRONSFELD", Straight) == Ok("DPEKYFJXGAQLMZNHVOCURBTSIW")
  {
    GronsfeldBase();
    GronsfeldColumnOrder();
    GronsfeldReadColumns();
  }
}
