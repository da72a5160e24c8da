/** Generic facts about sequences used throughout the model: flattening,
    index ranges, picking elements by index, first and last occurrence,
    de-duplication and insertion sort, and the permutation lemmas that
    say which of these keep the multiset of elements. */
module Seqs {
  import opened Wrappers

  function Min(a: int, b: int): int
  {
    if a < b then a else b
  }

  function Max(a: int, b: int): int
  {
    if a < b then b else a
  }

  /** Concatenation of a sequence of sequences, in order. */
  function Flatten<T>(xss: seq<seq<T>>): seq<T>
  {
    if |xss| == 0 then [] else xss[0] + Flatten(xss[1..])
  }

  lemma {:induction false} FlattenAppend<T>(a: seq<seq<T>>, b: seq<seq<T>>)
    ensures Flatten(a + b) == Flatten(a) + Flatten(b)
  {
    if |a| == 0 {
      assert a + b == b;
    } else {
      assert (a + b)[1..] == a[1..] + b;
      FlattenAppend(a[1..], b);
    }
  }

  /** The indices 0 .. n-1 in increasing order (Python's `range(n)`). */
  function Range(n: nat): seq<nat>
  {
    seq(n, i => i)
  }

  lemma {:induction false} RangeSnoc(n: nat)
    ensures Range(n + 1) == Range(n) + [n]
  {
  }

  /** The elements of a sequence in reverse order. */
  function Reverse<T>(s: seq<T>): (r: seq<T>)
    ensures |r| == |s|
  {
    if |s| == 0 then [] else Reverse(s[1..]) + [s[0]]
  }

  lemma {:induction false} ReverseLength<T>(s: seq<T>)
    ensures |Reverse(s)| == |s|
  {
    if |s| > 0 {
      ReverseLength(s[1..]);
    }
  }

  lemma {:induction false} ReversePerm<T>(s: seq<T>)
    ensures multiset(Reverse(s)) == multiset(s)
  {
    if |s| > 0 {
      ReversePerm(s[1..]);
      assert s == [s[0]] + s[1..];
    }
  }

  /** Python's `range(n - 1, -1, -1)`. */
  function Descending(n: nat): (r: seq<nat>)
    ensures |r| == n
    ensures forall i :: 0 <= i < n ==> r[i] < n
  {
    seq(n, i requires 0 <= i < n => n - 1 - i)
  }

  lemma {:induction false} DescendingCons(n: nat)
    ensures Descending(n + 1) == [n] + Descending(n)
  {
  }

  lemma {:induction false} DescendingPerm(n: nat)
    ensures multiset(Descending(n)) == multiset(Range(n))
  {
    if n > 0 {
      DescendingPerm(n - 1);
      DescendingCons(n - 1);
      RangeSnoc(n - 1);
    }
  }

  lemma {:induction false} ReverseSnoc<T>(s: seq<T>, x: T)
    ensures Reverse(s + [x]) == [x] + Reverse(s)
  {
    if |s| > 0 {
      assert (s + [x])[1..] == s[1..] + [x];
      ReverseSnoc(s[1..], x);
    }
  }

  /** Position `i` of the reverse is position `|s| - 1 - i` of `s`. */
  lemma {:induction false} ReverseAt<T>(s: seq<T>, i: nat)
    requires i < |s|
    ensures |Reverse(s)| == |s|
    ensures Reverse(s)[i] == s[|s| - 1 - i]
  {
    ReverseLength(s);
    if i < |s| - 1 {
      ReverseLength(s[1..]);
      ReverseAt(s[1..], i);
    }
  }

  /** `s` has no repeated element. */
  ghost predicate Distinct<T>(s: seq<T>)
  {
    forall i, j :: 0 <= i < j < |s| ==> s[i] != s[j]
  }

  /** Python's `s.index(x)`: the first position holding `x`. */
  function IndexOf<T(==)>(s: seq<T>, x: T): (i: nat)
    requires x in s
    ensures i < |s| && s[i] == x
    ensures forall j :: 0 <= j < i ==> s[j] != x
  {
    if s[0] == x then 0 else 1 + IndexOf(s[1..], x)
  }

  /** The position a Python dict built by `{x: i for i, x in enumerate(s)}`
      stores for `x`: later entries overwrite earlier ones, so it is the
      last position holding `x`. */
  function LastIndexOf<T(==)>(s: seq<T>, x: T): (i: nat)
    requires x in s
    ensures i < |s| && s[i] == x
    ensures forall j :: i < j < |s| ==> s[j] != x
  {
    if s[|s| - 1] == x then |s| - 1 else LastIndexOf(s[..|s| - 1], x)
  }

  /** Without repeated elements the first and the last occurrence coincide,
      and the position of `s[i]` is `i`. */
  lemma {:induction false} DistinctIndex<T>(s: seq<T>, i: nat)
    requires Distinct(s) && i < |s|
    ensures IndexOf(s, s[i]) == i
    ensures LastIndexOf(s, s[i]) == i
  {
  }

  lemma {:induction false} DistinctCount<T>(s: seq<T>, x: T)
    requires Distinct(s)
    ensures multiset(s)[x] == if x in s then 1 else 0
  {
    if |s| > 0 {
      DistinctCount(s[1..], x);
      assert s == [s[0]] + s[1..];
    }
  }

  /** Two sequences without repeats holding the same elements are
      rearrangements of each other. */
  lemma {:induction false} DistinctPerm<T>(a: seq<T>, b: seq<T>)
    requires Distinct(a) && Distinct(b)
    requires forall x :: x in a <==> x in b
    ensures multiset(a) == multiset(b)
  {
    forall x ensures multiset(a)[x] == multiset(b)[x] {
      DistinctCount(a, x);
      DistinctCount(b, x);
    }
  }

  /** A rearrangement of a sequence without repeats has none either. */
  lemma {:induction false} PermDistinct<T>(a: seq<T>, b: seq<T>)
    requires Distinct(a) && multiset(a) == multiset(b)
    ensures Distinct(b)
  {
    forall i, j | 0 <= i < j < |b| ensures b[i] != b[j] {
      if b[i] == b[j] {
        var x := b[i];
        RemoveAt(b, j);
        assert x in b[..j];
        assert multiset(b[..j] + b[j + 1..])[x] >= 1;
        DistinctCount(a, x);
        assert false;
      }
    }
  }

  /** Python's `''.join(dict.fromkeys(s))`: every element once, in the
      order of its first occurrence. */
  function Dedup(s: seq<char>): (r: seq<char>)
    ensures Distinct(r)
    ensures forall x :: x in r <==> x in s
    ensures |r| <= |s|
  {
    if |s| == 0 then []
    else
      var d := Dedup(s[..|s| - 1]);
      var x := s[|s| - 1];
      assert forall y :: y in s <==> y in s[..|s| - 1] || y == x by {
        assert s == s[..|s| - 1] + [x];
      }
      if x in d then d else d + [x]
  }

  /** numpy's reading of index `i` into an array of length `n`: negative
      indices count from the end; anything outside `-n .. n - 1` raises
      `IndexError`. */
  function WrapIndex(n: nat, i: int): (r: Option<nat>)
    ensures r.Some? <==> -(n as int) <= i < n
    ensures r.Some? ==> r.value < n && r.value == if i < 0 then i + n else i
  {
    if i < -(n as int) || i >= n then None
    else if i < 0 then Some(i + n)
    else Some(i)
  }

  /** The elements of `s` at the positions `idx`, in the order of `idx`
      (numpy's fancy indexing `s[idx]`). */
  function Pick<T>(s: seq<T>, idx: seq<nat>): (r: seq<T>)
    requires forall k :: 0 <= k < |idx| ==> idx[k] < |s|
    ensures |r| == |idx|
    ensures forall k :: 0 <= k < |idx| ==> r[k] == s[idx[k]]
  {
    seq(|idx|, k requires 0 <= k < |idx| => s[idx[k]])
  }

  lemma {:induction false} PickRange<T>(s: seq<T>)
    ensures Pick(s, Range(|s|)) == s
  {
  }

  /** Picking at the descending indices reverses. */
  lemma {:induction false} PickDescending<T>(s: seq<T>)
    ensures Pick(s, Descending(|s|)) == Reverse(s)
  {
    ReverseLength(s);
    forall i | 0 <= i < |s| ensures Pick(s, Descending(|s|))[i] == Reverse(s)[i] {
      ReverseAt(s, i);
    }
  }

  lemma {:induction false} DescendingIsReverse(n: nat)
    ensures Descending(n) == Reverse(Range(n))
  {
    PickDescending(Range(n));
    assert Pick(Range(n), Descending(n)) == Descending(n);
  }

  lemma {:induction false} MultisetCancel<T>(m1: multiset<T>, m2: multiset<T>, x: T)
    requires m1 + multiset{x} == m2 + multiset{x}
    ensures m1 == m2
  {
    forall y ensures m1[y] == m2[y] {
      assert (m1 + multiset{x})[y] == (m2 + multiset{x})[y];
    }
  }

  /** Removing the element at position `k` takes one copy of it out of the
      multiset. */
  lemma {:induction false} RemoveAt<T>(b: seq<T>, k: nat)
    requires k < |b|
    ensures b == b[..k] + [b[k]] + b[k + 1..]
    ensures multiset(b) == multiset(b[..k] + b[k + 1..]) + multiset{b[k]}
  {
    assert b == b[..k] + [b[k]] + b[k + 1..];
  }

  lemma {:induction false} PickAppend<T>(s: seq<T>, a: seq<nat>, b: seq<nat>)
    requires forall k :: 0 <= k < |a| ==> a[k] < |s|
    requires forall k :: 0 <= k < |b| ==> b[k] < |s|
    ensures Pick(s, a + b) == Pick(s, a) + Pick(s, b)
  {
  }

  /** Taking out the first occurrence of `a[0]` from `b` leaves the
      multiset of `a[1..]`. */
  lemma {:induction false} RemoveFirstOf<T>(a: seq<T>, b: seq<T>, k: nat)
    requires |a| > 0 && multiset(a) == multiset(b)
    requires k < |b| && b[k] == a[0]
    ensures multiset(a[1..]) == multiset(b[..k] + b[k + 1..])
  {
    RemoveAt(b, k);
    assert a == [a[0]] + a[1..];
    MultisetCancel(multiset(a[1..]), multiset(b[..k] + b[k + 1..]), a[0]);
  }

  lemma {:induction false} MultisetMiddle<T>(p1: seq<T>, x: T, p2: seq<T>)
    ensures multiset(p1 + [x] + p2) == multiset(p1 + p2) + multiset{x}
  {
  }

  lemma {:induction false} PickRemoveAt<T>(s: seq<T>, b: seq<nat>, k: nat)
    requires forall j :: 0 <= j < |b| ==> b[j] < |s|
    requires k < |b|
    ensures multiset(Pick(s, b)) == multiset(Pick(s, b[..k] + b[k + 1..])) + multiset{s[b[k]]}
  {
    var b1, b2 := b[..k], b[k + 1..];
    RemoveAt(b, k);
    PickAppend(s, b1 + [b[k]], b2);
    PickAppend(s, b1, [b[k]]);
    PickAppend(s, b1, b2);
    MultisetMiddle(Pick(s, b1), s[b[k]], Pick(s, b2));
  }

  /** Picking by two index sequences that are permutations of each other
      gives permutations of each other. */
  lemma {:induction false} PickPerm<T>(s: seq<T>, a: seq<nat>, b: seq<nat>)
    requires forall k :: 0 <= k < |a| ==> a[k] < |s|
    requires forall k :: 0 <= k < |b| ==> b[k] < |s|
    requires multiset(a) == multiset(b)
    ensures multiset(Pick(s, a)) == multiset(Pick(s, b))
    decreases |a|
  {
    if |a| == 0 {
      assert |b| == |multiset(b)| == 0;
    } else {
      assert a[0] in multiset(b);
      var k := IndexOf(b, a[0]);
      RemoveFirstOf(a, b, k);
      PickRemoveAt(s, b, k);
      PickPerm(s, a[1..], b[..k] + b[k + 1..]);
      assert Pick(s, a) == [s[a[0]]] + Pick(s, a[1..]);
    }
  }

  lemma {:induction false} FlattenPerm<T>(a: seq<seq<T>>, b: seq<seq<T>>)
    requires multiset(a) == multiset(b)
    ensures multiset(Flatten(a)) == multiset(Flatten(b))
    decreases |a|
  {
    if |a| == 0 {
      assert |b| == |multiset(b)| == 0;
    } else {
      var x := a[0];
      assert x in multiset(b);
      var k := IndexOf(b, x);
      var b1, b2 := b[..k], b[k + 1..];
      RemoveFirstOf(a, b, k);
      FlattenPerm(a[1..], b1 + b2);
      FlattenRemoveAt(b, k);
      FlattenAppend(b1, b2);
    }
  }

  /** Flattening with block `k` taken out and put in front. */
  lemma {:induction false} FlattenRemoveAt<T>(b: seq<seq<T>>, k: nat)
    requires k < |b|
    ensures multiset(Flatten(b)) == multiset(b[k]) + multiset(Flatten(b[..k])) + multiset(Flatten(b[k + 1..]))
  {
    var b1, b2 := b[..k], b[k + 1..];
    assert b == b1 + ([b[k]] + b2);
    FlattenAppend(b1, [b[k]] + b2);
    assert Flatten([b[k]] + b2) == b[k] + Flatten(b2);
  }

  /** Blocks of equal multisets, position by position, flatten to equal
      multisets. */
  lemma {:induction false} FlattenPointwisePerm<T>(a: seq<seq<T>>, b: seq<seq<T>>)
    requires |a| == |b|
    requires forall k :: 0 <= k < |a| ==> multiset(a[k]) == multiset(b[k])
    ensures multiset(Flatten(a)) == multiset(Flatten(b))
  {
    if |a| > 0 {
      FlattenPointwisePerm(a[1..], b[1..]);
    }
  }

  lemma {:induction false} FlattenSnoc<T>(xss: seq<seq<T>>, x: seq<T>)
    ensures Flatten(xss + [x]) == Flatten(xss) + x
  {
    FlattenAppend(xss, [x]);
    assert Flatten([x]) == x + Flatten([]);
  }

  /** Flattening blocks glued position by position gives, as a multiset,
      the two flattenings together. */
  lemma {:induction false} FlattenZipPerm<T>(a: seq<seq<T>>, b: seq<seq<T>>)
    requires |a| == |b|
    ensures multiset(Flatten(seq(|a|, i requires 0 <= i < |a| => a[i] + b[i])))
         == multiset(Flatten(a)) + multiset(Flatten(b))
  {
    if |a| > 0 {
      FlattenZipPerm(a[1..], b[1..]);
      var z := seq(|a|, i requires 0 <= i < |a| => a[i] + b[i]);
      var z' := seq(|a| - 1, i requires 0 <= i < |a| - 1 => a[1..][i] + b[1..][i]);
      assert z[1..] == z';
      assert Flatten(z) == (a[0] + b[0]) + Flatten(z');
      calc {
        multiset(Flatten(z));
        multiset(a[0]) + multiset(b[0]) + multiset(Flatten(z'));
        multiset(a[0]) + multiset(Flatten(a[1..])) + (multiset(b[0]) + multiset(Flatten(b[1..])));
      }
    }
  }

  lemma {:induction false} FlattenReversePerm<T>(a: seq<seq<T>>)
    ensures multiset(Flatten(Reverse(a))) == multiset(Flatten(a))
  {
    ReversePerm(a);
    FlattenPerm(Reverse(a), a);
  }

  /** Elements in non-decreasing order of code point. */
  predicate Sorted(s: seq<char>)
  {
    forall i, j :: 0 <= i < j < |s| ==> s[i] <= s[j]
  }

  function Insert(x: char, s: seq<char>): (r: seq<char>)
    requires Sorted(s)
    ensures Sorted(r)
    ensures multiset(r) == multiset(s) + multiset{x}
    ensures |r| == |s| + 1
  {
    if |s| == 0 || x <= s[0] then
      ConsSorted(x, s);
      [x] + s
    else
      assert s == [s[0]] + s[1..];
      var t := Insert(x, s[1..]);
      forall k | 0 <= k < |t| ensures s[0] <= t[k] {
        assert t[k] in multiset(s[1..]) + multiset{x};
      }
      ConsSorted(s[0], t);
      [s[0]] + t
  }

  /** An element no larger than the head of a sorted sequence can go in
      front of it. */
  lemma {:induction false} ConsSorted(y: char, t: seq<char>)
    requires Sorted(t) && (|t| > 0 ==> y <= t[0])
    ensures Sorted([y] + t)
  {
  }

  /** Python's `sorted(s)` on a string: its characters by code point. */
  function Sort(s: seq<char>): (r: seq<char>)
    ensures Sorted(r)
    ensures multiset(r) == multiset(s)
  {
    if |s| == 0 then []
    else
      assert s == [s[0]] + s[1..];
      Insert(s[0], Sort(s[1..]))
  }

  /** A sorted rearrangement is unique: it is what `Sort` gives. */
  lemma {:induction false} SortUnique(s: seq<char>, t: seq<char>)
    requires Sorted(t) && multiset(t) == multiset(s)
    ensures Sort(s) == t
  {
    SortedUnique(Sort(s), t);
  }

  lemma {:induction false} SortedUnique(a: seq<char>, b: seq<char>)
    requires Sorted(a) && Sorted(b) && multiset(a) == multiset(b)
    ensures a == b
    decreases |a|
  {
    assert |multiset(a)| == |multiset(b)|;
    if |a| > 0 {
      SortedFirst(a, b);
      SortedFirst(b, a);
      var x := a[0];
      assert a == [x] + a[1..] && b == [x] + b[1..];
      calc {
        multiset(a[1..]) + multiset{x};
        multiset(a);
        multiset(b);
        multiset(b[1..]) + multiset{x};
      }
      MultisetCancel(multiset(a[1..]), multiset(b[1..]), x);
      SortedUnique(a[1..], b[1..]);
    }
  }

  /** The first element of a sorted sequence is at most every element of
      a rearrangement. */
  lemma {:induction false} SortedFirst(a: seq<char>, b: seq<char>)
    requires Sorted(a) && multiset(a) == multiset(b) && |b| > 0
    ensures |a| > 0 && a[0] <= b[0]
  {
    assert b[0] in multiset(a);
    var i :| 0 <= i < |a| && a[i] == b[0];
  }
}
