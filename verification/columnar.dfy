/** Columnar transposition: text written row by row into `w` columns and
    read back column by column in a chosen order.  The keyed alphabet of
    the Gromark solver and both letter-matrix tools read their grids this
    way. */
module Columnar {
  import opened Seqs

  /** Column `c` of `s` written row by row `w` cells wide:
      `s[c], s[c + w], s[c + 2w], ...` as far as `s` reaches. */
  function Column<T>(s: seq<T>, w: nat, c: nat): seq<T>
    decreases |s| - c
  {
    if w == 0 || c >= |s| then [] else [s[c]] + Column(s, w, c + w)
  }

  /** The columns named by `order`, in that order. */
  function Columns<T>(s: seq<T>, w: nat, order: seq<nat>): (cs: seq<seq<T>>)
    ensures |cs| == |order|
  {
    seq(|order|, i requires 0 <= i < |order| => Column(s, w, order[i]))
  }

  /** The columns named by `order` read one after another. */
  function ReadColumns<T>(s: seq<T>, w: nat, order: seq<nat>): seq<T>
  {
    Flatten(Columns(s, w, order))
  }

  /** `s` after its first row of `w` cells (nothing when `s` is shorter). */
  function DropRow<T>(s: seq<T>, w: nat): (r: seq<T>)
    ensures |r| < |s| || |s| == 0
  {
    if w == 0 then [] else if |s| >= w then s[w..] else []
  }

  /** Going one row down is the same column of the text without its first
      row. */
  lemma {:induction false} ColumnShift<T>(s: seq<T>, w: nat, c: nat)
    requires w > 0 && |s| >= w
    ensures Column(s, w, c + w) == Column(s[w..], w, c)
    decreases |s| - c
  {
    if c + w < |s| {
      ColumnShift(s, w, c + w);
    }
  }

  /** A column of the first `w` columns is its cell in the first row
      followed by the same column of the remaining rows. */
  lemma {:induction false} ColumnFirst<T>(s: seq<T>, w: nat, c: nat)
    requires c < w
    ensures Column(s, w, c)
         == (if c < |s| then [s[c]] else []) + Column(DropRow(s, w), w, c)
  {
    if |s| >= w {
      ColumnShift(s, w, c);
    }
  }

  /** The first cells of the columns of `s`, one list per column. */
  function FirstRow<T>(s: seq<T>, w: nat): (h: seq<seq<T>>)
    ensures |h| == w
  {
    seq(w, c requires 0 <= c < w => if c < |s| then [s[c]] else [])
  }

  /** The first cells of the first `n` columns, read left to right, are
      the first `n` elements. */
  lemma {:induction false} FirstCells<T>(s: seq<T>, n: nat)
    ensures Flatten(FirstRow(s, n)) == s[..if n < |s| then n else |s|]
  {
    if n > 0 {
      FirstCells(s, n - 1);
      var f := FirstRow(s, n);
      assert f == FirstRow(s, n - 1) + [f[n - 1]];
      FlattenSnoc(FirstRow(s, n - 1), f[n - 1]);
    }
  }

  lemma {:induction false} ColumnsOfEmpty<T>(s: seq<T>, w: nat, order: seq<nat>)
    requires |s| == 0
    ensures ReadColumns(s, w, order) == []
  {
    if |order| > 0 {
      ColumnsOfEmpty(s, w, order[1..]);
      assert Columns(s, w, order)[1..] == Columns(s, w, order[1..]);
    }
  }

  /** Each of the `w` columns splits into its first cell and the rest. */
  lemma {:induction false} ColumnsSplit<T>(s: seq<T>, w: nat)
    ensures Columns(s, w, Range(w))
         == seq(w, c requires 0 <= c < w => FirstRow(s, w)[c] + Columns(DropRow(s, w), w, Range(w))[c])
  {
    forall c | 0 <= c < w
      ensures Columns(s, w, Range(w))[c] == FirstRow(s, w)[c] + Columns(DropRow(s, w), w, Range(w))[c]
    {
      ColumnFirst(s, w, c);
    }
  }

  /** Reading all columns takes the first row and the columns of the
      remaining rows. */
  lemma {:induction false} AllColumnsSplit<T>(s: seq<T>, w: nat)
    ensures multiset(ReadColumns(s, w, Range(w)))
         == multiset(Flatten(FirstRow(s, w))) + multiset(ReadColumns(DropRow(s, w), w, Range(w)))
  {
    var first, later := FirstRow(s, w), Columns(DropRow(s, w), w, Range(w));
    ColumnsSplit(s, w);
    assert Columns(s, w, Range(w)) == seq(|first|, c requires 0 <= c < |first| => first[c] + later[c]);
    FlattenZipPerm(first, later);
  }

  /** Reading all `w` columns left to right rearranges the text: nothing is
      lost and nothing is repeated. */
  lemma {:induction false} AllColumnsPerm<T>(s: seq<T>, w: nat)
    requires w > 0
    ensures multiset(ReadColumns(s, w, Range(w))) == multiset(s)
    decreases |s|
  {
    if |s| == 0 {
      ColumnsOfEmpty(s, w, Range(w));
    } else {
      var rest := DropRow(s, w);
      var m := if w < |s| then w else |s|;
      assert s == s[..m] + rest by {
        if |s| >= w {
          assert rest == s[w..];
        } else {
          assert rest == [];
        }
      }
      calc {
        multiset(ReadColumns(s, w, Range(w)));
        { AllColumnsSplit(s, w); }
        multiset(Flatten(FirstRow(s, w))) + multiset(ReadColumns(rest, w, Range(w)));
        { FirstCells(s, w); AllColumnsPerm(rest, w); }
        multiset(s[..m]) + multiset(rest);
      }
    }
  }

  /** Columns chosen by `order` are the full column list picked at
      `order`. */
  lemma {:induction false} ColumnsPick<T>(s: seq<T>, w: nat, order: seq<nat>)
    requires forall k :: 0 <= k < |order| ==> order[k] < w
    ensures Columns(s, w, order) == Pick(Columns(s, w, Range(w)), order)
  {
  }

  /** Reading the columns in any order that names each of the `w` columns
      once rearranges the text. */
  lemma {:induction false} ReadColumnsPerm<T>(s: seq<T>, w: nat, order: seq<nat>)
    requires w > 0
    requires multiset(order) == multiset(Range(w))
    ensures multiset(ReadColumns(s, w, order)) == multiset(s)
  {
    forall k | 0 <= k < |order| ensures order[k] < w {
      assert order[k] in multiset(Range(w));
    }
    var all := Columns(s, w, Range(w));
    ColumnsPick(s, w, order);
    PickPerm(all, order, Range(w));
    PickRange(all);
    FlattenPerm(Columns(s, w, order), all);
    AllColumnsPerm(s, w);
  }
}
