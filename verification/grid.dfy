/** numpy character matrices as the letter-matrix tools use them:
    `np.full((R, W), ' ')` with a text written in row by row, `w` cells to
    a row, read back row by row or column by column with the blank cells
    skipped. */
module Grids {
  import opened Seqs
  import opened Text
  import opened Columnar

  type Grid = seq<seq<char>>

  /** The fill value of the matrices; reading skips cells holding it. */
  const Blank := ' '

  /** Every row of `g` has `W` cells. */
  predicate Rectangular(g: Grid, W: nat)
  {
    forall i :: 0 <= i < |g| ==> |g[i]| == W
  }

  /** The first `R` rows of `s` cut `w` characters at a time; the last one
      may be shorter and rows past the end of `s` are empty. */
  function Rows(s: string, w: nat, R: nat): (rs: seq<string>)
    ensures |rs| == R
    ensures forall i :: 0 <= i < R ==> |rs[i]| <= w
  {
    if R == 0 then [] else [s[..Min(w, |s|)]] + Rows(s[Min(w, |s|)..], w, R - 1)
  }

  /** The part of `s` an `R`-row matrix with `w` used columns holds. */
  function Kept(s: string, w: nat, R: nat): string
  {
    Flatten(Rows(s, w, R))
  }

  lemma {:induction false} KeptCons(s: string, w: nat, R: nat)
    requires R > 0
    ensures Kept(s, w, R) == s[..Min(w, |s|)] + Kept(s[Min(w, |s|)..], w, R - 1)
  {
  }

  lemma {:induction false} PrefixJoin(s: string, m: nat, n: nat)
    requires m + n <= |s|
    ensures s[..m] + s[m..][..n] == s[..m + n]
  {
  }

  /** The first row takes `min(w, |s|)` characters, and the others what is
      left of the remaining room `k`. */
  lemma RoomSplit(len: nat, w: nat, k: nat)
    ensures Min(len, w + k) == Min(w, len) + Min(len - Min(w, len), k)
  {
  }

  /** A matrix keeps the first `R * w` characters of the text. */
  lemma {:induction false} KeptPrefix(s: string, w: nat, R: nat)
    ensures Kept(s, w, R) == s[..Min(|s|, R * w)]
  {
    if R > 0 {
      var m := Min(w, |s|);
      var k := (R - 1) * w;
      KeptCons(s, w, R);
      KeptPrefix(s[m..], w, R - 1);
      assert R * w == w + k;
      RoomSplit(|s|, w, k);
      PrefixJoin(s, m, Min(|s| - m, k));
    }
  }

  /** A matrix with room for the whole text keeps all of it. */
  lemma {:induction false} KeptAll(s: string, w: nat, R: nat)
    requires |s| <= R * w
    ensures Kept(s, w, R) == s
  {
    KeptPrefix(s, w, R);
  }

  lemma {:induction false} KeptEmpty(w: nat, R: nat)
    ensures Kept([], w, R) == []
  {
    if R > 0 {
      KeptEmpty(w, R - 1);
    }
  }

  /** A row of `W` cells holding `r` followed by blanks. */
  function PadRow(r: string, W: nat): (p: string)
    requires |r| <= W
    ensures |p| == W
    ensures forall j :: 0 <= j < W ==> p[j] == if j < |r| then r[j] else Blank
  {
    r + seq(W - |r|, _ => Blank)
  }

  /** `np.full((R, W), ' ')` with `s` written in row by row, `w` cells to
      a row (`matrix[i // w, i % w] = s[i]`). */
  function Fill(s: string, w: nat, W: nat, R: nat): (g: Grid)
    requires w <= W
    ensures |g| == R && Rectangular(g, W)
  {
    var rs := Rows(s, w, R);
    seq(R, i requires 0 <= i < R => PadRow(rs[i], W))
  }

  lemma {:induction false} FillCons(s: string, w: nat, W: nat, R: nat)
    requires w <= W && R > 0
    ensures Fill(s, w, W, R)
         == [PadRow(s[..Min(w, |s|)], W)] + Fill(s[Min(w, |s|)..], w, W, R - 1)
  {
  }

  /** Column `j` of a rectangular grid, top to bottom. */
  function GridColumn(g: Grid, W: nat, j: nat): (col: string)
    requires Rectangular(g, W) && j < W
    ensures |col| == |g|
    ensures forall i :: 0 <= i < |g| ==> col[i] == g[i][j]
  {
    seq(|g|, i requires 0 <= i < |g| => g[i][j])
  }

  /** The cells of the columns `cols`, each column top to bottom. */
  function ColumnMajor(g: Grid, W: nat, cols: seq<nat>): string
    requires Rectangular(g, W)
    requires forall k :: 0 <= k < |cols| ==> cols[k] < W
  {
    Flatten(seq(|cols|, k requires 0 <= k < |cols| => GridColumn(g, W, cols[k])))
  }

  /** `matrix[:, cols]`: the columns `cols` of `g`, in that order. */
  function SelectColumns(g: Grid, W: nat, cols: seq<nat>): (h: Grid)
    requires Rectangular(g, W)
    requires forall k :: 0 <= k < |cols| ==> cols[k] < W
    ensures |h| == |g| && Rectangular(h, |cols|)
    ensures forall i, k :: 0 <= i < |g| && 0 <= k < |cols| ==> h[i][k] == g[i][cols[k]]
  {
    seq(|g|, i requires 0 <= i < |g| => Pick(g[i], cols))
  }

  /** The text of some cells with the blank ones skipped. */
  function NonBlank(s: string): string
  {
    Without(s, Blank)
  }

  lemma {:induction false} NonBlankPad(r: string, W: nat)
    requires |r| <= W
    ensures NonBlank(PadRow(r, W)) == NonBlank(r)
  {
    var pad := seq(W - |r|, _ => Blank);
    WithoutAppend(r, pad, Blank);
    WithoutOnly(pad, Blank);
  }

  lemma {:induction false} NonBlankFlatten(xss: seq<string>)
    ensures NonBlank(Flatten(xss)) == Flatten(seq(|xss|, i requires 0 <= i < |xss| => NonBlank(xss[i])))
  {
    if |xss| > 0 {
      NonBlankFlatten(xss[1..]);
      WithoutAppend(xss[0], Flatten(xss[1..]), Blank);
      var f := seq(|xss|, i requires 0 <= i < |xss| => NonBlank(xss[i]));
      assert f[1..] == seq(|xss| - 1, i requires 0 <= i < |xss| - 1 => NonBlank(xss[1..][i]));
    }
  }

  /** Reading a filled matrix row by row gives back the text it holds,
      without its blanks. */
  lemma {:induction false} FillRowMajor(s: string, w: nat, W: nat, R: nat)
    requires w <= W
    ensures NonBlank(Flatten(Fill(s, w, W, R))) == NonBlank(Kept(s, w, R))
  {
    if R > 0 {
      var m := Min(w, |s|);
      FillCons(s, w, W, R);
      FillRowMajor(s[m..], w, W, R - 1);
      WithoutAppend(PadRow(s[..m], W), Flatten(Fill(s[m..], w, W, R - 1)), Blank);
      WithoutAppend(s[..m], Kept(s[m..], w, R - 1), Blank);
      NonBlankPad(s[..m], W);
    }
  }

  /** Reading a filled matrix row by row from the bottom gives its rows
      in reverse order. */
  lemma {:induction false} FillRowsUp(s: string, w: nat, W: nat, R: nat)
    requires w <= W && Blank !in s
    ensures NonBlank(Flatten(Reverse(Fill(s, w, W, R)))) == Flatten(Reverse(Rows(s, w, R)))
  {
    if R > 0 {
      var m := Min(w, |s|);
      var g := Fill(s, w, W, R);
      var rs := Rows(s, w, R);
      FillCons(s, w, W, R);
      assert Blank !in s[m..] && Blank !in s[..m];
      FillRowsUp(s[m..], w, W, R - 1);
      assert g[1..] == Fill(s[m..], w, W, R - 1);
      assert rs[1..] == Rows(s[m..], w, R - 1);
      FlattenSnoc(Reverse(g[1..]), g[0]);
      FlattenSnoc(Reverse(rs[1..]), rs[0]);
      WithoutAppend(Flatten(Reverse(g[1..])), g[0], Blank);
      NonBlankPad(s[..m], W);
      WithoutAbsent(s[..m], Blank);
    }
  }

  lemma {:induction false} GridColumnCons(g: Grid, W: nat, j: nat)
    requires Rectangular(g, W) && j < W && |g| > 0
    ensures GridColumn(g, W, j) == [g[0][j]] + GridColumn(g[1..], W, j)
  {
  }

  lemma {:induction false} NonBlankCons(c: char, s: string)
    ensures NonBlank([c] + s) == (if c == Blank then [] else [c]) + NonBlank(s)
  {
    assert ([c] + s)[1..] == s;
  }

  /** Column `j` of a filled matrix starts with its cell in the first row. */
  lemma {:induction false} FillColumnTop(s: string, w: nat, W: nat, R: nat, j: nat)
    requires w <= W && j < W && R > 0 && Blank !in s
    ensures NonBlank(GridColumn(Fill(s, w, W, R), W, j))
         == (if j < Min(w, |s|) then [s[j]] else [])
            + NonBlank(GridColumn(Fill(s[Min(w, |s|)..], w, W, R - 1), W, j))
  {
    var g := Fill(s, w, W, R);
    FillCons(s, w, W, R);
    GridColumnCons(g, W, j);
    NonBlankCons(g[0][j], GridColumn(g[1..], W, j));
  }

  /** Column `j` of the text a matrix holds starts with its cell in the
      first row. */
  lemma {:induction false} KeptColumnTop(s: string, w: nat, R: nat, j: nat)
    requires j < w && R > 0
    ensures Column(Kept(s, w, R), w, j)
         == (if j < Min(w, |s|) then [s[j]] else []) + Column(Kept(s[Min(w, |s|)..], w, R - 1), w, j)
  {
    var m := Min(w, |s|);
    var t := Kept(s, w, R);
    assert t == s[..m] + Kept(s[m..], w, R - 1);
    ColumnFirst(t, w, j);
    if |s| < w {
      assert s[m..] == [];
      KeptEmpty(w, R - 1);
      assert DropRow(t, w) == [];
    } else {
      assert DropRow(t, w) == Kept(s[m..], w, R - 1);
    }
  }

  lemma {:induction false} BlankNotInRest(s: string, m: nat)
    requires m <= |s| && Blank !in s
    ensures Blank !in s[m..]
  {
    assert forall c :: c in s[m..] ==> c in s;
  }

  /** A used column of a filled matrix, blanks skipped, is that column of
      the text it holds. */
  lemma {:induction false} FillColumnUsed(s: string, w: nat, W: nat, R: nat, j: nat)
    requires w <= W && j < w && Blank !in s
    ensures NonBlank(GridColumn(Fill(s, w, W, R), W, j)) == Column(Kept(s, w, R), w, j)
  {
    if R > 0 {
      var m := Min(w, |s|);
      BlankNotInRest(s, m);
      FillColumnTop(s, w, W, R, j);
      FillColumnUsed(s[m..], w, W, R - 1, j);
      KeptColumnTop(s, w, R, j);
    } else {
      KeptEmpty(w, 0);
    }
  }

  /** A column right of the used ones holds only blanks. */
  lemma {:induction false} FillColumnUnused(s: string, w: nat, W: nat, R: nat, j: nat)
    requires w <= j < W && Blank !in s
    ensures NonBlank(GridColumn(Fill(s, w, W, R), W, j)) == []
  {
    if R > 0 {
      var m := Min(w, |s|);
      BlankNotInRest(s, m);
      FillColumnTop(s, w, W, R, j);
      FillColumnUnused(s[m..], w, W, R - 1, j);
    }
  }

  /** Column `j` of a filled matrix, blanks skipped, is column `j` of the
      text it holds; the columns right of the `w` used ones are empty. */
  lemma FillColumn(s: string, w: nat, W: nat, R: nat, j: nat)
    requires w <= W && j < W && Blank !in s
    ensures NonBlank(GridColumn(Fill(s, w, W, R), W, j))
         == if j < w then Column(Kept(s, w, R), w, j) else []
  {
    if j < w {
      FillColumnUsed(s, w, W, R, j);
    } else {
      FillColumnUnused(s, w, W, R, j);
    }
  }

  /** Each of the columns `cols` with blanks skipped. */
  function NonBlankColumns(g: Grid, W: nat, cols: seq<nat>): (r: seq<string>)
    requires Rectangular(g, W)
    requires forall k :: 0 <= k < |cols| ==> cols[k] < W
    ensures |r| == |cols|
    ensures forall k :: 0 <= k < |cols| ==> r[k] == NonBlank(GridColumn(g, W, cols[k]))
  {
    seq(|cols|, k requires 0 <= k < |cols| => NonBlank(GridColumn(g, W, cols[k])))
  }

  /** Reading the columns `cols` with blanks skipped is reading each column
      with blanks skipped. */
  lemma {:induction false} NonBlankColumnMajor(g: Grid, W: nat, cols: seq<nat>)
    requires Rectangular(g, W)
    requires forall k :: 0 <= k < |cols| ==> cols[k] < W
    ensures NonBlank(ColumnMajor(g, W, cols)) == Flatten(NonBlankColumns(g, W, cols))
  {
    var xss := seq(|cols|, k requires 0 <= k < |cols| => GridColumn(g, W, cols[k]));
    NonBlankFlatten(xss);
    assert seq(|xss|, i requires 0 <= i < |xss| => NonBlank(xss[i])) == NonBlankColumns(g, W, cols);
  }

  /** The columns `cols` of a filled matrix, blanks skipped, are the
      columnar reading of the text it holds. */
  lemma {:induction false} FillColumnMajor(s: string, w: nat, W: nat, R: nat, cols: seq<nat>)
    requires w <= W && Blank !in s
    requires forall k :: 0 <= k < |cols| ==> cols[k] < w
    ensures NonBlank(ColumnMajor(Fill(s, w, W, R), W, cols)) == ReadColumns(Kept(s, w, R), w, cols)
  {
    var g := Fill(s, w, W, R);
    NonBlankColumnMajor(g, W, cols);
    forall k | 0 <= k < |cols|
      ensures NonBlankColumns(g, W, cols)[k] == Columns(Kept(s, w, R), w, cols)[k]
    {
      FillColumn(s, w, W, R, cols[k]);
    }
    assert NonBlankColumns(g, W, cols) == Columns(Kept(s, w, R), w, cols);
  }

  /** Columns of `t` counted down from `n - 1`, where those at or right of
      `w` are empty. */
  function ColumnsDown(t: string, w: nat, n: nat): seq<string>
  {
    seq(n, k requires 0 <= k < n => if n - 1 - k < w then Column(t, w, n - 1 - k) else [])
  }

  lemma {:induction false} ColumnsDownRead(t: string, w: nat, n: nat)
    requires n >= w
    ensures Flatten(ColumnsDown(t, w, n)) == ReadColumns(t, w, Descending(w))
    decreases n
  {
    if n == w {
      assert ColumnsDown(t, w, n) == Columns(t, w, Descending(w));
    } else {
      ColumnsDownRead(t, w, n - 1);
      assert ColumnsDown(t, w, n) == [[]] + ColumnsDown(t, w, n - 1);
    }
  }

  /** Column `k` of a filled matrix read right to left, blanks skipped,
      is the matching column of the text it holds, or empty right of the
      `w` used ones. */
  lemma FillColumnDown(s: string, w: nat, W: nat, R: nat, k: nat)
    requires w <= W && k < W && Blank !in s
    ensures NonBlankColumns(Fill(s, w, W, R), W, Descending(W))[k] == ColumnsDown(Kept(s, w, R), w, W)[k]
  {
    FillColumn(s, w, W, R, W - 1 - k);
  }

  lemma {:induction false} FillColumnsDownEach(s: string, w: nat, W: nat, R: nat)
    requires w <= W && Blank !in s
    ensures NonBlankColumns(Fill(s, w, W, R), W, Descending(W)) == ColumnsDown(Kept(s, w, R), w, W)
  {
    var a, b := NonBlankColumns(Fill(s, w, W, R), W, Descending(W)), ColumnsDown(Kept(s, w, R), w, W);
    forall k | 0 <= k < W ensures a[k] == b[k] {
      FillColumnDown(s, w, W, R, k);
    }
  }

  /** Read right to left over `W` columns, the blank columns right of the
      `w` used ones add nothing. */
  lemma {:induction false} FillColumnsDown(s: string, w: nat, W: nat, R: nat)
    requires w <= W && Blank !in s
    ensures NonBlank(ColumnMajor(Fill(s, w, W, R), W, Descending(W)))
         == ReadColumns(Kept(s, w, R), w, Descending(w))
  {
    NonBlankColumnMajor(Fill(s, w, W, R), W, Descending(W));
    FillColumnsDownEach(s, w, W, R);
    ColumnsDownRead(Kept(s, w, R), w, W);
  }

  lemma {:induction false} GridColumnsOfEmpty(g: Grid, W: nat, cols: seq<nat>)
    requires |g| == 0 && forall k :: 0 <= k < |cols| ==> cols[k] < W
    ensures ColumnMajor(g, W, cols) == []
  {
    if |cols| > 0 {
      GridColumnsOfEmpty(g, W, cols[1..]);
      assert seq(|cols|, k requires 0 <= k < |cols| => GridColumn(g, W, cols[k]))[1..]
          == seq(|cols| - 1, k requires 0 <= k < |cols| - 1 => GridColumn(g, W, cols[1..][k]));
    }
  }

  /** All columns of a grid, left to right. */
  function AllColumns(g: Grid, W: nat): (cs: seq<string>)
    requires Rectangular(g, W)
    ensures |cs| == W
  {
    seq(W, j requires 0 <= j < W => GridColumn(g, W, j))
  }

  lemma {:induction false} ColumnMajorPick(g: Grid, W: nat, cols: seq<nat>)
    requires Rectangular(g, W)
    requires forall k :: 0 <= k < |cols| ==> cols[k] < W
    ensures ColumnMajor(g, W, cols) == Flatten(Pick(AllColumns(g, W), cols))
  {
    assert seq(|cols|, k requires 0 <= k < |cols| => GridColumn(g, W, cols[k]))
        == Pick(AllColumns(g, W), cols);
  }

  /** The columns of a grid are its first row's cells glued to the columns
      of the rows below. */
  lemma {:induction false} GridColumnsSplit(g: Grid, W: nat)
    requires Rectangular(g, W) && |g| > 0
    ensures AllColumns(g, W)
         == seq(W, j requires 0 <= j < W => FirstRow(g[0], W)[j] + AllColumns(g[1..], W)[j])
  {
    var a, b := AllColumns(g, W), AllColumns(g[1..], W);
    var h := FirstRow(g[0], W);
    forall j | 0 <= j < W ensures a[j] == h[j] + b[j] {
      GridColumnCons(g, W, j);
    }
  }

  /** Reading every column of a grid left to right rearranges its cells. */
  lemma {:induction false} GridColumnsAllPerm(g: Grid, W: nat)
    requires Rectangular(g, W)
    ensures multiset(Flatten(AllColumns(g, W))) == multiset(Flatten(g))
    decreases |g|
  {
    if |g| == 0 {
      GridColumnsOfEmpty(g, W, Range(W));
      ColumnMajorPick(g, W, Range(W));
      PickRange(AllColumns(g, W));
    } else {
      var h, b := FirstRow(g[0], W), AllColumns(g[1..], W);
      GridColumnsSplit(g, W);
      FlattenZipPerm(h, b);
      FirstCells(g[0], W);
      assert Flatten(h) == g[0] by {
        assert g[0][..W] == g[0];
      }
      GridColumnsAllPerm(g[1..], W);
      calc {
        multiset(Flatten(AllColumns(g, W)));
        multiset(Flatten(h)) + multiset(Flatten(b));
        multiset(g[0]) + multiset(Flatten(g[1..]));
        multiset(g[0] + Flatten(g[1..]));
      }
    }
  }

  /** Reading the columns of a grid in any order that names each column
      once rearranges its cells. */
  lemma {:induction false} GridColumnsPerm(g: Grid, W: nat, cols: seq<nat>)
    requires Rectangular(g, W)
    requires multiset(cols) == multiset(Range(W))
    ensures forall k :: 0 <= k < |cols| ==> cols[k] < W
    ensures multiset(ColumnMajor(g, W, cols)) == multiset(Flatten(g))
  {
    forall k | 0 <= k < |cols| ensures cols[k] < W {
      assert cols[k] in multiset(Range(W));
    }
    var all := AllColumns(g, W);
    ColumnMajorPick(g, W, cols);
    PickPerm(all, cols, Range(W));
    PickRange(all);
    FlattenPerm(Pick(all, cols), all);
    GridColumnsAllPerm(g, W);
  }

  /** Selecting the columns of a grid in an order that names each column
      once rearranges its cells. */
  lemma {:induction false} SelectColumnsPerm(g: Grid, W: nat, cols: seq<nat>)
    requires Rectangular(g, W)
    requires forall k :: 0 <= k < |cols| ==> cols[k] < W
    requires multiset(cols) == multiset(Range(W))
    ensures multiset(Flatten(SelectColumns(g, W, cols))) == multiset(Flatten(g))
  {
    var h := SelectColumns(g, W, cols);
    forall i | 0 <= i < |g| ensures multiset(h[i]) == multiset(g[i]) {
      PickPerm(g[i], cols, Range(W));
      PickRange(g[i]);
    }
    FlattenPointwisePerm(h, g);
  }

  /** Reading selected columns is reading the original grid at the
      composed column indices. */
  lemma {:induction false} SelectColumnMajor(g: Grid, W: nat, cols: seq<nat>, order: seq<nat>)
    requires Rectangular(g, W)
    requires forall k :: 0 <= k < |cols| ==> cols[k] < W
    requires forall k :: 0 <= k < |order| ==> order[k] < |cols|
    ensures forall k :: 0 <= k < |order| ==> Pick(cols, order)[k] < W
    ensures ColumnMajor(SelectColumns(g, W, cols), |cols|, order) == ColumnMajor(g, W, Pick(cols, order))
  {
    var h := SelectColumns(g, W, cols);
    var p := Pick(cols, order);
    forall k | 0 <= k < |order| ensures GridColumn(h, |cols|, order[k]) == GridColumn(g, W, p[k]) {
      assert forall i :: 0 <= i < |g| ==> h[i][order[k]] == g[i][p[k]];
    }
    assert seq(|order|, k requires 0 <= k < |order| => GridColumn(h, |cols|, order[k]))
        == seq(|p|, k requires 0 <= k < |p| => GridColumn(g, W, p[k]));
  }
}
