/** The letter-matrix panel of the PyQt5 toolkit (K4Tools.py): the text is
    written row by row into a rows x cols matrix, shown in one of four
    reading directions, and its columns can be rearranged by a
    comma-separated index list.  Widget contents are parameters; an integer
    field that `int()` rejects is `None`. */
module MatrixTool {
  import opened Wrappers
  import opened Seqs
  import opened Text
  import opened Columnar
  import opened Grids

  /** The four reading directions chosen by the radio buttons. */
  datatype Reading = RowsDown | RowsUp | ColumnsRight | ColumnsLeft

  /** The direction `output_matrix` takes from the three radio buttons. */
  function ReadingFor(rowWise: bool, bottomToTop: bool, rightToLeft: bool): (m: Reading)
    ensures m.RowsDown? || m.RowsUp? <==> rowWise
    ensures m.RowsUp? <==> rowWise && bottomToTop
    ensures m.ColumnsLeft? <==> !rowWise && rightToLeft
  {
    if rowWise then (if bottomToTop then RowsUp else RowsDown)
    else if rightToLeft then ColumnsLeft else ColumnsRight
  }

  /** `output_matrix`: the cells of a rows x W matrix in the chosen
      direction, blank cells skipped. */
  function OutputMatrix(g: Grid, W: nat, mode: Reading): string
    requires Rectangular(g, W)
  {
    match mode
    case RowsDown => NonBlank(Flatten(g))
    case RowsUp => NonBlank(Flatten(Reverse(g)))
    case ColumnsRight => NonBlank(ColumnMajor(g, W, Range(W)))
    case ColumnsLeft => NonBlank(ColumnMajor(g, W, Descending(W)))
  }

  /** Every reading direction shows the same letters: the non-blank cells
      of the matrix. */
  lemma {:induction false} OutputMatrixPerm(g: Grid, W: nat, mode: Reading)
    requires Rectangular(g, W)
    ensures multiset(OutputMatrix(g, W, mode)) == multiset(NonBlank(Flatten(g)))
  {
    match mode
    case RowsDown =>
    case RowsUp =>
      FlattenReversePerm(g);
      WithoutPerm(Flatten(Reverse(g)), Flatten(g), Blank);
    case ColumnsRight =>
      GridColumnsPerm(g, W, Range(W));
      WithoutPerm(ColumnMajor(g, W, Range(W)), Flatten(g), Blank);
    case ColumnsLeft =>
      DescendingPerm(W);
      GridColumnsPerm(g, W, Descending(W));
      WithoutPerm(ColumnMajor(g, W, Descending(W)), Flatten(g), Blank);
  }

  /** A matrix on screen and the text it reads as. */
  datatype Shown = Shown(matrix: Grid, output: string)

  /** `update_matrix`: rejects a non-integer size, a text that is not all
      letters once upper-cased, and a size that is not positive; otherwise
      fills the matrix with the first rows * cols letters and reads it. */
  function UpdateMatrix(rows: Option<int>, cols: Option<int>, text: string, mode: Reading): (r: Result<Shown>)
    ensures r.Ok? <==> rows.Some? && cols.Some? && IsAlpha(UpperStr(text))
                       && rows.value > 0 && cols.value > 0
    ensures r.Err? ==> r.failure == Rejected
    ensures r.Ok? ==> |r.value.matrix| == rows.value && Rectangular(r.value.matrix, cols.value)
  {
    if rows.None? || cols.None? then Err(Rejected)
    else
      var t := UpperStr(text);
      if !IsAlpha(t) then Err(Rejected)
      else if rows.value <= 0 || cols.value <= 0 then Err(Rejected)
      else
        var g := Fill(t, cols.value, cols.value, rows.value);
        Ok(Shown(g, OutputMatrix(g, cols.value, mode)))
  }

  /** What each direction of `update_matrix` shows, stated on the text: the
      first rows * cols letters, their rows bottom to top, or their columnar
      transposition with the columns taken left to right or right to
      left. */
  lemma {:induction false} UpdateMatrixOutput(rows: Option<int>, cols: Option<int>, text: string, mode: Reading)
    requires UpdateMatrix(rows, cols, text, mode).Ok?
    ensures var t, R, w := UpperStr(text), rows.value, cols.value;
            var kept := t[..Min(|t|, R * w)];
            var out := UpdateMatrix(rows, cols, text, mode).value.output;
            && (mode.RowsDown? ==> out == kept)
            && (mode.RowsUp? ==> out == Flatten(Reverse(Rows(t, w, R))))
            && (mode.ColumnsRight? ==> out == ReadColumns(kept, w, Range(w)))
            && (mode.ColumnsLeft? ==> out == ReadColumns(kept, w, Descending(w)))
            && multiset(out) == multiset(kept)
  {
    var t, R, w := UpperStr(text), rows.value, cols.value;
    assert Blank !in t by {
      assert forall i :: 0 <= i < |t| ==> IsLetter(t[i]);
    }
    var g := Fill(t, w, w, R);
    KeptPrefix(t, w, R);
    var kept := Kept(t, w, R);
    assert Blank !in kept;
    WithoutAbsent(kept, Blank);
    FillRowMajor(t, w, w, R);
    OutputMatrixPerm(g, w, mode);
    match mode
    case RowsDown =>
    case RowsUp =>
      FillRowsUp(t, w, w, R);
    case ColumnsRight =>
      FillColumnMajor(t, w, w, R, Range(w));
    case ColumnsLeft =>
      FillColumnMajor(t, w, w, R, Descending(w));
  }

  /** `get_current_matrix`: a non-integer size shows an error and gives no
      matrix; a negative size makes `np.full` raise `ValueError`; otherwise
      the upper-cased text, letters or not, is written in row by row and
      cut at rows * cols characters. */
  function CurrentMatrix(rows: Option<int>, cols: Option<int>, text: string): (r: Result<Grid>)
    ensures r.Ok? <==> rows.Some? && cols.Some? && rows.value >= 0 && cols.value >= 0
    ensures rows.None? || cols.None? ==> r == Err(Rejected)
    ensures r.Ok? ==> |r.value| == rows.value && Rectangular(r.value, cols.value)
    ensures r.Ok? ==> NonBlank(Flatten(r.value))
                      == NonBlank(UpperStr(text)[..Min(|text|, rows.value * cols.value)])
  {
    if rows.None? || cols.None? then Err(Rejected)
    else if rows.value < 0 || cols.value < 0 then Err(ValueError)
    else
      var t := UpperStr(text);
      FillRowMajor(t, cols.value, cols.value, rows.value);
      KeptPrefix(t, cols.value, rows.value);
      Ok(Fill(t, cols.value, cols.value, rows.value))
  }

  /** numpy's reading of a column index: negative indices count from the
      right; anything outside `-W .. W - 1` raises `IndexError`. */
  function ResolveIndices(order: seq<int>, W: nat): (r: Option<seq<nat>>)
    ensures r.Some? <==> forall k :: 0 <= k < |order| ==> -(W as int) <= order[k] < W
    ensures r.Some? ==> |r.value| == |order|
    ensures r.Some? ==> forall k :: 0 <= k < |order| ==>
              r.value[k] < W && r.value[k] == if order[k] < 0 then order[k] + W else order[k]
  {
    if |order| == 0 then Some([])
    else if !(-(W as int) <= order[0] < W) then None
    else
      var rest := ResolveIndices(order[1..], W);
      if rest.None? then None
      else
        var i: nat := if order[0] < 0 then order[0] + W else order[0];
        Some([i] + rest.value)
  }

  /** `rearrange_columns`: rejects an empty or non-integer order, a missing
      matrix and an order whose length is not the number of columns, all
      with an error dialog; an index numpy cannot resolve raises
      `IndexError`, which the callback does not catch; otherwise shows
      `matrix[:, order]` read in the chosen direction. */
  function RearrangeColumns(order: Option<seq<int>>, rows: Option<int>, cols: Option<int>,
                            text: string, mode: Reading): (r: Result<Shown>)
    ensures r.Ok? <==> order.Some? && CurrentMatrix(rows, cols, text).Ok?
                       && |order.value| == cols.value
                       && ResolveIndices(order.value, cols.value).Some?
    ensures r.Err? && r.failure != Rejected ==> r.failure == IndexError
    ensures r.Ok? ==> (
              && r.value.matrix == SelectColumns(CurrentMatrix(rows, cols, text).value, cols.value,
                                                 ResolveIndices(order.value, cols.value).value)
              && r.value.output == OutputMatrix(r.value.matrix, cols.value, mode))
  {
    if order.None? then Err(Rejected)
    else
      var m := CurrentMatrix(rows, cols, text);
      if m.Err? then Err(Rejected)
      else if |order.value| != cols.value then Err(Rejected)
      else
        var idx := ResolveIndices(order.value, cols.value);
        if idx.None? then Err(IndexError)
        else
          var g := SelectColumns(m.value, cols.value, idx.value);
          Ok(Shown(g, OutputMatrix(g, |idx.value|, mode)))
  }

  /** Any direction of reading a matrix whose columns were taken in an
      order naming each once shows the matrix's own letters. */
  lemma {:induction false} SelectedOutputPerm(g: Grid, W: nat, idx: seq<nat>, mode: Reading)
    requires Rectangular(g, W) && |idx| == W
    requires forall k :: 0 <= k < |idx| ==> idx[k] < W
    requires multiset(idx) == multiset(Range(W))
    ensures multiset(OutputMatrix(SelectColumns(g, W, idx), W, mode)) == multiset(NonBlank(Flatten(g)))
  {
    var h := SelectColumns(g, W, idx);
    OutputMatrixPerm(h, W, mode);
    SelectColumnsPerm(g, W, idx);
    WithoutPerm(Flatten(h), Flatten(g), Blank);
  }

  /** `order` names each of the `W` columns exactly once. */
  predicate NamesEachColumnOnce(order: seq<int>, W: int)
  {
    W >= 0 && ResolveIndices(order, W).Some?
    && multiset(ResolveIndices(order, W).value) == multiset(Range(W))
  }

  /** Rearranging by an order that names every column once shows the same
      letters the matrix holds (the text's first rows * cols letters, by
      `CurrentMatrix`), in any direction: nothing is lost or repeated. */
  lemma {:induction false} RearrangePerm(order: Option<seq<int>>, rows: Option<int>, cols: Option<int>,
                                         text: string, mode: Reading)
    requires RearrangeColumns(order, rows, cols, text, mode).Ok?
    requires NamesEachColumnOnce(order.value, cols.value)
    ensures multiset(RearrangeColumns(order, rows, cols, text, mode).value.output)
         == multiset(NonBlank(Flatten(CurrentMatrix(rows, cols, text).value)))
  {
    var m := CurrentMatrix(rows, cols, text);
    var idx := ResolveIndices(order.value, cols.value).value;
    SelectedOutputPerm(m.value, cols.value, idx, mode);
  }

  /** Read column by column, a rearranged matrix of letters is the columnar
      transposition of its text under the key order: column `idx[k]` is
      read `k`-th. */
  lemma {:induction false} RearrangeTransposition(order: Option<seq<int>>, rows: Option<int>, cols: Option<int>,
                               text: string)
    requires RearrangeColumns(order, rows, cols, text, ColumnsRight).Ok?
    requires Blank !in text
    ensures var w := cols.value;
            var t := UpperStr(text);
            (RearrangeColumns(order, rows, cols, text, ColumnsRight).value.output
             == ReadColumns(t[..Min(|t|, rows.value * w)], w, ResolveIndices(order.value, w).value))
  {
    var w, R := cols.value, rows.value;
    var t := UpperStr(text);
    assert Blank !in t by {
      forall i | 0 <= i < |t| ensures t[i] != Blank {
        assert text[i] != Blank;
      }
    }
    var g := Fill(t, w, w, R);
    var idx := ResolveIndices(order.value, w).value;
    SelectColumnMajor(g, w, idx, Range(|idx|));
    PickRange(idx);
    FillColumnMajor(t, w, w, R, idx);
    KeptPrefix(t, w, R);
  }

  /** Rearranging by the identity order shows what `update_matrix` shows. */
  lemma {:induction false} RearrangeIdentity(rows: Option<int>, cols: Option<int>, text: string, mode: Reading)
    requires UpdateMatrix(rows, cols, text, mode).Ok?
    ensures var order := seq(cols.value, i requires 0 <= i < cols.value => i as int);
            (RearrangeColumns(Some(order), rows, cols, text, mode) == UpdateMatrix(rows, cols, text, mode))
  {
    var w := cols.value;
    var order := seq(w, i requires 0 <= i < w => i as int);
    var idx := ResolveIndices(order, w).value;
    assert idx == Range(w);
    var g := CurrentMatrix(rows, cols, text).value;
    assert SelectColumns(g, w, idx) == g by {
      forall i | 0 <= i < |g| ensures Pick(g[i], idx) == g[i] {
        PickRange(g[i]);
      }
    }
  }
}
