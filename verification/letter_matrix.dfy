/** The tkinter letter-matrix window (test.py): a string of letters is
    submitted, laid out `current_cols` wide, and read column by column from
    the right; its columns can be rearranged by an index list.  The window's
    state is the submitted string and the current size. */
module LetterMatrix {
  import opened Wrappers
  import opened Seqs
  import opened Text
  import opened Columnar
  import opened Grids

  datatype State = State(input: string, rows: int, cols: int)

  /** The state the window starts in. */
  const Init := State("", 1, 0)

  /** What every reachable state satisfies: a positive row count, and a
      string of upper-case letters that is laid out in at least one column
      once it is non-empty. */
  predicate Valid(st: State)
  {
    && st.rows >= 1
    && st.cols >= 0
    && (st.cols == 0 ==> st.input == [])
    && forall i :: 0 <= i < |st.input| ==> IsUpper(st.input[i])
  }

  /** `submit_string`: the upper-cased entry must be alphabetic (so
      non-empty); it becomes the input on a single row. */
  function SubmitString(st: State, entry: string): (r: Result<State>)
    ensures r.Ok? <==> IsAlpha(UpperStr(entry))
    ensures r.Err? ==> r.failure == Rejected
    ensures r.Ok? ==> r.value.input == UpperStr(entry) && r.value.rows == 1
                      && r.value.cols == |entry| > 0
  {
    var t := UpperStr(entry);
    if !IsAlpha(t) then Err(Rejected) else Ok(State(t, 1, |t|))
  }

  /** Rows a matrix needs: enough for the whole input, at least `rows`. */
  function MatrixRows(n: nat, rows: nat, cols: nat): nat
    requires cols > 0
  {
    Max(rows, (n + cols - 1) / cols)
  }

  lemma {:induction false} CeilCover(n: nat, cols: nat)
    requires cols > 0
    ensures n <= (n + cols - 1) / cols * cols
  {
    var q, r := (n + cols - 1) / cols, (n + cols - 1) % cols;
    assert n + cols - 1 == q * cols + r;
  }

  lemma {:induction false} MatrixRowsCover(n: nat, rows: nat, cols: nat)
    requires cols > 0
    ensures n <= MatrixRows(n, rows, cols) * cols
  {
    CeilCover(n, cols);
    var q := (n + cols - 1) / cols;
    if rows > q {
      assert rows * cols >= q * cols;
    }
  }

  /** The matrix `output_column_wise` and `rearrange_columns` build:
      `max(rows, ceil(n / cols))` rows, `max(cols, n)` columns, the input
      written row by row `cols` wide. */
  function Matrix(input: string, rows: nat, cols: nat): (g: Grid)
    requires cols > 0
    ensures Rectangular(g, Max(cols, |input|))
  {
    Fill(input, cols, Max(cols, |input|), MatrixRows(|input|, rows, cols))
  }

  /** `output_column_wise`: the columns of the matrix from right to left,
      each top to bottom, blank cells skipped. */
  function OutputColumnWise(input: string, rows: nat, cols: nat): string
    requires cols > 0
  {
    var W := Max(cols, |input|);
    NonBlank(ColumnMajor(Matrix(input, rows, cols), W, Descending(W)))
  }

  /** The read-out is the columnar transposition of the input: column
      `c = cols-1, ..., 0` contributes `input[c], input[c + cols], ...`;
      the extra blank rows and columns add nothing. */
  lemma {:induction false} OutputColumnWiseIs(input: string, rows: nat, cols: nat)
    requires cols > 0 && Blank !in input
    ensures OutputColumnWise(input, rows, cols) == ReadColumns(input, cols, Descending(cols))
    ensures multiset(OutputColumnWise(input, rows, cols)) == multiset(input)
  {
    var R := MatrixRows(|input|, rows, cols);
    FillColumnsDown(input, cols, Max(cols, |input|), R);
    MatrixRowsCover(|input|, rows, cols);
    KeptAll(input, cols, R);
    DescendingPerm(cols);
    ReadColumnsPerm(input, cols, Descending(cols));
  }

  /** `update_matrix`: both sizes must parse and be positive; the new size
      is stored and the matrix read out column-wise. */
  function UpdateMatrix(st: State, rows: Option<int>, cols: Option<int>): (r: Result<(State, string)>)
    ensures r.Ok? <==> rows.Some? && cols.Some? && rows.value > 0 && cols.value > 0
    ensures r.Err? ==> r.failure == Rejected
    ensures r.Ok? ==> r.value.0 == State(st.input, rows.value, cols.value)
  {
    if rows.None? || cols.None? then Err(Rejected)
    else if rows.value <= 0 || cols.value <= 0 then Err(Rejected)
    else Ok((State(st.input, rows.value, cols.value),
             OutputColumnWise(st.input, rows.value, cols.value)))
  }

  /** `update_matrix` on a reachable state shows the input's columns from
      right to left: a rearrangement of the input. */
  lemma {:induction false} UpdateMatrixOutput(st: State, rows: Option<int>, cols: Option<int>)
    requires Valid(st) && UpdateMatrix(st, rows, cols).Ok?
    ensures var out := UpdateMatrix(st, rows, cols).value.1;
            && out == ReadColumns(st.input, cols.value, Descending(cols.value))
            && multiset(out) == multiset(st.input)
  {
    assert Blank !in st.input by {
      assert forall i :: 0 <= i < |st.input| ==> IsUpper(st.input[i]);
    }
    OutputColumnWiseIs(st.input, rows.value, cols.value);
  }

  /** An order of column indices checked to be non-negative, as naturals. */
  function Indices(order: seq<int>): (idx: seq<nat>)
    requires forall k :: 0 <= k < |order| ==> 0 <= order[k]
    ensures |idx| == |order|
    ensures forall k :: 0 <= k < |order| ==> idx[k] == order[k]
  {
    seq(|order|, k requires 0 <= k < |order| => order[k] as nat)
  }

  /** The read-out of `matrix[:, idx]`: its columns from right to left,
      blank cells skipped. */
  function Rearranged(input: string, rows: nat, cols: nat, idx: seq<nat>): string
    requires cols > 0 && |idx| == cols
    requires forall k :: 0 <= k < |idx| ==> idx[k] < cols
  {
    var W := Max(cols, |input|);
    var h := SelectColumns(Matrix(input, rows, cols), W, idx);
    NonBlank(ColumnMajor(h, cols, Descending(cols)))
  }

  /** `rearrange_columns`: the order must have one entry per current column,
      each in `0 .. cols - 1` (repeats are allowed); the matrix's columns
      are taken in that order and read from right to left.  With no
      columns the size computation divides by zero. */
  function RearrangeColumns(st: State, order: Option<seq<int>>): (r: Result<string>)
    requires st.rows >= 0 && st.cols >= 0
    ensures r.Ok? <==> order.Some? && |order.value| == st.cols > 0
                       && forall k :: 0 <= k < |order.value| ==> 0 <= order.value[k] < st.cols
    ensures r.Err? ==> r.failure == Rejected || (r.failure == ZeroDivisionError && st.cols == 0)
    ensures r.Ok? ==> r.value == Rearranged(st.input, st.rows, st.cols, Indices(order.value))
  {
    if order.None? then Err(Rejected)
    else if |order.value| != st.cols then Err(Rejected)
    else if exists k :: 0 <= k < |order.value| && !(0 <= order.value[k] < st.cols) then Err(Rejected)
    else if st.cols == 0 then Err(ZeroDivisionError)
    else Ok(Rearranged(st.input, st.rows, st.cols, Indices(order.value)))
  }

  /** Reading `matrix[:, idx]` from the right is the columnar transposition
      of the input under the reversed order: the column named last is read
      first. */
  lemma {:induction false} RearrangedIs(input: string, rows: nat, cols: nat, idx: seq<nat>)
    requires cols > 0 && |idx| == cols && Blank !in input
    requires forall k :: 0 <= k < |idx| ==> idx[k] < cols
    ensures Rearranged(input, rows, cols, idx) == ReadColumns(input, cols, Reverse(idx))
  {
    var W := Max(cols, |input|);
    var R := MatrixRows(|input|, rows, cols);
    var g := Matrix(input, rows, cols);
    SelectColumnMajor(g, W, idx, Descending(cols));
    PickDescending(idx);
    var rev := Reverse(idx);
    forall k | 0 <= k < |rev| ensures rev[k] < cols {
      ReverseAt(idx, k);
    }
    FillColumnMajor(input, cols, W, R, rev);
    MatrixRowsCover(|input|, rows, cols);
    KeptAll(input, cols, R);
  }

  /** `rearrange_columns` on a reachable state reads the input's columns in
      the reverse of the given order. */
  lemma {:induction false} RearrangeIs(st: State, order: Option<seq<int>>)
    requires Valid(st) && RearrangeColumns(st, order).Ok?
    ensures RearrangeColumns(st, order).value == ReadColumns(st.input, st.cols, Reverse(Indices(order.value)))
  {
    assert Blank !in st.input by {
      assert forall i :: 0 <= i < |st.input| ==> IsUpper(st.input[i]);
    }
    RearrangedIs(st.input, st.rows, st.cols, Indices(order.value));
  }

  /** With an order naming every column once, the rearranged read-out is a
      rearrangement of the input. */
  lemma {:induction false} RearrangePerm(st: State, order: Option<seq<int>>)
    requires Valid(st) && RearrangeColumns(st, order).Ok?
    requires multiset(Indices(order.value)) == multiset(Range(st.cols))
    ensures multiset(RearrangeColumns(st, order).value) == multiset(st.input)
  {
    var idx := Indices(order.value);
    RearrangeIs(st, order);
    ReversePerm(idx);
    ReadColumnsPerm(st.input, st.cols, Reverse(idx));
  }

  /** Rearranging by the identity order reads out what `update_matrix`
      reads out for the current size. */
  lemma {:induction false} RearrangeIdentity(st: State)
    requires Valid(st) && st.cols > 0
    ensures var order := seq(st.cols, i requires 0 <= i < st.cols => i as int);
            RearrangeColumns(st, Some(order)) == Ok(OutputColumnWise(st.input, st.rows, st.cols))
  {
    var order := seq(st.cols, i requires 0 <= i < st.cols => i as int);
    assert Indices(order) == Range(st.cols);
    RearrangeIs(st, Some(order));
    DescendingIsReverse(st.cols);
    assert Blank !in st.input by {
      assert forall i :: 0 <= i < |st.input| ==> IsUpper(st.input[i]);
    }
    OutputColumnWiseIs(st.input, st.rows, st.cols);
  }

  /** The operations keep the window in a reachable state. */
  lemma {:induction false} InitValid()
    ensures Valid(Init)
  {
  }

  lemma {:induction false} SubmitValid(st: State, entry: string)
    requires SubmitString(st, entry).Ok?
    ensures Valid(SubmitString(st, entry).value)
  {
    var t := UpperStr(entry);
    forall i | 0 <= i < |t| ensures IsUpper(t[i]) {
      assert IsLetter(t[i]);
    }
  }

  lemma {:induction false} UpdateValid(st: State, rows: Option<int>, cols: Option<int>)
    requires Valid(st) && UpdateMatrix(st, rows, cols).Ok?
    ensures Valid(UpdateMatrix(st, rows, cols).value.0)
  {
  }

  /** In a reachable state the only failures of `rearrange_columns` are
      the rejected orders: the division by zero needs an empty order, and
      no text splits into an empty list at commas. */
  lemma {:induction false} RearrangeNoDivision(st: State, order: Option<seq<int>>)
    requires Valid(st) && (order.Some? ==> |order.value| > 0)
    ensures RearrangeColumns(st, order).Err? ==> RearrangeColumns(st, order).failure == Rejected
  {
  }
}
