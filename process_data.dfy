/**
 * `process_data` as the step-by-step rewrite of a copy of the table that the
 * source performs: a fresh array of rows, whole-column updates where the
 * source applies a vectorised operation, and loops where the source loops
 * (over the object columns, and over the categorical features). The method
 * is proved to compute `Data.Process`.
 */
module ProcessData {
  import opened Wrappers
  import opened Cells
  import opened Encoders
  import opened Data

  /** `X.replace("?", np.nan)` on one row. */
  function ReplaceRow(row: Row): (r: Row)
    ensures |r| == |row|
    ensures forall j :: 0 <= j < |row| ==> r[j] == ReplaceCell(row[j])
  {
    seq(|row|, j requires 0 <= j < |row| => ReplaceCell(row[j]))
  }

  /** Lines 32-33 applied to a whole table, cell by cell. */
  function StripRows(rows: seq<Row>, w: nat): (r: seq<Row>)
    requires HasWidth(rows, w)
    ensures |r| == |rows| && HasWidth(r, w)
  {
    seq(|rows|, i requires 0 <= i < |rows| =>
      seq(w, j requires 0 <= j < w => StripCell(IsTextColumn(rows, w, j), rows[i][j])))
  }

  function ReplaceRows(rows: seq<Row>): (r: seq<Row>)
    ensures |r| == |rows|
    ensures forall i :: 0 <= i < |rows| ==> r[i] == ReplaceRow(rows[i])
  {
    seq(|rows|, i requires 0 <= i < |rows| => ReplaceRow(rows[i]))
  }

  /** Stripping the object columns and then replacing `"?"` is the cleaning `Data.CleanRows` states cell by cell. */
  lemma CleanIsStripThenReplace(rows: seq<Row>, w: nat)
    requires HasWidth(rows, w)
    ensures ReplaceRows(StripRows(rows, w)) == CleanRows(rows, w)
  {
    RowsEqual(ReplaceRows(StripRows(rows, w)), CleanRows(rows, w), w);
  }

  /** The table after the object columns among the first `j` have been stripped. */
  function StripUpTo(rows: seq<Row>, w: nat, text: seq<bool>, j: nat): (r: seq<Row>)
    requires HasWidth(rows, w) && |text| == w && j <= w
    ensures |r| == |rows| && HasWidth(r, w)
  {
    seq(|rows|, i requires 0 <= i < |rows| =>
      seq(w, c requires 0 <= c < w => if c < j && text[c] then StripCell(true, rows[i][c]) else rows[i][c]))
  }

  /** `X[col] = X[col].str.strip()` for the column at `j`. */
  function StripColumn(rows: seq<Row>, w: nat, j: nat): (r: seq<Row>)
    requires HasWidth(rows, w) && j < w
    ensures |r| == |rows| && HasWidth(r, w)
  {
    seq(|rows|, i requires 0 <= i < |rows| => rows[i][j := StripCell(true, rows[i][j])])
  }

  lemma StripUpToStep(rows: seq<Row>, w: nat, text: seq<bool>, j: nat)
    requires HasWidth(rows, w) && |text| == w && j < w
    ensures StripUpTo(rows, w, text, j + 1)
            == if text[j] then StripColumn(StripUpTo(rows, w, text, j), w, j) else StripUpTo(rows, w, text, j)
  {
    var next := if text[j] then StripColumn(StripUpTo(rows, w, text, j), w, j) else StripUpTo(rows, w, text, j);
    RowsEqual(StripUpTo(rows, w, text, j + 1), next, w);
  }

  lemma StripUpToNone(rows: seq<Row>, w: nat, text: seq<bool>)
    requires HasWidth(rows, w) && |text| == w
    ensures StripUpTo(rows, w, text, 0) == rows
  {
    RowsEqual(StripUpTo(rows, w, text, 0), rows, w);
  }

  lemma StripUpToAll(rows: seq<Row>, w: nat)
    requires HasWidth(rows, w)
    ensures StripUpTo(rows, w, TextColumns(rows, w), w) == StripRows(rows, w)
  {
    RowsEqual(StripUpTo(rows, w, TextColumns(rows, w), w), StripRows(rows, w), w);
  }

  /** `X.select_dtypes(include="object").columns`, as one flag per column. */
  function TextColumns(rows: seq<Row>, w: nat): (text: seq<bool>)
    requires HasWidth(rows, w)
    ensures |text| == w && forall j :: 0 <= j < w ==> (text[j] <==> IsTextColumn(rows, w, j))
  {
    seq(w, j requires 0 <= j < w => IsTextColumn(rows, w, j))
  }

  /**
   * Lines 32-33: `X[col] = X[col].str.strip()` for every column of object
   * dtype, the object columns being chosen before any of them is stripped.
   */
  method StripObjectColumns(x: array<Row>, w: nat)
    requires HasWidth(x[..], w)
    modifies x
    ensures x[..] == StripRows(old(x[..]), w)
  {
    var before := x[..];
    var text := TextColumns(before, w);
    StripUpToNone(before, w, text);
    for j := 0 to w
      invariant x[..] == StripUpTo(before, w, text, j)
    {
      StripUpToStep(before, w, text, j);
      if text[j] {
        StripColumnInPlace(x, w, j);
      }
    }
    StripUpToAll(before, w);
  }

  /** `X[col] = X[col].str.strip()` on the array, for the column at `j`. */
  method StripColumnInPlace(x: array<Row>, w: nat, j: nat)
    requires HasWidth(x[..], w) && j < w
    modifies x
    ensures x[..] == StripColumn(old(x[..]), w, j)
  {
    forall i | 0 <= i < x.Length {
      x[i] := x[i][j := StripCell(true, x[i][j])];
    }
  }

  /** `X[col] = X[col].fillna(v)` for the column at `j`. */
  function FillColumn(rows: seq<Row>, w: nat, j: nat, v: Cell): (r: seq<Row>)
    requires HasWidth(rows, w) && j < w
    ensures |r| == |rows| && HasWidth(r, w)
  {
    seq(|rows|, i requires 0 <= i < |rows| => if rows[i][j] == Missing then rows[i][j := v] else rows[i])
  }

  /** `X[col] = X[col].fillna(v)` on the array, for the column at `j`. */
  method FillColumnInPlace(x: array<Row>, w: nat, j: nat, v: Cell)
    requires HasWidth(x[..], w) && j < w
    modifies x
    ensures x[..] == FillColumn(old(x[..]), w, j, v)
  {
    forall i | 0 <= i < x.Length && x[i][j] == Missing {
      x[i] := x[i][j := v];
    }
  }

  /** One cell of `Data.Impute`. */
  lemma ImputeAt(names: seq<string>, rows: seq<Row>, done: seq<string>, i: nat, k: nat)
    requires HasWidth(rows, |names|) && i < |rows| && k < |names|
    ensures Impute(names, rows, done)[i][k]
            == if names[k] in done && rows[i][k] == Missing then FillValue(Column(rows, |names|, k)) else rows[i][k]
  {
  }

  /**
   * One turn of the imputation loop when it changes nothing: `c` is not a
   * column, or its column has no gap left.
   */
  lemma ImputeStepKeeps(names: seq<string>, rows: seq<Row>, done: seq<string>, c: string)
    requires HasWidth(rows, |names|) && Distinct(names)
    requires c in names ==> Missing !in Column(Impute(names, rows, done), |names|, Position(names, c))
    ensures Impute(names, rows, done + [c]) == Impute(names, rows, done)
  {
    var w := |names|;
    var cur := Impute(names, rows, done);
    var next := Impute(names, rows, done + [c]);
    forall i, k | 0 <= i < |rows| && 0 <= k < w
      ensures next[i][k] == cur[i][k]
    {
      ImputeAt(names, rows, done, i, k);
      ImputeAt(names, rows, done + [c], i, k);
      if names[k] == c && rows[i][k] == Missing {
        assert Position(names, c) == k;
        assert Column(cur, w, k)[i] == cur[i][k];
      }
    }
    RowsEqual(next, cur, w);
  }

  /** A column with a gap has not been imputed yet: it is still the column of the table. */
  lemma GapMeansUntouched(names: seq<string>, rows: seq<Row>, done: seq<string>, j: nat)
    requires HasWidth(rows, |names|) && j < |names|
    requires Missing in Column(Impute(names, rows, done), |names|, j)
    ensures names[j] !in done
    ensures Column(Impute(names, rows, done), |names|, j) == Column(rows, |names|, j)
  {
    var w := |names|;
    var col := Column(Impute(names, rows, done), w, j);
    var i0 :| 0 <= i0 < |col| && col[i0] == Missing;
    ImputeAt(names, rows, done, i0, j);
    forall i | 0 <= i < |rows|
      ensures col[i] == rows[i][j]
    {
      ImputeAt(names, rows, done, i, j);
    }
  }

  /** One cell of the imputation step that fills the column at `j` with `v`. */
  lemma ImputeStepFillsAt(names: seq<string>, rows: seq<Row>, done: seq<string>, j: nat, v: Cell, i: nat, k: nat)
    requires HasWidth(rows, |names|) && Distinct(names)
    requires j < |names| && names[j] !in done
    requires v == FillValue(Column(rows, |names|, j))
    requires i < |rows| && k < |names|
    ensures Impute(names, rows, done + [names[j]])[i][k]
            == FillColumn(Impute(names, rows, done), |names|, j, v)[i][k]
  {
    ImputeAt(names, rows, done, i, k);
    ImputeAt(names, rows, done + [names[j]], i, k);
    ImputeAt(names, rows, done, i, j);
  }

  /**
   * One turn of the imputation loop when `c` is the column at `j` and that
   * column has a gap: the gaps are filled with the fill value of the column
   * as it stands.
   */
  lemma ImputeStepFills(names: seq<string>, rows: seq<Row>, done: seq<string>, c: string, j: nat)
    requires HasWidth(rows, |names|) && Distinct(names)
    requires j < |names| && names[j] == c
    requires Missing in Column(Impute(names, rows, done), |names|, j)
    ensures Impute(names, rows, done + [c])
            == FillColumn(Impute(names, rows, done), |names|, j, FillValue(Column(Impute(names, rows, done), |names|, j)))
  {
    var w := |names|;
    GapMeansUntouched(names, rows, done, j);
    var v := FillValue(Column(rows, w, j));
    var next := Impute(names, rows, done + [c]);
    var filled := FillColumn(Impute(names, rows, done), w, j, v);
    forall i, k | 0 <= i < |rows| && 0 <= k < w
      ensures next[i][k] == filled[i][k]
    {
      ImputeStepFillsAt(names, rows, done, j, v, i, k);
    }
    RowsEqual(next, filled, w);
  }

  /**
   * Lines 37-46: for every categorical feature that is a column and has a
   * gap, fill the gaps with the column's first mode, or with `"Unknown"`
   * when it has none.
   */
  method ImputeCategorical(x: array<Row>, names: seq<string>, categorical: seq<string>)
    requires HasWidth(x[..], |names|) && Distinct(names)
    modifies x
    ensures x[..] == Impute(names, old(x[..]), categorical)
  {
    var w := |names|;
    var cleaned := x[..];
    assert x[..] == Impute(names, cleaned, categorical[..0]) by {
      RowsEqual(x[..], Impute(names, cleaned, []), w);
    }
    for k := 0 to |categorical|
      invariant x[..] == Impute(names, cleaned, categorical[..k])
    {
      assert categorical[..k + 1] == categorical[..k] + [categorical[k]];
      var at := IndexOf(names, categorical[k]);
      if at.Some? && Missing in Column(x[..], w, at.value) {
        var j := at.value;
        var column := Column(x[..], w, j);
        var modeVal := Modes(column);
        var fill := if modeVal != [] then modeVal[0] else Str("Unknown");
        ImputeStepFills(names, cleaned, categorical[..k], categorical[k], j);
        FillColumnInPlace(x, w, j, fill);
      } else {
        ImputeStepKeeps(names, cleaned, categorical[..k], categorical[k]);
      }
    }
    assert categorical[..|categorical|] == categorical;
  }

  /** Line 22: `X = X.copy()`, a fresh array holding the caller's rows. */
  method CopyRows(rows: array<Row>) returns (x: array<Row>)
    ensures fresh(x) && x[..] == rows[..]
  {
    x := new Row[rows.Length];
    forall i | 0 <= i < rows.Length {
      x[i] := rows[i];
    }
  }

  /** Lines 24-28 on the array: the label column taken out of every row. */
  method SplitLabelInPlace(x: array<Row>, columns: seq<string>, lbl: Option<string>) returns (r: Result<Prepared>)
    requires HasWidth(x[..], |columns|)
    modifies x
    ensures r == SplitLabel(Frame(columns, old(x[..])), lbl)
    ensures r.Ok? ==> x[..] == r.value.rows
    ensures r.Err? ==> x[..] == old(x[..])
  {
    var w := |columns|;
    var name := LabelName(lbl);
    if name.None? {
      return Ok(Prepared(columns, x[..], None));
    }
    var k := IndexOf(columns, name.value);
    if k.None? {
      return Err(LabelNotFound(name.value));
    }
    ghost var before := x[..];
    var labels := Column(x[..], w, k.value);
    forall i | 0 <= i < x.Length {
      x[i] := RemoveAt(x[i], k.value);
    }
    assert x[..] == DropColumn(before, w, k.value);
    return Ok(Prepared(RemoveAt(columns, k.value), x[..], Some(labels)));
  }

  /** Line 36: `X.replace("?", np.nan)` on the array. */
  method ReplaceInPlace(x: array<Row>)
    modifies x
    ensures x[..] == ReplaceRows(old(x[..]))
  {
    forall i | 0 <= i < x.Length {
      x[i] := ReplaceRow(x[i]);
    }
  }

  /**
   * Lines 22-46 on the caller's rows: the cleaned and imputed table, or the
   * error that stops the routine before encoding. The caller's array is
   * only read.
   */
  method CleanAndImpute(columns: seq<string>, rows: array<Row>, categorical: seq<string>, lbl: Option<string>)
    returns (r: Result<Prepared>)
    requires HasWidth(rows[..], |columns|)
    ensures r == Prepare(Frame(columns, rows[..]), categorical, lbl)
  {
    if !Distinct(columns) {
      return Err(DuplicateColumns);
    }
    var x := CopyRows(rows);
    var split := SplitLabelInPlace(x, columns, lbl);
    if split.Err? {
      return Err(split.error);
    }
    var names, w := StripAll(split.value.names), |split.value.names|;
    if !Distinct(names) {
      return Err(DuplicateColumns);
    }
    // Lines 32-33.
    StripObjectColumns(x, w);
    // Line 36.
    ReplaceInPlace(x);
    CleanIsStripThenReplace(split.value.rows, w);

    // Lines 37-46.
    ImputeCategorical(x, names, categorical);
    return Ok(Prepared(names, x[..], split.value.labels));
  }

  /**
   * `process_data`: the result, or the error, that the routine produces for
   * the caller's table. The method has no `modifies` clause: the caller's
   * rows are never changed.
   */
  method ProcessData(columns: seq<string>, rows: array<Row>, categorical: seq<string>, lbl: Option<string>,
                     training: bool, encoder: Option<Encoder>, lb: Option<Binarizer>)
    returns (r: Result<Output>)
    requires HasWidth(rows[..], |columns|)
    ensures r == Process(Frame(columns, rows[..]), categorical, lbl, training, encoder, lb)
  {
    var prepared := CleanAndImpute(columns, rows, categorical, lbl);
    if prepared.Err? {
      return Err(prepared.error);
    }
    var names, x, labels := prepared.value.names, prepared.value.rows, prepared.value.labels;
    var absent := FirstAbsent(categorical, names);

    if training {
      // Lines 49-52: fit a fresh encoder and binarizer.
      if absent.Some? {
        return Err(ColumnNotFound(absent.value));
      }
      var enc := FitEncoder(names, x, categorical);
      var y := if labels.Some? then labels.value else [];
      if categorical != [] && x == [] {
        return Err(NoSamples);
      }
      if y == [] {
        return Err(EmptyLabels);
      }
      if !ValidLabels(y) {
        return Err(InvalidLabels);
      }
      var b := FitBinarizer(y);
      // Lines 57-58: kept columns, then the one-hot block.
      return Ok(Output(Encode(names, x, categorical, enc), Binarize(b, y), Some(enc), Some(b)));
    }

    // Lines 54-55: reuse the encoder and binarizer passed in.
    if encoder.None? {
      return Err(NoEncoder);
    }
    if absent.Some? {
      return Err(ColumnNotFound(absent.value));
    }
    if FeatureNames(encoder.value) != categorical {
      return Err(FeatureMismatch);
    }
    if categorical != [] && x == [] {
      return Err(NoSamples);
    }
    var features := Encode(names, x, categorical, encoder.value);
    if labels.None? {
      return Ok(Output(features, [], encoder, lb));
    }
    if lb.None? {
      return Err(NoBinarizer);
    }
    if labels.value == [] {
      return Err(EmptyLabels);
    }
    if !ValidLabels(labels.value) {
      return Err(InvalidLabels);
    }
    return Ok(Output(features, Binarize(lb.value, labels.value), encoder, lb));
  }
}
