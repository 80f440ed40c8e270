/**
 * The feature-processing routine `process_data` as a composition of
 * functions over a table of rows, one function per stage: label split,
 * cleaning, imputation, encoding, label binarization. Every stage is stated
 * cell by cell, independently of the loops that `ProcessData.ProcessData`
 * runs to compute it.
 */
module Data {
  import opened Wrappers
  import opened Strings
  import opened Cells
  import opened Encoders

  type Row = seq<Cell>

  /** A table as the routine receives it: column names and rows of cells. */
  datatype Frame = Frame(columns: seq<string>, rows: seq<Row>)

  /** Every row holds one cell per column. */
  predicate HasWidth(rows: seq<Row>, w: nat) {
    forall i :: 0 <= i < |rows| ==> |rows[i]| == w
  }

  /** Two tables of the same shape that agree cell by cell are equal. */
  lemma RowsEqual(a: seq<Row>, b: seq<Row>, w: nat)
    requires |a| == |b| && HasWidth(a, w) && HasWidth(b, w)
    requires forall i, c :: 0 <= i < |a| && 0 <= c < w ==> a[i][c] == b[i][c]
    ensures a == b
  {
    forall i | 0 <= i < |a|
      ensures a[i] == b[i]
    {
      assert forall c :: 0 <= c < w ==> a[i][c] == b[i][c];
    }
  }

  /** The ways the routine fails instead of returning. */
  datatype Error =
    | DuplicateColumns          // two columns of the same name, before or after the names are stripped
    | LabelNotFound(name: string)     // `X[label]` on a missing column
    | ColumnNotFound(name: string)    // `X[categorical_features]` on a missing column
    | NoEncoder                 // inference without a fitted encoder
    | FeatureMismatch           // the encoder was fitted on other feature names
    | NoBinarizer               // inference with a label but without a fitted binarizer
    | NoSamples                 // fitting or applying the encoder on a table with no rows
    | EmptyLabels               // fitting or applying the binarizer on no labels at all
    | InvalidLabels             // a missing label, or string and integer labels mixed

  datatype Result<T> = Ok(value: T) | Err(error: Error)

  /** What the routine returns: the feature matrix, the labels, and the encoder and binarizer. */
  datatype Output = Output(x: seq<Row>, y: seq<int>, encoder: Option<Encoder>, binarizer: Option<Binarizer>)

  /** `if label:` — an empty name counts as no label at all. */
  function LabelName(lbl: Option<string>): (r: Option<string>)
    ensures r.Some? <==> lbl.Some? && lbl.value != ""
    ensures r.Some? ==> r == lbl
  {
    if lbl.Some? && lbl.value != "" then lbl else None
  }

  /** The first position of `n` in `names`, if any. */
  function IndexOf(names: seq<string>, n: string): (r: Option<nat>)
    ensures r.None? <==> n !in names
    ensures r.Some? ==> r.value < |names| && names[r.value] == n
    ensures r.Some? ==> forall m :: 0 <= m < r.value ==> names[m] != n
  {
    if names == [] then None
    else if names[0] == n then Some(0)
    else
      assert names == [names[0]] + names[1..];
      match IndexOf(names[1..], n)
      case None => None
      case Some(k) => Some(k + 1)
  }

  function Position(names: seq<string>, n: string): (k: nat)
    requires n in names
    ensures k < |names| && names[k] == n
  {
    IndexOf(names, n).value
  }

  function RemoveAt<T>(s: seq<T>, k: nat): (r: seq<T>)
    requires k < |s|
    ensures |r| == |s| - 1
    ensures forall j :: 0 <= j < |r| ==> r[j] == if j < k then s[j] else s[j + 1]
  {
    seq(|s| - 1, j requires 0 <= j < |s| - 1 => if j < k then s[j] else s[j + 1])
  }

  /** `X.drop([label], axis=1)` on the rows. */
  function DropColumn(rows: seq<Row>, w: nat, k: nat): (r: seq<Row>)
    requires HasWidth(rows, w) && k < w
    ensures |r| == |rows| && HasWidth(r, w - 1)
  {
    seq(|rows|, i requires 0 <= i < |rows| => RemoveAt(rows[i], k))
  }

  /** Column `j` as a sequence of cells, top to bottom. */
  function Column(rows: seq<Row>, w: nat, j: nat): (r: seq<Cell>)
    requires HasWidth(rows, w) && j < w
    ensures |r| == |rows|
    ensures forall i :: 0 <= i < |rows| ==> r[i] == rows[i][j]
  {
    seq(|rows|, i requires 0 <= i < |rows| => rows[i][j])
  }

  /** `X.columns.str.strip()`. */
  function StripAll(names: seq<string>): (r: seq<string>)
    ensures |r| == |names|
    ensures forall j :: 0 <= j < |names| ==> r[j] == Strip(names[j])
  {
    seq(|names|, j requires 0 <= j < |names| => Strip(names[j]))
  }

  /** A column of the library's object dtype: one that holds at least one string. */
  predicate IsTextColumn(rows: seq<Row>, w: nat, j: nat)
    requires HasWidth(rows, w) && j < w
  {
    exists i :: 0 <= i < |rows| && rows[i][j].Str?
  }

  /**
   * `X[col].str.strip()` on a cell of an object column: strings are
   * stripped and anything that is not a string becomes missing. Cells of
   * other columns are left alone.
   */
  function StripCell(text: bool, c: Cell): Cell {
    if !text then c
    else match c
      case Str(s) => Str(Strip(s))
      case _ => Missing
  }

  /** `X.replace("?", np.nan)` on one cell. */
  function ReplaceCell(c: Cell): Cell {
    if c == Str("?") then Missing else c
  }

  /** Lines 31-36 on one cell: strip first, then turn `"?"` into missing. */
  function CleanCell(text: bool, c: Cell): Cell {
    ReplaceCell(StripCell(text, c))
  }

  /** Every cell cleaned, with the text-ness of its column judged on the uncleaned table. */
  function CleanRows(rows: seq<Row>, w: nat): (r: seq<Row>)
    requires HasWidth(rows, w)
    ensures |r| == |rows| && HasWidth(r, w)
  {
    seq(|rows|, i requires 0 <= i < |rows| =>
      seq(w, j requires 0 <= j < w => CleanCell(IsTextColumn(rows, w, j), rows[i][j])))
  }

  /**
   * The feature table with its column names and its labels, if any: the
   * result of the label split, of the cleaning of lines 24-36 and, once
   * `Prepare` has run, of the imputation of lines 37-46 too.
   */
  datatype Prepared = Prepared(names: seq<string>, rows: seq<Row>, labels: Option<seq<Cell>>)

  lemma StripAllRemoveAt(names: seq<string>, k: nat)
    requires k < |names|
    ensures StripAll(RemoveAt(names, k)) == RemoveAt(StripAll(names), k)
  {
  }

  lemma RemoveAtDistinct<T>(s: seq<T>, k: nat)
    requires k < |s|
    ensures Distinct(s) ==> Distinct(RemoveAt(s, k))
  {
    var r := RemoveAt(s, k);
    if Distinct(s) {
      forall a, b | 0 <= a < b < |r|
        ensures r[a] != r[b]
      {
        var a' := if a < k then a else a + 1;
        var b' := if b < k then b else b + 1;
        assert r[a] == s[a'] && r[b] == s[b'] && a' < b';
      }
    }
  }

  /**
   * Lines 24-28: split off the label column, looked up under its unstripped
   * name. The names and rows are not cleaned yet.
   */
  function SplitLabel(t: Frame, lbl: Option<string>): (r: Result<Prepared>)
    requires HasWidth(t.rows, |t.columns|)
    ensures r.Ok? ==> |r.value.rows| == |t.rows| && HasWidth(r.value.rows, |r.value.names|)
    ensures r.Ok? && Distinct(t.columns) ==> Distinct(r.value.names)
    ensures r.Ok? && r.value.labels.Some? ==> |r.value.labels.value| == |t.rows|
  {
    var w := |t.columns|;
    match LabelName(lbl)
    case None => Ok(Prepared(t.columns, t.rows, None))
    case Some(l) =>
      match IndexOf(t.columns, l)
      case None => Err(LabelNotFound(l))
      case Some(k) =>
        RemoveAtDistinct(t.columns, k);
        Ok(Prepared(RemoveAt(t.columns, k), DropColumn(t.rows, w, k), Some(Column(t.rows, w, k))))
  }

  /**
   * Lines 22-36: refuse repeated column names, split off the label column,
   * refuse names that coincide once the remaining ones are stripped, then
   * strip the names and clean every cell.
   */
  function Clean(t: Frame, lbl: Option<string>): (r: Result<Prepared>)
    requires HasWidth(t.rows, |t.columns|)
    ensures r.Ok? ==> |r.value.rows| == |t.rows| && HasWidth(r.value.rows, |r.value.names|)
    ensures r.Ok? ==> Distinct(r.value.names)
    ensures r.Ok? && r.value.labels.Some? ==> |r.value.labels.value| == |t.rows|
  {
    if !Distinct(t.columns) then Err(DuplicateColumns)
    else match SplitLabel(t, lbl)
      case Err(e) => Err(e)
      case Ok(s) =>
        if !Distinct(StripAll(s.names)) then Err(DuplicateColumns)
        else Ok(Prepared(StripAll(s.names), CleanRows(s.rows, |s.names|), s.labels))
  }

  /**
   * Lines 40-46: the value that fills the gaps of a column, which is its
   * first mode, or `"Unknown"` when the column has no mode.
   */
  function FillValue(col: seq<Cell>): (v: Cell)
    ensures v != Missing
  {
    var m := Modes(col);
    if m == [] then Str("Unknown")
    else
      assert m[0] in m;
      m[0]
  }

  /** Lines 37-46: every missing cell of a categorical column present in the table replaced by the column's fill value. */
  function Impute(names: seq<string>, rows: seq<Row>, categorical: seq<string>): (r: seq<Row>)
    requires HasWidth(rows, |names|)
    ensures |r| == |rows| && HasWidth(r, |names|)
    ensures forall i, j :: 0 <= i < |rows| && 0 <= j < |names| && names[j] in categorical ==> r[i][j] != Missing
    ensures forall i, j :: 0 <= i < |rows| && 0 <= j < |names| && (names[j] !in categorical || rows[i][j] != Missing) ==>
      r[i][j] == rows[i][j]
  {
    seq(|rows|, i requires 0 <= i < |rows| =>
      seq(|names|, j requires 0 <= j < |names| =>
        if names[j] in categorical && rows[i][j] == Missing
        then FillValue(Column(rows, |names|, j))
        else rows[i][j]))
  }

  /** The first categorical feature that is not a column of the table. */
  function FirstAbsent(categorical: seq<string>, names: seq<string>): (r: Option<string>)
    ensures r.None? <==> forall c :: c in categorical ==> c in names
    ensures r.Some? ==> r.value in categorical && r.value !in names
  {
    if categorical == [] then None
    else if categorical[0] !in names then Some(categorical[0])
    else
      assert categorical == [categorical[0]] + categorical[1..];
      FirstAbsent(categorical[1..], names)
  }

  /** Line 50, fitting: one feature per categorical column, with the distinct values of that column. */
  function FitEncoder(names: seq<string>, rows: seq<Row>, categorical: seq<string>): (enc: Encoder)
    requires HasWidth(rows, |names|)
    requires forall c :: c in categorical ==> c in names
    ensures FeatureNames(enc) == categorical
    ensures Fitted(enc)
  {
    seq(|categorical|, k requires 0 <= k < |categorical| =>
      FitFeature(categorical[k], Column(rows, |names|, Position(names, categorical[k]))))
  }

  /**
   * The positions, ascending, of the columns from `from` on that are not
   * categorical: the columns `X.drop(columns=categorical_features)` keeps.
   */
  function KeptFrom(names: seq<string>, categorical: seq<string>, from: nat): (r: seq<nat>)
    requires from <= |names|
    decreases |names| - from
  {
    if from == |names| then []
    else if names[from] in categorical then KeptFrom(names, categorical, from + 1)
    else [from] + KeptFrom(names, categorical, from + 1)
  }

  function Kept(names: seq<string>, categorical: seq<string>): seq<nat> {
    KeptFrom(names, categorical, 0)
  }

  /** `KeptFrom` lists exactly the non-categorical positions from `from` on, in ascending order. */
  lemma {:induction false} KeptFromIsAscendingNonCategorical(names: seq<string>, categorical: seq<string>, from: nat)
    requires from <= |names|
    ensures forall m :: 0 <= m < |KeptFrom(names, categorical, from)| ==>
      from <= KeptFrom(names, categorical, from)[m] < |names|
    ensures forall a, b :: 0 <= a < b < |KeptFrom(names, categorical, from)| ==>
      KeptFrom(names, categorical, from)[a] < KeptFrom(names, categorical, from)[b]
    ensures forall j :: from <= j < |names| ==>
      (j in KeptFrom(names, categorical, from) <==> names[j] !in categorical)
    decreases |names| - from
  {
    if from < |names| {
      KeptFromIsAscendingNonCategorical(names, categorical, from + 1);
    }
  }

  /** The kept columns of one row, in their original order. */
  function Passthrough(names: seq<string>, categorical: seq<string>, row: Row): (r: Row)
    requires |row| == |names|
    ensures |r| == |Kept(names, categorical)|
  {
    var k := Kept(names, categorical);
    KeptFromIsAscendingNonCategorical(names, categorical, 0);
    seq(|k|, m requires 0 <= m < |k| => row[k[m]])
  }

  /** The one-hot entries as cells of the output matrix. */
  function Nums(r: seq<int>): (cells: Row)
    ensures |cells| == |r|
    ensures forall k :: 0 <= k < |r| ==> cells[k] == Num(r[k])
  {
    seq(|r|, k requires 0 <= k < |r| => Num(r[k]))
  }

  /** The categorical values of one row, in the order of the categorical features. */
  function CategoricalValues(names: seq<string>, categorical: seq<string>, row: Row): (vs: Row)
    requires |row| == |names|
    requires forall c :: c in categorical ==> c in names
    ensures |vs| == |categorical|
  {
    seq(|categorical|, k requires 0 <= k < |categorical| => row[Position(names, categorical[k])])
  }

  /** Lines 57-58 on one row: the kept columns, then the encoder's blocks. */
  function EncodeRecord(names: seq<string>, categorical: seq<string>, enc: Encoder, row: Row): Row
    requires |row| == |names|
    requires forall c :: c in categorical ==> c in names
    requires |enc| == |categorical|
  {
    Passthrough(names, categorical, row) + Nums(EncodeRow(enc, CategoricalValues(names, categorical, row)))
  }

  function Encode(names: seq<string>, rows: seq<Row>, categorical: seq<string>, enc: Encoder): (x: seq<Row>)
    requires HasWidth(rows, |names|)
    requires forall c :: c in categorical ==> c in names
    requires |enc| == |categorical|
    ensures |x| == |rows|
    ensures forall i :: 0 <= i < |rows| ==> |x[i]| == |Kept(names, categorical)| + Width(enc)
  {
    seq(|rows|, i requires 0 <= i < |rows| => EncodeRecord(names, categorical, enc, rows[i]))
  }

  /** Lines 22-46: the table cleaned and imputed, ready to be encoded, or the error met on the way. */
  function Prepare(t: Frame, categorical: seq<string>, lbl: Option<string>): (r: Result<Prepared>)
    requires HasWidth(t.rows, |t.columns|)
    ensures r.Ok? ==> |r.value.rows| == |t.rows| && HasWidth(r.value.rows, |r.value.names|)
    ensures r.Ok? ==> Distinct(r.value.names)
    ensures r.Ok? && r.value.labels.Some? ==> |r.value.labels.value| == |t.rows|
  {
    match Clean(t, lbl)
    case Err(e) => Err(e)
    case Ok(c) => Ok(Prepared(c.names, Impute(c.names, c.rows, categorical), c.labels))
  }

  /**
   * Lines 48-52 and 57-58, training mode: fit a fresh encoder on the
   * categorical columns and a fresh binarizer on the labels, then encode.
   */
  function Train(c: Prepared, categorical: seq<string>): (r: Result<Output>)
    requires HasWidth(c.rows, |c.names|)
    ensures r.Ok? ==> r.value.encoder.Some? && r.value.binarizer.Some?
    ensures r.Ok? ==> Fitted(r.value.encoder.value) && FeatureNames(r.value.encoder.value) == categorical
    ensures r.Ok? ==> StrictlySorted(r.value.binarizer.value.classes)
    ensures r.Ok? ==> |r.value.x| == |c.rows|
  {
    match FirstAbsent(categorical, c.names)
    case Some(f) => Err(ColumnNotFound(f))
    case None =>
      var enc := FitEncoder(c.names, c.rows, categorical);
      var labels := if c.labels.Some? then c.labels.value else [];
      if categorical != [] && c.rows == [] then Err(NoSamples)
      else if labels == [] then Err(EmptyLabels)
      else if !ValidLabels(labels) then Err(InvalidLabels)
      else
        var b := FitBinarizer(labels);
        Ok(Output(Encode(c.names, c.rows, categorical, enc), Binarize(b, labels), Some(enc), Some(b)))
  }

  /**
   * Lines 53-58, inference mode: encode with the encoder passed in, and
   * binarize the labels, if there are any, with the binarizer passed in.
   */
  function Infer(c: Prepared, categorical: seq<string>, encoder: Option<Encoder>, lb: Option<Binarizer>): (r: Result<Output>)
    requires HasWidth(c.rows, |c.names|)
    ensures r.Ok? ==> encoder.Some? && r.value.encoder == encoder && r.value.binarizer == lb
    ensures r.Ok? ==> FeatureNames(encoder.value) == categorical && forall f :: f in categorical ==> f in c.names
    ensures r.Ok? ==> r.value.x == Encode(c.names, c.rows, categorical, encoder.value)
    ensures r.Ok? && c.labels.None? ==> r.value.y == []
    ensures r.Ok? && c.labels.Some? ==>
      && lb.Some? && c.labels.value != [] && ValidLabels(c.labels.value)
      && r.value.y == Binarize(lb.value, c.labels.value)
  {
    if encoder.None? then Err(NoEncoder)
    else match FirstAbsent(categorical, c.names)
      case Some(f) => Err(ColumnNotFound(f))
      case None =>
        if FeatureNames(encoder.value) != categorical then Err(FeatureMismatch)
        else if categorical != [] && c.rows == [] then Err(NoSamples)
        else
          var x := Encode(c.names, c.rows, categorical, encoder.value);
          match c.labels
          case None => Ok(Output(x, [], encoder, lb))
          case Some(labels) =>
            if lb.None? then Err(NoBinarizer)
            else if labels == [] then Err(EmptyLabels)
            else if !ValidLabels(labels) then Err(InvalidLabels)
            else Ok(Output(x, Binarize(lb.value, labels), encoder, lb))
  }

  /**
   * `process_data(X, categorical_features, label, training, encoder, lb)`:
   * the table is prepared, then encoded in training or in inference mode.
   */
  function Process(t: Frame, categorical: seq<string>, lbl: Option<string>, training: bool,
                   encoder: Option<Encoder>, lb: Option<Binarizer>): (r: Result<Output>)
    requires HasWidth(t.rows, |t.columns|)
    ensures r.Ok? ==> |r.value.x| == |t.rows|
    ensures r.Ok? && training ==> r.value.encoder.Some? && r.value.binarizer.Some?
    ensures r.Ok? && !training ==> r.value.encoder == encoder && r.value.binarizer == lb
  {
    match Prepare(t, categorical, lbl)
    case Err(e) => Err(e)
    case Ok(c) => if training then Train(c, categorical) else Infer(c, categorical, encoder, lb)
  }
}
