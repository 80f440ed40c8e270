/**
 * What `process_data` promises its callers, stated over `Data.Process` and
 * the stage functions it is built from: the label split, the cleaning and
 * imputation rules, the shape of the output, the one-hot blocks and the
 * agreement between training and inference.
 */
module Properties {
  import opened Wrappers
  import opened Strings
  import opened Cells
  import opened Encoders
  import opened Data

  // ---------------------------------------------------------------------
  // Label split (lines 24-28)
  // ---------------------------------------------------------------------

  /**
   * A non-empty label naming a column is split off: its cells, top to
   * bottom, become the labels, and the other names, stripped, are the
   * feature columns. When no two names coincide once stripped, the split
   * succeeds and the label's stripped name is not among the features.
   */
  lemma LabelIsSplitOff(t: Frame, lbl: string)
    requires HasWidth(t.rows, |t.columns|)
    requires lbl != "" && lbl in t.columns
    ensures Clean(t, Some(lbl)).Ok? ==>
            var c := Clean(t, Some(lbl)).value;
            var k := Position(t.columns, lbl);
            && c.labels == Some(Column(t.rows, |t.columns|, k))
            && c.names == RemoveAt(StripAll(t.columns), k)
            && HasWidth(c.rows, |t.columns| - 1)
    ensures Distinct(StripAll(t.columns)) ==>
            Clean(t, Some(lbl)).Ok? && Strip(lbl) !in Clean(t, Some(lbl)).value.names
  {
    var k := Position(t.columns, lbl);
    var w := |t.columns|;
    StripAllRemoveAt(t.columns, k);
    assert SplitLabel(t, Some(lbl)) == Ok(Prepared(RemoveAt(t.columns, k), DropColumn(t.rows, w, k), Some(Column(t.rows, w, k))));
    if Distinct(StripAll(t.columns)) {
      StrippedDistinctIsDistinct(t.columns);
      RemoveAtDistinct(StripAll(t.columns), k);
      RemovedIsAbsent(StripAll(t.columns), k);
    }
  }

  /** Names that stay apart once stripped were apart before. */
  lemma StrippedDistinctIsDistinct(names: seq<string>)
    requires Distinct(StripAll(names))
    ensures Distinct(names)
  {
    forall a, b | 0 <= a < b < |names|
      ensures names[a] != names[b]
    {
      assert StripAll(names)[a] != StripAll(names)[b];
    }
  }

  /**
   * The stripped names are compared only once the label is gone: a column
   * `" y"` beside the label `"y"` becomes the feature `"y"`.
   */
  lemma LabelGoneBeforeNamesCompared(t: Frame)
    requires t == Frame(["y", " y", "c"], [[Num(0), Num(1), Str("a")]])
    ensures Clean(t, Some("y")).Ok?
    ensures Clean(t, Some("y")).value.names == ["y", "c"]
    ensures Clean(t, Some("y")).value.labels == Some([Num(0)])
  {
    assert Strip(" y") == "y" by {
      assert LeadEnd(" y", 1) == 1;
      assert LeadEnd(" y", 0) == 1;
      assert TrailStart(" y", 1, 2) == 2;
    }
    StripStrippedIsIdentity("c");
    StripStrippedIsIdentity("y");
    assert IndexOf(t.columns, "y") == Some(0);
    var s := SplitLabel(t, Some("y")).value;
    assert s.names == [" y", "c"];
    assert StripAll(s.names) == ["y", "c"];
    assert s.labels.value == Column(t.rows, 3, 0);
    assert Column(t.rows, 3, 0) == [Num(0)];
    assert Clean(t, Some("y")) == Ok(Prepared(StripAll(s.names), CleanRows(s.rows, 2), s.labels));
  }

  /** Taking position `k` out of a sequence without duplicates removes its element altogether. */
  lemma RemovedIsAbsent<T>(s: seq<T>, k: nat)
    requires k < |s| && Distinct(s)
    ensures s[k] !in RemoveAt(s, k)
  {
    var r := RemoveAt(s, k);
    forall m | 0 <= m < |r|
      ensures r[m] != s[k]
    {
      var m' := if m < k then m else m + 1;
      assert r[m] == s[m'];
    }
  }

  /** Without a label, cleaning yields no labels and inference returns an empty `y`. */
  lemma NoLabelNoTargets(t: Frame, categorical: seq<string>, lbl: Option<string>,
                         encoder: Option<Encoder>, lb: Option<Binarizer>)
    requires HasWidth(t.rows, |t.columns|)
    requires LabelName(lbl).None?
    ensures Clean(t, lbl).Ok? ==> Clean(t, lbl).value.labels.None?
    ensures Process(t, categorical, lbl, false, encoder, lb).Ok? ==>
      Process(t, categorical, lbl, false, encoder, lb).value.y == []
  {
  }

  /** `if label:` — the routine given an empty label name behaves exactly as with no label, in both modes. */
  lemma EmptyLabelIsNoLabel(t: Frame, categorical: seq<string>, training: bool,
                            encoder: Option<Encoder>, lb: Option<Binarizer>)
    requires HasWidth(t.rows, |t.columns|)
    ensures Process(t, categorical, Some(""), training, encoder, lb) == Process(t, categorical, None, training, encoder, lb)
  {
  }

  /** Training succeeds only with a label and at least one row: the binarizer cannot be fitted on nothing. */
  lemma TrainingNeedsLabels(t: Frame, categorical: seq<string>, lbl: Option<string>,
                            encoder: Option<Encoder>, lb: Option<Binarizer>)
    requires HasWidth(t.rows, |t.columns|)
    requires Process(t, categorical, lbl, true, encoder, lb).Ok?
    ensures LabelName(lbl).Some? && |t.rows| > 0
  {
    var c := Prepare(t, categorical, lbl).value;
    assert c.labels.Some?;
    var cl := Clean(t, lbl).value;
    assert c.labels == cl.labels;
    var s := SplitLabel(t, lbl).value;
    assert cl.labels == s.labels;
    assert |s.labels.value| == |t.rows|;
  }

  /**
   * A table with no rows stops at the encoder once there is a categorical
   * feature: fitting it in training and applying it in inference both fail
   * before the binarizer is reached.
   */
  lemma NoRowsStopAtEncoder(c: Prepared, categorical: seq<string>, encoder: Encoder, lb: Option<Binarizer>)
    requires HasWidth(c.rows, |c.names|)
    requires c.rows == [] && categorical != []
    requires forall f :: f in categorical ==> f in c.names
    ensures Train(c, categorical) == Err(NoSamples)
    ensures FeatureNames(encoder) == categorical ==> Infer(c, categorical, Some(encoder), lb) == Err(NoSamples)
  {
  }

  // ---------------------------------------------------------------------
  // Cleaning (lines 31-36)
  // ---------------------------------------------------------------------

  /** Every cleaned column name has no leading or trailing whitespace. */
  lemma CleanedNamesStripped(t: Frame, lbl: Option<string>)
    requires HasWidth(t.rows, |t.columns|)
    requires Clean(t, lbl).Ok?
    ensures forall j :: 0 <= j < |Clean(t, lbl).value.names| ==> Stripped(Clean(t, lbl).value.names[j])
  {
    var s := SplitLabel(t, lbl).value;
    assert Clean(t, lbl).value.names == StripAll(s.names);
  }

  /** A cleaned cell that is a string is stripped and is not `"?"`. */
  lemma CleanCellString(text: bool, c: Cell)
    requires !text ==> !c.Str?
    ensures CleanCell(text, c).Str? ==> Stripped(CleanCell(text, c).s) && CleanCell(text, c).s != "?"
  {
  }

  /**
   * Stripping comes before the `"?"` replacement: in a text column a string
   * becomes missing exactly when it is `"?"` once stripped, so `" ? "` is
   * missing too.
   */
  lemma QuestionMarkAfterStrip(s: string)
    ensures CleanCell(true, Str(s)) == Missing <==> Strip(s) == "?"
  {
  }

  /** The cell `" ? "` of a text column is cleaned to a missing value. */
  lemma SpacedQuestionMarkIsMissing()
    ensures CleanCell(true, Str(" ? ")) == Missing
  {
    var s := " ? ";
    assert IsSpace(s[0]) && !IsSpace(s[1]) && IsSpace(s[2]);
    assert LeadEnd(s, 0) == 1 by {
      assert LeadEnd(s, 1) == 1;
    }
    assert TrailStart(s, 1, 3) == 2 by {
      assert TrailStart(s, 1, 2) == 2;
    }
    assert s[1..2] == "?";
  }

  /**
   * After cleaning, every string cell is stripped and is not `"?"`; a
   * column that held a string holds only strings and missing cells; a
   * column that held no string is unchanged.
   */
  lemma CleanedCells(t: Frame, lbl: Option<string>)
    requires HasWidth(t.rows, |t.columns|)
    requires Clean(t, lbl).Ok?
    ensures var s := SplitLabel(t, lbl).value;
            var c := Clean(t, lbl).value;
            forall i, j :: 0 <= i < |c.rows| && 0 <= j < |c.names| ==>
              && (c.rows[i][j].Str? ==> Stripped(c.rows[i][j].s) && c.rows[i][j].s != "?")
              && (IsTextColumn(s.rows, |s.names|, j) ==> c.rows[i][j].Str? || c.rows[i][j] == Missing)
              && (!IsTextColumn(s.rows, |s.names|, j) ==> c.rows[i][j] == s.rows[i][j])
  {
    var s := SplitLabel(t, lbl).value;
    var c := Clean(t, lbl).value;
    var w := |s.names|;
    assert c.rows == CleanRows(s.rows, w);
    forall i, j | 0 <= i < |c.rows| && 0 <= j < |c.names|
      ensures && (c.rows[i][j].Str? ==> Stripped(c.rows[i][j].s) && c.rows[i][j].s != "?")
              && (IsTextColumn(s.rows, w, j) ==> c.rows[i][j].Str? || c.rows[i][j] == Missing)
              && (!IsTextColumn(s.rows, w, j) ==> c.rows[i][j] == s.rows[i][j])
    {
      var text := IsTextColumn(s.rows, w, j);
      assert c.rows[i][j] == CleanCell(text, s.rows[i][j]);
      if !text {
        assert !s.rows[i][j].Str?;
      }
      CleanCellString(text, s.rows[i][j]);
    }
  }

  // ---------------------------------------------------------------------
  // Imputation (lines 37-46)
  // ---------------------------------------------------------------------

  /**
   * A gap of a categorical column is filled with a most frequent
   * non-missing value of that column, the least one among ties (`mode()[0]`),
   * and with `"Unknown"` when the column has no non-missing value at all.
   */
  lemma ImputeFillsWithFirstMode(names: seq<string>, rows: seq<Row>, categorical: seq<string>, i: nat, j: nat)
    requires HasWidth(rows, |names|)
    requires i < |rows| && j < |names| && names[j] in categorical && rows[i][j] == Missing
    ensures var col := Column(rows, |names|, j);
            var v := Impute(names, rows, categorical)[i][j];
            && ((exists m :: 0 <= m < |col| && col[m] != Missing) ==>
                  IsMode(col, v) && forall u :: IsMode(col, u) && u != v ==> Less(v, u))
            && ((forall m :: 0 <= m < |col| ==> col[m] == Missing) ==> v == Str("Unknown"))
  {
    var col := Column(rows, |names|, j);
    var v := Impute(names, rows, categorical)[i][j];
    assert v == FillValue(col);
    if m :| 0 <= m < |col| && col[m] != Missing {
      assert col[m] in col;
      FirstModeIsLeast(col);
    } else {
      assert forall u :: u in col ==> u == Missing;
    }
  }

  /**
   * The table of the imputation test: the `"?"` of `col1` becomes a gap,
   * and the gap is filled with `"A"`, the most frequent value of the column.
   */
  lemma ImputationExample()
    ensures var t := Frame(["col1", "col2"], ExampleRows());
            && Prepare(t, ["col1"], None).Ok?
            && Prepare(t, ["col1"], None).value.rows[2] == [Str("A"), Num(3)]
  {
    var t := Frame(["col1", "col2"], ExampleRows());
    ExampleNames();
    ExampleCleaned();
    assert Clean(t, None) == Ok(Prepared(t.columns, ExampleCleanRows(), None));
    assert Column(ExampleCleanRows(), 2, 0) == [Str("A"), Str("B"), Missing, Str("A")];
    assert "col1" in ["col1"] && "col2" !in ["col1"];
    ExampleImputed(t.columns, ExampleCleanRows(), ["col1"]);
  }

  function ExampleRows(): seq<Row> {
    [[Str("A"), Num(1)], [Str("B"), Num(2)], [Str("?"), Num(3)], [Str("A"), Num(4)]]
  }

  function ExampleCleanRows(): seq<Row> {
    [[Str("A"), Num(1)], [Str("B"), Num(2)], [Missing, Num(3)], [Str("A"), Num(4)]]
  }

  lemma ExampleNames()
    ensures StripAll(["col1", "col2"]) == ["col1", "col2"]
  {
    StripStrippedIsIdentity("col1");
    StripStrippedIsIdentity("col2");
  }

  lemma ExampleCleaned()
    ensures CleanRows(ExampleRows(), 2) == ExampleCleanRows()
  {
    var rows := ExampleRows();
    StripStrippedIsIdentity("A");
    StripStrippedIsIdentity("B");
    StripStrippedIsIdentity("?");
    assert IsTextColumn(rows, 2, 0) by {
      assert rows[0][0].Str?;
    }
    assert !IsTextColumn(rows, 2, 1);
    RowsEqual(CleanRows(rows, 2), ExampleCleanRows(), 2);
  }

  lemma ExampleImputed(names: seq<string>, rows: seq<Row>, categorical: seq<string>)
    requires |names| == 2 && names[0] in categorical && names[1] !in categorical
    requires HasWidth(rows, 2) && |rows| == 4 && rows[2] == [Missing, Num(3)]
    requires Column(rows, 2, 0) == [Str("A"), Str("B"), Missing, Str("A")]
    ensures Impute(names, rows, categorical)[2] == [Str("A"), Num(3)]
  {
    var r := Impute(names, rows, categorical)[2];
    ExampleMode(Column(rows, 2, 0));
    assert r[0] == FillValue(Column(rows, 2, 0));
    assert r[1] == rows[2][1];
  }

  lemma ExampleMode(col: seq<Cell>)
    requires col == [Str("A"), Str("B"), Missing, Str("A")]
    ensures FillValue(col) == Str("A")
  {
    var m := Modes(col);
    assert col[0] in col;
    var v := m[0];
    assert v in m;
    assert IsMode(col, v);
    assert v == Str("A") || v == Str("B");
    assert multiset(col)[Str("A")] == 2 && multiset(col)[Str("B")] == 1;
  }

  // ---------------------------------------------------------------------
  // Output shape (lines 57-58)
  // ---------------------------------------------------------------------

  /**
   * One output row: the kept columns in their original order, then for
   * each categorical feature, at its offset, the one-hot block of the
   * row's value.
   */
  lemma {:induction false} EncodeRecordLayout(names: seq<string>, categorical: seq<string>, enc: Encoder, row: Row)
    requires |row| == |names|
    requires forall c :: c in categorical ==> c in names
    requires |enc| == |categorical|
    ensures var r := EncodeRecord(names, categorical, enc, row);
            var kept := Kept(names, categorical);
            && |r| == |kept| + Width(enc)
            && (forall m :: 0 <= m < |kept| ==> kept[m] < |row| && r[m] == row[kept[m]])
            && (forall k :: 0 <= k < |enc| ==> |kept| + Offset(enc, k) + |enc[k].categories| <= |r|)
            && (forall k, q :: 0 <= k < |enc| && 0 <= q < |enc[k].categories| ==>
                  r[|kept| + Offset(enc, k) + q] == Num(OneHot(row[Position(names, categorical[k])], enc[k].categories)[q]))
  {
    PassthroughLayout(names, categorical, enc, row);
    forall k | 0 <= k < |enc|
      ensures |Kept(names, categorical)| + Offset(enc, k) + |enc[k].categories| <= |EncodeRecord(names, categorical, enc, row)|
      ensures forall q :: 0 <= q < |enc[k].categories| ==>
                EncodeRecord(names, categorical, enc, row)[|Kept(names, categorical)| + Offset(enc, k) + q]
                == Num(OneHot(row[Position(names, categorical[k])], enc[k].categories)[q])
    {
      EncodeRecordBlock(names, categorical, enc, row, k);
    }
  }

  /** The first columns of one output row are the kept columns of the row, in order. */
  lemma {:induction false} PassthroughLayout(names: seq<string>, categorical: seq<string>, enc: Encoder, row: Row)
    requires |row| == |names|
    requires forall c :: c in categorical ==> c in names
    requires |enc| == |categorical|
    ensures var r := EncodeRecord(names, categorical, enc, row);
            var kept := Kept(names, categorical);
            && |r| == |kept| + Width(enc)
            && (forall m :: 0 <= m < |kept| ==> kept[m] < |row| && r[m] == row[kept[m]])
  {
    KeptFromIsAscendingNonCategorical(names, categorical, 0);
    var pass := Passthrough(names, categorical, row);
    var blocks := EncodeRow(enc, CategoricalValues(names, categorical, row));
    assert EncodeRecord(names, categorical, enc, row) == pass + Nums(blocks);
  }

  /** Feature `k`'s block of one output row, after the kept columns and the blocks before it. */
  lemma EncodeRecordBlock(names: seq<string>, categorical: seq<string>, enc: Encoder, row: Row, k: nat)
    requires |row| == |names|
    requires forall c :: c in categorical ==> c in names
    requires |enc| == |categorical| && k < |enc|
    ensures var r := EncodeRecord(names, categorical, enc, row);
            var s := |Kept(names, categorical)| + Offset(enc, k);
            && s + |enc[k].categories| <= |r|
            && forall q :: 0 <= q < |enc[k].categories| ==>
                 r[s + q] == Num(OneHot(row[Position(names, categorical[k])], enc[k].categories)[q])
  {
    var vs := CategoricalValues(names, categorical, row);
    assert vs[k] == row[Position(names, categorical[k])];
    EncodeRowBlock(enc, vs, k);
    CellsAfterPrefix(Passthrough(names, categorical, row), EncodeRow(enc, vs), Offset(enc, k), |enc[k].categories|,
                     OneHot(vs[k], enc[k].categories));
  }

  /** A run of `blocks` keeps its place, shifted by `|pass|`, once `pass` is put before the blocks as cells. */
  lemma CellsAfterPrefix(pass: Row, blocks: seq<int>, o: nat, n: nat, part: seq<int>)
    requires o + n <= |blocks| && blocks[o..o + n] == part
    ensures |pass| + o + n <= |pass + Nums(blocks)|
    ensures forall q :: 0 <= q < n ==> (pass + Nums(blocks))[|pass| + o + q] == Num(part[q])
  {
    forall q | 0 <= q < n
      ensures (pass + Nums(blocks))[|pass| + o + q] == Num(part[q])
    {
      assert blocks[o..o + n][q] == blocks[o + q];
    }
  }

  /**
   * `o` holds the prepared rows encoded with `o`'s own encoder, which has
   * one feature per categorical feature, in order.
   */
  predicate Encoded(c: Prepared, categorical: seq<string>, o: Output)
    requires HasWidth(c.rows, |c.names|)
  {
    && o.encoder.Some?
    && FeatureNames(o.encoder.value) == categorical
    && (forall f :: f in categorical ==> f in c.names)
    && o.x == Encode(c.names, c.rows, categorical, o.encoder.value)
  }

  /** Training encodes the prepared rows with the encoder it fits and returns. */
  lemma TrainEncodes(c: Prepared, categorical: seq<string>)
    requires HasWidth(c.rows, |c.names|)
    requires Train(c, categorical).Ok?
    ensures Encoded(c, categorical, Train(c, categorical).value)
  {
  }

  /** Inference encodes the prepared rows with the encoder it is given and returns. */
  lemma InferEncodes(c: Prepared, categorical: seq<string>, encoder: Option<Encoder>, lb: Option<Binarizer>)
    requires HasWidth(c.rows, |c.names|)
    requires Infer(c, categorical, encoder, lb).Ok?
    ensures Encoded(c, categorical, Infer(c, categorical, encoder, lb).value)
  {
  }

  /**
   * The width of every output row is fixed by the encoder: the number of
   * kept columns plus the number of categories over all features.
   */
  lemma OutputWidth(c: Prepared, categorical: seq<string>, o: Output, i: nat)
    requires HasWidth(c.rows, |c.names|) && Encoded(c, categorical, o)
    requires i < |c.rows|
    ensures i < |o.x| && |o.x[i]| == |Kept(c.names, categorical)| + Width(o.encoder.value)
  {
    EncodeRecordLayout(c.names, categorical, o.encoder.value, c.rows[i]);
  }

  // ---------------------------------------------------------------------
  // One-hot blocks (lines 48-54)
  // ---------------------------------------------------------------------

  /** A block with a single `1` and `0` everywhere else. */
  predicate ExactlyOneHot(block: seq<Cell>) {
    exists p :: 0 <= p < |block| && block[p] == Num(1) &&
      forall q :: 0 <= q < |block| && q != p ==> block[q] == Num(0)
  }

  predicate AllZeros(block: seq<Cell>) {
    forall q :: 0 <= q < |block| ==> block[q] == Num(0)
  }

  /**
   * With distinct categories, a block holding the one-hot entries of a value
   * that is a category has a single `1`; that of any other value is all zeros.
   */
  lemma OneHotBlock(v: Cell, categories: seq<Cell>, b: seq<Cell>)
    requires Distinct(categories)
    requires |b| == |categories| && forall q :: 0 <= q < |b| ==> b[q] == Num(OneHot(v, categories)[q])
    ensures v in categories ==> ExactlyOneHot(b)
    ensures v !in categories ==> AllZeros(b)
  {
    if v in categories {
      var p :| 0 <= p < |categories| && categories[p] == v;
      assert b[p] == Num(1);
      forall q | 0 <= q < |b| && q != p
        ensures b[q] == Num(0)
      {
        assert categories[q] != categories[p];
      }
    }
  }

  /** The block of feature `k` in encoded row `i`: the one-hot entries of the row's value for that feature. */
  function Block(c: Prepared, categorical: seq<string>, o: Output, i: nat, k: nat): (b: seq<Cell>)
    requires HasWidth(c.rows, |c.names|) && Encoded(c, categorical, o)
    requires i < |c.rows| && k < |categorical|
    ensures var cats := o.encoder.value[k].categories;
            && |b| == |cats|
            && forall q :: 0 <= q < |b| ==> b[q] == Num(OneHot(c.rows[i][Position(c.names, categorical[k])], cats)[q])
  {
    var enc := o.encoder.value;
    EncodeRecordBlock(c.names, categorical, enc, c.rows[i], k);
    var s := |Kept(c.names, categorical)| + Offset(enc, k);
    seq(|enc[k].categories|, q requires 0 <= q < |enc[k].categories| => o.x[i][s + q])
  }

  /**
   * In training mode the categories of each feature are exactly the values
   * of its (imputed) column, in ascending order, so every output row has a
   * single `1` in every feature's block.
   */
  lemma TrainingBlocksHaveOneOne(c: Prepared, categorical: seq<string>, i: nat, k: nat)
    requires HasWidth(c.rows, |c.names|)
    requires Train(c, categorical).Ok?
    requires i < |c.rows| && k < |categorical|
    ensures var o := Train(c, categorical).value;
            var col := Column(c.rows, |c.names|, Position(c.names, categorical[k]));
            && Encoded(c, categorical, o)
            && StrictlySorted(o.encoder.value[k].categories)
            && (forall v :: v in o.encoder.value[k].categories <==> v in col)
            && ExactlyOneHot(Block(c, categorical, o, i, k))
  {
    var o := Train(c, categorical).value;
    TrainEncodes(c, categorical);
    var enc := o.encoder.value;
    assert enc == FitEncoder(c.names, c.rows, categorical);
    var j := Position(c.names, categorical[k]);
    var col := Column(c.rows, |c.names|, j);
    assert enc[k] == FitFeature(categorical[k], col);
    assert col[i] == c.rows[i][j];
    SortedIsDistinct(enc[k].categories);
    OneHotBlock(c.rows[i][j], enc[k].categories, Block(c, categorical, o, i, k));
  }

  /**
   * In inference mode the encoder passed in is used as given: the block of a
   * value it never saw is all zeros (`handle_unknown="ignore"`), and with
   * the ascending categories fitting produces, the block of a known value
   * has a single `1`.
   */
  lemma InferenceBlocks(c: Prepared, categorical: seq<string>, encoder: Encoder, lb: Option<Binarizer>, i: nat, k: nat)
    requires HasWidth(c.rows, |c.names|)
    requires Infer(c, categorical, Some(encoder), lb).Ok?
    requires i < |c.rows| && k < |categorical|
    ensures var o := Infer(c, categorical, Some(encoder), lb).value;
            var v := c.rows[i][Position(c.names, categorical[k])];
            && Encoded(c, categorical, o) && o.encoder == Some(encoder)
            && (v !in encoder[k].categories ==> AllZeros(Block(c, categorical, o, i, k)))
            && (v in encoder[k].categories && Fitted(encoder) ==> ExactlyOneHot(Block(c, categorical, o, i, k)))
  {
    InferEncodes(c, categorical, Some(encoder), lb);
    var o := Infer(c, categorical, Some(encoder), lb).value;
    var v := c.rows[i][Position(c.names, categorical[k])];
    var b := Block(c, categorical, o, i, k);
    if v !in encoder[k].categories {
      forall q | 0 <= q < |b|
        ensures b[q] == Num(0)
      {
      }
    } else if Fitted(encoder) {
      SortedIsDistinct(encoder[k].categories);
      OneHotBlock(v, encoder[k].categories, b);
    }
  }

  // ---------------------------------------------------------------------
  // Labels (lines 51-52, 55)
  // ---------------------------------------------------------------------

  /**
   * In training mode the binarizer is fitted on the labels, which are not
   * empty: it records the distinct labels in ascending order, and `y` is
   * the labels transformed by it.
   */
  lemma TrainingBinarizer(c: Prepared, categorical: seq<string>)
    requires HasWidth(c.rows, |c.names|)
    requires Train(c, categorical).Ok?
    ensures var o := Train(c, categorical).value;
            && c.labels.Some? && c.labels.value != [] && ValidLabels(c.labels.value)
            && o.binarizer == Some(FitBinarizer(c.labels.value))
            && StrictlySorted(o.binarizer.value.classes)
            && (forall v :: v in o.binarizer.value.classes <==> v in c.labels.value)
            && o.y == Binarize(o.binarizer.value, c.labels.value)
  {
  }

  /**
   * With at most two classes, training gives one entry of `y` per label: 1
   * exactly for the second class.
   */
  lemma TrainingLabelsBinary(c: Prepared, categorical: seq<string>)
    requires HasWidth(c.rows, |c.names|)
    requires Train(c, categorical).Ok?
    requires |Train(c, categorical).value.binarizer.value.classes| <= 2
    ensures var o := Train(c, categorical).value;
            var labels, classes := c.labels.value, o.binarizer.value.classes;
            |o.y| == |labels| &&
            forall i :: 0 <= i < |labels| ==> o.y[i] == if |classes| == 2 && labels[i] == classes[1] then 1 else 0
  {
    TrainingBinarizer(c, categorical);
    var o := Train(c, categorical).value;
    var labels, b := c.labels.value, o.binarizer.value;
    assert !Multiclass(b, labels);
    BinarizeBinary(b, labels);
  }

  /**
   * With three or more classes, training turns each label into its one-hot
   * row over the classes, the rows one after the other in `y`.
   */
  lemma TrainingLabelsMulticlass(c: Prepared, categorical: seq<string>, i: nat)
    requires HasWidth(c.rows, |c.names|)
    requires Train(c, categorical).Ok?
    requires |Train(c, categorical).value.binarizer.value.classes| >= 3
    requires c.labels.Some? && i < |c.labels.value|
    ensures var o := Train(c, categorical).value;
            var labels, classes := c.labels.value, o.binarizer.value.classes;
            |o.y| == |labels| * |classes| &&
            i * |classes| + |classes| <= |o.y| && o.y[i * |classes|..i * |classes| + |classes|] == OneHot(labels[i], classes)
  {
    TrainingBinarizer(c, categorical);
    var o := Train(c, categorical).value;
    var labels, b := c.labels.value, o.binarizer.value;
    assert Multiclass(b, labels);
    BinarizeRow(b, labels, i);
  }

  /**
   * In inference the labels are transformed by the binarizer passed in. As
   * a binary target each label gives one entry of `y`: 1 exactly for the
   * second of two classes.
   */
  lemma InferenceLabelsBinary(c: Prepared, categorical: seq<string>, encoder: Option<Encoder>, lb: Option<Binarizer>)
    requires HasWidth(c.rows, |c.names|)
    requires Infer(c, categorical, encoder, lb).Ok? && c.labels.Some?
    requires !Multiclass(lb.value, c.labels.value)
    ensures var y, labels, classes := Infer(c, categorical, encoder, lb).value.y, c.labels.value, lb.value.classes;
            |y| == |labels| &&
            forall i :: 0 <= i < |labels| ==> y[i] == if |classes| == 2 && labels[i] == classes[1] then 1 else 0
  {
  }

  /**
   * As a multiclass target in inference, label `i` becomes its one-hot row
   * over the classes of the binarizer passed in, at its place in `y`.
   */
  lemma InferenceLabelsMulticlass(c: Prepared, categorical: seq<string>, encoder: Option<Encoder>, lb: Option<Binarizer>, i: nat)
    requires HasWidth(c.rows, |c.names|)
    requires Infer(c, categorical, encoder, lb).Ok? && c.labels.Some?
    requires Multiclass(lb.value, c.labels.value)
    requires i < |c.labels.value|
    ensures var y, labels, classes := Infer(c, categorical, encoder, lb).value.y, c.labels.value, lb.value.classes;
            |y| == |labels| * |classes| &&
            i * |classes| + |classes| <= |y| && y[i * |classes|..i * |classes| + |classes|] == OneHot(labels[i], classes)
  {
    BinarizeRow(lb.value, c.labels.value, i);
  }

  // ---------------------------------------------------------------------
  // Training and inference agree
  // ---------------------------------------------------------------------

  /**
   * Transforming a prepared table with the encoder and binarizer fitted on
   * it gives back exactly what training returned.
   */
  lemma TrainThenInferAgree(c: Prepared, categorical: seq<string>)
    requires HasWidth(c.rows, |c.names|)
    requires Train(c, categorical).Ok?
    ensures var o := Train(c, categorical).value;
            Infer(c, categorical, o.encoder, o.binarizer) == Ok(o)
  {
    var o := Train(c, categorical).value;
    assert FeatureNames(o.encoder.value) == categorical;
    assert c.labels.Some?;
  }

  /** The same agreement for the whole routine: inference on the training table repeats training's result. */
  lemma ProcessTrainThenInfer(t: Frame, categorical: seq<string>, lbl: Option<string>,
                              encoder: Option<Encoder>, lb: Option<Binarizer>)
    requires HasWidth(t.rows, |t.columns|)
    requires Process(t, categorical, lbl, true, encoder, lb).Ok?
    ensures var o := Process(t, categorical, lbl, true, encoder, lb).value;
            Process(t, categorical, lbl, false, o.encoder, o.binarizer) == Ok(o)
  {
    TrainThenInferAgree(Prepare(t, categorical, lbl).value, categorical);
  }

  /**
   * Rows encoded in inference mode with a trained encoder, from a table with
   * the same prepared columns, are exactly as wide as the training rows.
   */
  lemma InferenceWidthMatchesTraining(c: Prepared, c2: Prepared, categorical: seq<string>, i: nat, i2: nat)
    requires HasWidth(c.rows, |c.names|) && HasWidth(c2.rows, |c2.names|)
    requires c.names == c2.names
    requires Train(c, categorical).Ok?
    requires var o := Train(c, categorical).value;
             Infer(c2, categorical, o.encoder, o.binarizer).Ok?
    requires i < |c.rows| && i2 < |c2.rows|
    ensures var o := Train(c, categorical).value;
            var o2 := Infer(c2, categorical, o.encoder, o.binarizer).value;
            i < |o.x| && i2 < |o2.x| && |o2.x[i2]| == |o.x[i]|
  {
    var o := Train(c, categorical).value;
    TrainEncodes(c, categorical);
    InferEncodes(c2, categorical, o.encoder, o.binarizer);
    OutputWidth(c, categorical, o, i);
    OutputWidth(c2, categorical, Infer(c2, categorical, o.encoder, o.binarizer).value, i2);
  }
}
