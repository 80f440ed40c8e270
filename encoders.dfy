/**
 * The two fitted transformers the feature routine produces or reuses, at the
 * settings it uses them with: a one-hot encoder that ignores unknown
 * categories and returns a dense matrix, and a label binarizer with its
 * default 0/1 labels.
 */
module Encoders {
  import opened Cells

  /** One feature of a fitted one-hot encoder: its column name and the categories recorded at fit time, in order. */
  datatype Feature = Feature(name: string, categories: seq<Cell>)

  /** A fitted one-hot encoder: one entry per categorical feature, in the order it was fitted on. */
  type Encoder = seq<Feature>

  function FeatureNames(enc: Encoder): (r: seq<string>)
    ensures |r| == |enc|
    ensures forall k :: 0 <= k < |enc| ==> r[k] == enc[k].name
  {
    seq(|enc|, k requires 0 <= k < |enc| => enc[k].name)
  }

  /** An encoder as fitting leaves it: the categories of every feature strictly ascending. */
  predicate Fitted(enc: Encoder) {
    forall k :: 0 <= k < |enc| ==> StrictlySorted(enc[k].categories)
  }

  /** The categories of a feature fitted on `column`: its distinct values, ascending. */
  function FitFeature(name: string, column: seq<Cell>): (f: Feature)
    ensures f.name == name
    ensures StrictlySorted(f.categories)
    ensures forall v :: v in f.categories <==> v in column
  {
    Feature(name, SortedDistinct(column))
  }

  /**
   * The one-hot block of one value: a 1 at every position whose category is
   * `v` and 0 everywhere else, so a value that is not a category
   * (`handle_unknown="ignore"`) gets a block of zeros.
   */
  function OneHot(v: Cell, categories: seq<Cell>): (r: seq<int>)
    ensures |r| == |categories|
    ensures forall k :: 0 <= k < |r| ==> (r[k] == 1 <==> categories[k] == v)
    ensures forall k :: 0 <= k < |r| ==> (r[k] == 0 <==> categories[k] != v)
  {
    seq(|categories|, k requires 0 <= k < |categories| => if categories[k] == v then 1 else 0)
  }

  /** The number of columns the encoder produces: its categories over all features. */
  function Width(enc: Encoder): nat {
    if enc == [] then 0 else |enc[0].categories| + Width(enc[1..])
  }

  /** The column at which feature `k`'s block starts. */
  function Offset(enc: Encoder, k: nat): nat
    requires k <= |enc|
  {
    if k == 0 then 0 else |enc[0].categories| + Offset(enc[1..], k - 1)
  }

  /** The encoder's output for one row: the features' blocks side by side, in feature order. */
  function EncodeRow(enc: Encoder, values: seq<Cell>): (r: seq<int>)
    requires |values| == |enc|
    ensures |r| == Width(enc)
  {
    if enc == [] then []
    else OneHot(values[0], enc[0].categories) + EncodeRow(enc[1..], values[1..])
  }

  /**
   * Feature `k`'s block of an encoded row is the one-hot block of that
   * feature's value: the slice of the row that starts at the feature's
   * offset.
   */
  lemma {:induction false} EncodeRowBlock(enc: Encoder, values: seq<Cell>, k: nat)
    requires |values| == |enc| && k < |enc|
    ensures Offset(enc, k) + |enc[k].categories| <= Width(enc)
    ensures EncodeRow(enc, values)[Offset(enc, k)..Offset(enc, k) + |enc[k].categories|] == OneHot(values[k], enc[k].categories)
  {
    var head, tail := OneHot(values[0], enc[0].categories), EncodeRow(enc[1..], values[1..]);
    EncodeRowCons(enc, values);
    if k == 0 {
      SliceOfConcat(head, tail, 0, |head|);
      assert head[0..|head|] == head;
    } else {
      EncodeRowBlock(enc[1..], values[1..], k - 1);
      assert enc[1..][k - 1] == enc[k] && values[1..][k - 1] == values[k];
      OffsetCons(enc, k);
      SliceAfterHead(EncodeRow(enc, values), head, tail, Offset(enc, k), Offset(enc[1..], k - 1),
                     |enc[k].categories|, OneHot(values[k], enc[k].categories));
    }
  }

  /** A slice of `tail` is found again, shifted by `|head|`, once `head` is put before it. */
  lemma SliceAfterHead<T>(row: seq<T>, head: seq<T>, tail: seq<T>, at: nat, o: nat, n: nat, part: seq<T>)
    requires row == head + tail && at == |head| + o
    requires o + n <= |tail| && tail[o..o + n] == part
    ensures at + n <= |row| && row[at..at + n] == part
  {
    SliceInTail(head, tail, o, o + n);
  }

  /** An encoded row opens with the first feature's block. */
  lemma {:induction false} EncodeRowCons(enc: Encoder, values: seq<Cell>)
    requires |values| == |enc| && 0 < |enc|
    ensures EncodeRow(enc, values) == OneHot(values[0], enc[0].categories) + EncodeRow(enc[1..], values[1..])
  {
  }

  /** A later feature's block starts after the first feature's block. */
  lemma OffsetCons(enc: Encoder, k: nat)
    requires 0 < k <= |enc|
    ensures Offset(enc, k) == |enc[0].categories| + Offset(enc[1..], k - 1)
  {
  }

  lemma MulStep(i: nat, n: nat)
    ensures (i + 1) * n == i * n + n
  {
  }

  lemma SliceOfConcat<T>(a: seq<T>, b: seq<T>, i: nat, j: nat)
    requires i <= j <= |a|
    ensures (a + b)[i..j] == a[i..j]
  {
  }

  lemma SliceInTail<T>(a: seq<T>, b: seq<T>, i: nat, j: nat)
    requires i <= j <= |b|
    ensures (a + b)[|a| + i..|a| + j] == b[i..j]
  {
  }

  /** A fitted label binarizer: its classes in ascending order. */
  datatype Binarizer = Binarizer(classes: seq<Cell>)

  /** Fitting the binarizer records the distinct labels, ascending. */
  function FitBinarizer(labels: seq<Cell>): (b: Binarizer)
    ensures StrictlySorted(b.classes)
    ensures forall v :: v in b.classes <==> v in labels
  {
    Binarizer(SortedDistinct(labels))
  }

  /**
   * Whether the labels are transformed as a multiclass target: when the
   * binarizer knows three or more classes, or the labels themselves hold
   * three or more distinct values.
   */
  predicate Multiclass(b: Binarizer, labels: seq<Cell>) {
    |b.classes| >= 3 || |SortedDistinct(labels)| >= 3
  }

  /**
   * The binarizer's row for one label. As a multiclass target a label
   * becomes its one-hot block over the classes; otherwise it is a single
   * entry that is 1 exactly for the second of two classes.
   */
  function LabelRow(b: Binarizer, v: Cell, multi: bool): seq<int> {
    if multi then OneHot(v, b.classes)
    else [if |b.classes| == 2 && v == b.classes[1] then 1 else 0]
  }

  /** The rows of the label matrix one after the other. */
  function BinarizeRows(b: Binarizer, labels: seq<Cell>, multi: bool): (r: seq<int>)
  {
    if labels == [] then []
    else BinarizeRows(b, labels[..|labels| - 1], multi) + LabelRow(b, labels[|labels| - 1], multi)
  }

  /**
   * `lb.transform(y).ravel()`: one 0/1 entry per label as a binary target,
   * one row as wide as the classes per label as a multiclass target.
   */
  function Binarize(b: Binarizer, labels: seq<Cell>): (y: seq<int>)
    ensures !Multiclass(b, labels) ==>
      && |y| == |labels|
      && forall i :: 0 <= i < |labels| ==> y[i] == if |b.classes| == 2 && labels[i] == b.classes[1] then 1 else 0
    ensures Multiclass(b, labels) ==> |y| == |labels| * |b.classes|
  {
    BinarizeBinary(b, labels);
    BinarizeLength(b, labels);
    BinarizeRows(b, labels, Multiclass(b, labels))
  }

  /** As a binary target every label becomes one 0/1 entry: 1 exactly for the second of two classes. */
  lemma {:induction false} BinarizeBinary(b: Binarizer, labels: seq<Cell>)
    ensures |BinarizeRows(b, labels, false)| == |labels|
    ensures forall i :: 0 <= i < |labels| ==>
      BinarizeRows(b, labels, false)[i] == if |b.classes| == 2 && labels[i] == b.classes[1] then 1 else 0
  {
    if labels != [] {
      var init := labels[..|labels| - 1];
      BinarizeBinary(b, init);
      forall i | 0 <= i < |labels| - 1
        ensures labels[i] == init[i]
      {
      }
    }
  }

  /** As a multiclass target every label becomes a row as wide as the classes. */
  lemma {:induction false} BinarizeLength(b: Binarizer, labels: seq<Cell>)
    ensures |BinarizeRows(b, labels, true)| == |labels| * |b.classes|
  {
    if labels != [] {
      BinarizeLength(b, labels[..|labels| - 1]);
      assert (|labels| - 1) * |b.classes| + |b.classes| == |labels| * |b.classes|;
    }
  }

  /** As a multiclass target label `i` becomes its one-hot row, at columns `i * n` up to `(i + 1) * n`. */
  lemma {:induction false} BinarizeMulticlass(b: Binarizer, labels: seq<Cell>, i: nat)
    requires i < |labels|
    ensures |BinarizeRows(b, labels, true)| == |labels| * |b.classes|
    ensures (i + 1) * |b.classes| <= |BinarizeRows(b, labels, true)|
    ensures BinarizeRows(b, labels, true)[i * |b.classes|..(i + 1) * |b.classes|] == OneHot(labels[i], b.classes)
  {
    BinarizeLength(b, labels);
    if i < |labels| - 1 {
      BinarizeMulticlass(b, labels[..|labels| - 1], i);
      MulticlassEarlierRow(b, labels, i);
    } else {
      MulticlassLastRow(b, labels);
    }
  }

  /** As a multiclass target the output of `Binarize` holds label `i`'s one-hot row at columns `i * n` up to `i * n + n`. */
  lemma BinarizeRow(b: Binarizer, labels: seq<Cell>, i: nat)
    requires Multiclass(b, labels) && i < |labels|
    ensures var y, n := Binarize(b, labels), |b.classes|;
            |y| == |labels| * n && i * n + n <= |y| && y[i * n..i * n + n] == OneHot(labels[i], b.classes)
  {
    var n := |b.classes|;
    assert Binarize(b, labels) == BinarizeRows(b, labels, true);
    BinarizeMulticlass(b, labels, i);
    MulStep(i, n);
  }

  /** A row before the last one is where it was before the last label was added. */
  lemma MulticlassEarlierRow(b: Binarizer, labels: seq<Cell>, i: nat)
    requires i < |labels| - 1
    requires var init := labels[..|labels| - 1];
             (i + 1) * |b.classes| <= |BinarizeRows(b, init, true)| &&
             BinarizeRows(b, init, true)[i * |b.classes|..(i + 1) * |b.classes|] == OneHot(init[i], b.classes)
    ensures (i + 1) * |b.classes| <= |BinarizeRows(b, labels, true)|
    ensures BinarizeRows(b, labels, true)[i * |b.classes|..(i + 1) * |b.classes|] == OneHot(labels[i], b.classes)
  {
    var n := |b.classes|;
    var init := labels[..|labels| - 1];
    var front := BinarizeRows(b, init, true);
    var row := OneHot(labels[|labels| - 1], b.classes);
    assert BinarizeRows(b, labels, true) == front + row;
    assert init[i] == labels[i];
    MulStep(i, n);
    SliceOfConcat(front, row, i * n, (i + 1) * n);
  }

  /** The last label's row closes the sequence. */
  lemma {:induction false} MulticlassLastRow(b: Binarizer, labels: seq<Cell>)
    requires labels != []
    ensures var i, n := |labels| - 1, |b.classes|;
            (i + 1) * n <= |BinarizeRows(b, labels, true)| &&
            BinarizeRows(b, labels, true)[i * n..(i + 1) * n] == OneHot(labels[i], b.classes)
  {
    var n := |b.classes|;
    var i := |labels| - 1;
    var init := labels[..i];
    var front := BinarizeRows(b, init, true);
    var row := OneHot(labels[i], b.classes);
    assert BinarizeRows(b, labels, true) == front + row;
    BinarizeLength(b, init);
    MulStep(i, n);
    SliceInTail(front, row, 0, n);
  }

  /**
   * The labels the binarizer accepts: none missing, and strings and integers
   * not mixed in one label column.
   */
  predicate ValidLabels(labels: seq<Cell>) {
    && (forall i :: 0 <= i < |labels| ==> labels[i] != Missing)
    && !((exists i :: 0 <= i < |labels| && labels[i].Str?) && (exists i :: 0 <= i < |labels| && labels[i].Num?))
  }
}
