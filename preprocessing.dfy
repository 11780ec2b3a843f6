/** `prepare_features` in FakeNewsExam/src/dataprocessing/preprocessing.py:
    on its own copy of a table with title, text and label columns, build the
    text `str(title) + " " + str(text)` of every row and return it with the
    label column. */
module Preprocessing {
  import opened TextCleaner
  import opened CorpusLoader

  /** `str(v)` of a cell: a missing value prints as "nan". */
  function StrOf(c: Cell): string
  {
    match c
    case Str(s) => s
    case Missing => "nan"
  }

  /** The pair `(X, y)`: one combined text and one label per row, in row
      order. Nothing is filtered, and the caller's rows are a value the
      function cannot change. */
  function PrepareFeatures(data: seq<Tagged>): (xy: (seq<string>, seq<Label>))
    ensures |xy.0| == |data| && |xy.1| == |data|
    ensures forall i :: 0 <= i < |data| ==> xy.0[i] == StrOf(data[i].title) + " " + StrOf(data[i].text)
    ensures forall i :: 0 <= i < |data| ==> xy.1[i] == data[i].kind
  {
    if data == [] then ([], [])
    else
      var rest := PrepareFeatures(data[1..]);
      ([StrOf(data[0].title) + " " + StrOf(data[0].text)] + rest.0, [data[0].kind] + rest.1)
  }

  /** On rows with both fields present, `X` is exactly the loader's
      `combined_text`. */
  lemma PrepareFeaturesAgreesWithLoader(data: seq<Tagged>)
    requires forall i :: 0 <= i < |data| ==> HasBoth(data[i])
    ensures forall i :: 0 <= i < |data| ==> PrepareFeatures(data).0[i] == Combine(data[i]).combinedText
  {
  }

  /** The preparation is row-wise: preparing two tables one after the other
      is preparing their concatenation. */
  lemma {:induction false} PrepareFeaturesAppend(a: seq<Tagged>, b: seq<Tagged>)
    ensures PrepareFeatures(a + b).0 == PrepareFeatures(a).0 + PrepareFeatures(b).0
    ensures PrepareFeatures(a + b).1 == PrepareFeatures(a).1 + PrepareFeatures(b).1
  {
    if a != [] {
      assert (a + b)[0] == a[0] && (a + b)[1..] == a[1..] + b;
      PrepareFeaturesAppend(a[1..], b);
    } else {
      assert a + b == b;
    }
  }
}
