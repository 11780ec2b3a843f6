/** The table logic of `load_and_prepare_data` in
    FakeNewsExam/src/dataprocessing/data_loader.py, from the two row
    sequences the CSV reader produced: clean both text columns, label the
    rows FAKE and REAL, put the FAKE rows first, drop duplicate
    (title, text) pairs keeping the first, drop rows with a missing field and
    build `title + " " + text`. */
module CorpusLoader {
  import opened TextCleaner

  datatype Label = FAKE | REAL

  /** A row of either CSV file, as far as the pipeline reads it. */
  datatype Row = Row(title: Cell, text: Cell)

  /** A row of the merged table before its text columns are combined. */
  datatype Tagged = Tagged(title: Cell, text: Cell, kind: Label)

  /** A row of the result: exactly the columns `combined_text` and `label`. */
  datatype Record = Record(combinedText: string, kind: Label)

  /** The columns `drop_duplicates` compares. */
  function Key(t: Tagged): (Cell, Cell) { (t.title, t.text) }

  /** No two rows share a key. */
  predicate UniqueKeys(ts: seq<Tagged>) {
    forall i, j :: 0 <= i < j < |ts| ==> Key(ts[i]) != Key(ts[j])
  }

  function Keys(ts: seq<Tagged>): set<(Cell, Cell)> { set t | t in ts :: Key(t) }

  // ---------------------------------------------------------------------------
  // Lines 59-61: cleaning both text columns of a frame

  /** Both text cells of a row cleaned; the row fails when either cell
      fails to decode. */
  function CleanRow(row: Row, utf8: Utf8Decoder): (r: Result<Row>)
    ensures r.UnicodeDecodeError? <==> DecodeFails(row.title, utf8) || DecodeFails(row.text, utf8)
    ensures r.Ok? ==> Ok(r.value.title) == CleanText(row.title, utf8) && Ok(r.value.text) == CleanText(row.text, utf8)
  {
    match (CleanText(row.title, utf8), CleanText(row.text, utf8))
    case (Ok(a), Ok(b)) => Ok(Row(a, b))
    case _ => UnicodeDecodeError
  }

  /** Some cell of the frame fails to decode. */
  predicate FrameFails(rows: seq<Row>, utf8: Utf8Decoder) {
    exists i :: 0 <= i < |rows| && (DecodeFails(rows[i].title, utf8) || DecodeFails(rows[i].text, utf8))
  }

  /** The frame with both columns cleaned; a decoding failure in any cell
      propagates out of the whole load. */
  function CleanRows(rows: seq<Row>, utf8: Utf8Decoder): (r: Result<seq<Row>>)
    ensures r.UnicodeDecodeError? <==> FrameFails(rows, utf8)
    ensures r.Ok? ==> |r.value| == |rows|
    ensures r.Ok? ==> forall i :: 0 <= i < |rows| ==> Ok(r.value[i]) == CleanRow(rows[i], utf8)
  {
    if forall i :: 0 <= i < |rows| ==> CleanRow(rows[i], utf8).Ok?
    then Ok(seq(|rows|, i requires 0 <= i < |rows| => CleanRow(rows[i], utf8).value))
    else UnicodeDecodeError
  }

  /** Lines 64-65: every row of a frame gets the frame's label. */
  function Tag(rows: seq<Row>, kind: Label): (ts: seq<Tagged>)
    ensures |ts| == |rows|
    ensures forall i :: 0 <= i < |rows| ==> ts[i] == Tagged(rows[i].title, rows[i].text, kind)
  {
    if rows == [] then [] else [Tagged(rows[0].title, rows[0].text, kind)] + Tag(rows[1..], kind)
  }

  // ---------------------------------------------------------------------------
  // Line 76: `drop_duplicates(subset=["title", "text"], keep="first")`

  /** Keep each row whose key is neither in `seen` nor on an earlier row. */
  function DedupFrom(ts: seq<Tagged>, seen: set<(Cell, Cell)>): seq<Tagged>
  {
    if ts == [] then []
    else if Key(ts[0]) in seen then DedupFrom(ts[1..], seen)
    else [ts[0]] + DedupFrom(ts[1..], seen + {Key(ts[0])})
  }

  function DropDuplicates(ts: seq<Tagged>): seq<Tagged> { DedupFrom(ts, {}) }

  // ---------------------------------------------------------------------------
  // Lines 77-84

  predicate HasBoth(t: Tagged) { t.title.Str? && t.text.Str? }

  /** `dropna(subset=["title", "text"])`. */
  function DropMissing(ts: seq<Tagged>): (r: seq<Tagged>)
    ensures forall i :: 0 <= i < |r| ==> HasBoth(r[i])
  {
    if ts == [] then []
    else if HasBoth(ts[0]) then [ts[0]] + DropMissing(ts[1..])
    else DropMissing(ts[1..])
  }

  /** `title + " " + text`, keeping the label, dropping the rest. */
  function Combine(t: Tagged): Record
    requires HasBoth(t)
  {
    Record(t.title.s + " " + t.text.s, t.kind)
  }

  /** The merged table after cleaning, before the text columns are
      combined. */
  function Survivors(fakeClean: seq<Row>, realClean: seq<Row>): seq<Tagged>
  {
    DropMissing(DropDuplicates(Tag(fakeClean, FAKE) + Tag(realClean, REAL)))
  }

  /** The table `load_and_prepare_data` returns, given the rows it read. */
  function Prepared(fake: seq<Row>, genuine: seq<Row>, utf8: Utf8Decoder): Result<seq<Record>>
  {
    match (CleanRows(fake, utf8), CleanRows(genuine, utf8))
    case (Ok(f), Ok(r)) =>
      var s := Survivors(f, r);
      Ok(seq(|s|, i requires 0 <= i < |s| => Combine(s[i])))
    case _ => UnicodeDecodeError
  }

  /** Lines 58-86. */
  method LoadAndPrepareData(fake: seq<Row>, genuine: seq<Row>, utf8: Utf8Decoder)
    returns (data: Result<seq<Record>>)
    ensures data == Prepared(fake, genuine, utf8)
  {
    // Lines 59-61: clean both text columns of each frame in turn.
    var frames := [fake, genuine];
    var cleaned: seq<seq<Row>> := [];
    for f := 0 to 2
      invariant |cleaned| == f
      invariant forall g :: 0 <= g < f ==> CleanRows(frames[g], utf8) == Ok(cleaned[g])
    {
      var df := frames[f];
      var out: seq<Row> := [];
      for i := 0 to |df|
        invariant |out| == i
        invariant forall j :: 0 <= j < i ==> CleanRow(df[j], utf8) == Ok(out[j])
      {
        var title := CleanText(df[i].title, utf8);
        var text := CleanText(df[i].text, utf8);
        if title.UnicodeDecodeError? || text.UnicodeDecodeError? {
          assert !CleanRow(df[i], utf8).Ok?;
          return UnicodeDecodeError;
        }
        out := out + [Row(title.value, text.value)];
      }
      assert out == seq(|df|, j requires 0 <= j < |df| => CleanRow(df[j], utf8).value);
      assert CleanRows(df, utf8) == Ok(out);
      cleaned := cleaned + [out];
    }
    // Lines 64-68: label, then FAKE rows followed by REAL rows.
    var merged := Tag(cleaned[0], FAKE) + Tag(cleaned[1], REAL);
    // Lines 76-77.
    var kept := DropMissing(DropDuplicates(merged));
    // Lines 80-84.
    var records: seq<Record> := [];
    for i := 0 to |kept|
      invariant records == seq(i, j requires 0 <= j < i => Combine(kept[j]))
    {
      records := records + [Combine(kept[i])];
    }
    data := Ok(records);
  }

  // ---------------------------------------------------------------------------
  // Properties of the merged table

  /** `x` is `y` with zero or more elements left out. */
  predicate IsSubsequence<T(==)>(x: seq<T>, y: seq<T>)
    decreases |y|
  {
    x == [] || (y != [] && ((x[0] == y[0] && IsSubsequence(x[1..], y[1..])) || IsSubsequence(x, y[1..])))
  }

  lemma {:induction false} SubsequenceElements<T>(x: seq<T>, y: seq<T>)
    requires IsSubsequence(x, y)
    ensures forall e :: e in x ==> e in y
    decreases |y|
  {
    if x != [] {
      if x[0] == y[0] && IsSubsequence(x[1..], y[1..]) {
        SubsequenceElements(x[1..], y[1..]);
        assert forall e :: e in x ==> e == x[0] || e in x[1..];
      } else {
        SubsequenceElements(x, y[1..]);
      }
    }
  }

  lemma {:induction false} SubsequenceTransitive<T>(x: seq<T>, y: seq<T>, z: seq<T>)
    requires IsSubsequence(x, y) && IsSubsequence(y, z)
    ensures IsSubsequence(x, z)
    decreases |z|
  {
    if x != [] {
      assert y != [] && z != [];
      if y[0] == z[0] && IsSubsequence(y[1..], z[1..]) {
        if x[0] == y[0] && IsSubsequence(x[1..], y[1..]) {
          SubsequenceTransitive(x[1..], y[1..], z[1..]);
        } else {
          SubsequenceTransitive(x, y[1..], z[1..]);
        }
      } else {
        SubsequenceTransitive(x, y, z[1..]);
      }
    }
  }

  lemma {:induction false} DedupFromSubsequence(ts: seq<Tagged>, seen: set<(Cell, Cell)>)
    ensures IsSubsequence(DedupFrom(ts, seen), ts)
    decreases |ts|
  {
    if ts != [] {
      if Key(ts[0]) in seen {
        DedupFromSubsequence(ts[1..], seen);
        SkipHead(DedupFrom(ts[1..], seen), ts);
      } else {
        DedupFromSubsequence(ts[1..], seen + {Key(ts[0])});
      }
    }
  }

  lemma SkipHead<T>(x: seq<T>, y: seq<T>)
    requires y != [] && IsSubsequence(x, y[1..])
    ensures IsSubsequence(x, y)
  {
  }

  lemma {:induction false} DropMissingSubsequence(ts: seq<Tagged>)
    ensures IsSubsequence(DropMissing(ts), ts)
    decreases |ts|
  {
    if ts != [] {
      DropMissingSubsequence(ts[1..]);
      if !HasBoth(ts[0]) {
        SkipHead(DropMissing(ts[1..]), ts);
      }
    }
  }

  /** No two rows share a key, and no kept key was already seen. */
  lemma {:induction false} DedupFromUnique(ts: seq<Tagged>, seen: set<(Cell, Cell)>)
    ensures UniqueKeys(DedupFrom(ts, seen))
    ensures forall t :: t in DedupFrom(ts, seen) ==> Key(t) !in seen
    decreases |ts|
  {
    if ts != [] {
      if Key(ts[0]) in seen {
        DedupFromUnique(ts[1..], seen);
        assert DedupFrom(ts, seen) == DedupFrom(ts[1..], seen);
      } else {
        var tail := DedupFrom(ts[1..], seen + {Key(ts[0])});
        DedupFromUnique(ts[1..], seen + {Key(ts[0])});
        var r := [ts[0]] + tail;
        assert r == DedupFrom(ts, seen);
        forall i, j | 0 <= i < j < |r| ensures Key(r[i]) != Key(r[j]) {
          assert r[j] == tail[j - 1];
          if i > 0 { assert r[i] == tail[i - 1]; }
        }
        forall t | t in r ensures Key(t) !in seen {
          if t != ts[0] { assert t in tail; }
        }
      }
    }
  }

  /** Exactly the keys not seen before survive. */
  lemma {:induction false} DedupFromKeys(ts: seq<Tagged>, seen: set<(Cell, Cell)>)
    ensures Keys(DedupFrom(ts, seen)) == Keys(ts) - seen
    decreases |ts|
  {
    if ts != [] {
      assert Keys(ts) == {Key(ts[0])} + Keys(ts[1..]) by {
        assert forall t :: t in ts <==> t == ts[0] || t in ts[1..];
      }
      if Key(ts[0]) in seen {
        DedupFromKeys(ts[1..], seen);
      } else {
        DedupFromKeys(ts[1..], seen + {Key(ts[0])});
        var r := DedupFrom(ts[1..], seen + {Key(ts[0])});
        assert Keys([ts[0]] + r) == {Key(ts[0])} + Keys(r) by {
          assert forall t :: t in [ts[0]] + r <==> t == ts[0] || t in r;
        }
      }
    } else {
      assert Keys(ts) == {};
    }
  }

  /** The first row of `ts` with the given key. */
  function FirstWith(ts: seq<Tagged>, k: (Cell, Cell)): Tagged
    requires k in Keys(ts)
  {
    if Key(ts[0]) == k then ts[0]
    else
      assert k in Keys(ts[1..]) by {
        var t :| t in ts && Key(t) == k;
        assert t != ts[0];
        assert t in ts[1..];
      }
      FirstWith(ts[1..], k)
  }

  /** Every kept row is the first row of the input with its key. */
  lemma {:induction false} DedupFromKeepsFirst(ts: seq<Tagged>, seen: set<(Cell, Cell)>)
    ensures forall t :: t in DedupFrom(ts, seen) ==> Key(t) in Keys(ts) && t == FirstWith(ts, Key(t))
    decreases |ts|
  {
    if ts != [] {
      var rest := if Key(ts[0]) in seen then seen else seen + {Key(ts[0])};
      DedupFromKeepsFirst(ts[1..], rest);
      DedupFromUnique(ts[1..], rest);
      forall t | t in DedupFrom(ts, seen) ensures Key(t) in Keys(ts) && t == FirstWith(ts, Key(t)) {
        if t != ts[0] || Key(ts[0]) in seen {
          assert t in DedupFrom(ts[1..], rest);
          var i :| 0 <= i < |DedupFrom(ts[1..], rest)| && DedupFrom(ts[1..], rest)[i] == t;
          assert Key(t) != Key(ts[0]);
          assert t in ts[1..] by { SubsequenceElements(DedupFrom(ts[1..], rest), ts[1..]) by { DedupFromSubsequence(ts[1..], rest); } }
        }
      }
    }
  }

  /** A key present in the first part finds its first row there. */
  lemma {:induction false} FirstWithAppend(a: seq<Tagged>, b: seq<Tagged>, k: (Cell, Cell))
    requires k in Keys(a)
    ensures k in Keys(a + b) && FirstWith(a + b, k) == FirstWith(a, k)
    decreases |a|
  {
    assert forall t :: t in a ==> t in a + b;
    if Key(a[0]) != k {
      assert k in Keys(a[1..]) by {
        var t :| t in a && Key(t) == k;
        assert t in a[1..];
      }
      assert (a + b)[1..] == a[1..] + b;
      FirstWithAppend(a[1..], b, k);
    }
  }

  /** Deduplicating a concatenation deduplicates the first part, then the
      second part against everything in the first. */
  lemma {:induction false} DedupFromAppend(a: seq<Tagged>, b: seq<Tagged>, seen: set<(Cell, Cell)>)
    ensures DedupFrom(a + b, seen) == DedupFrom(a, seen) + DedupFrom(b, seen + Keys(a))
    decreases |a|
  {
    if a == [] {
      assert a + b == b;
      assert Keys(a) == {};
      assert seen + Keys(a) == seen;
    } else {
      assert (a + b)[0] == a[0] && (a + b)[1..] == a[1..] + b;
      assert Keys(a) == {Key(a[0])} + Keys(a[1..]) by {
        assert forall t :: t in a <==> t == a[0] || t in a[1..];
      }
      if Key(a[0]) in seen {
        DedupFromAppend(a[1..], b, seen);
        assert seen + Keys(a[1..]) == seen + Keys(a);
      } else {
        DedupFromAppend(a[1..], b, seen + {Key(a[0])});
        assert seen + {Key(a[0])} + Keys(a[1..]) == seen + Keys(a);
      }
    }
  }

  lemma {:induction false} DropMissingAppend(a: seq<Tagged>, b: seq<Tagged>)
    ensures DropMissing(a + b) == DropMissing(a) + DropMissing(b)
    decreases |a|
  {
    if a == [] {
      assert a + b == b;
    } else {
      assert (a + b)[0] == a[0] && (a + b)[1..] == a[1..] + b;
      DropMissingAppend(a[1..], b);
    }
  }

  /** What survives of one frame keeps that frame's order and rows. */
  lemma PartOfSource(ts: seq<Tagged>, seen: set<(Cell, Cell)>)
    ensures IsSubsequence(DropMissing(DedupFrom(ts, seen)), ts)
    ensures forall t :: t in DropMissing(DedupFrom(ts, seen)) ==> t in ts
  {
    var d := DedupFrom(ts, seen);
    DedupFromSubsequence(ts, seen);
    DropMissingSubsequence(d);
    SubsequenceTransitive(DropMissing(d), d, ts);
    SubsequenceElements(DropMissing(d), ts);
  }

  /** The merged table is the surviving FAKE rows, in their file order,
      followed by the surviving REAL rows, in theirs; a REAL row is measured
      against every FAKE key. */
  lemma SurvivorsSplit(fakeClean: seq<Row>, realClean: seq<Row>)
    ensures var f := Tag(fakeClean, FAKE);
            var r := Tag(realClean, REAL);
            var fakePart := DropMissing(DedupFrom(f, {}));
            var realPart := DropMissing(DedupFrom(r, Keys(f)));
            Survivors(fakeClean, realClean) == fakePart + realPart
            && IsSubsequence(fakePart, f) && IsSubsequence(realPart, r)
            && (forall i :: 0 <= i < |fakePart| ==> fakePart[i].kind == FAKE)
            && (forall i :: 0 <= i < |realPart| ==> realPart[i].kind == REAL)
  {
    var f := Tag(fakeClean, FAKE);
    var r := Tag(realClean, REAL);
    DedupFromAppend(f, r, {});
    assert {} + Keys(f) == Keys(f);
    DropMissingAppend(DedupFrom(f, {}), DedupFrom(r, Keys(f)));
    PartOfSource(f, {});
    PartOfSource(r, Keys(f));
    var fakePart := DropMissing(DedupFrom(f, {}));
    var realPart := DropMissing(DedupFrom(r, Keys(f)));
    forall i | 0 <= i < |fakePart| ensures fakePart[i].kind == FAKE {
      assert fakePart[i] in f;
    }
    forall i | 0 <= i < |realPart| ensures realPart[i].kind == REAL {
      assert realPart[i] in r;
    }
  }

  /** Every FAKE row of the result comes before every REAL row. */
  lemma FakeBeforeReal(fakeClean: seq<Row>, realClean: seq<Row>)
    ensures var s := Survivors(fakeClean, realClean);
            forall i, j :: 0 <= i < j < |s| && s[i].kind == REAL ==> s[j].kind == REAL
  {
    SurvivorsSplit(fakeClean, realClean);
  }

  /** No two rows of the result come from the same cleaned (title, text)
      pair, every row is the first row of the merged input with its pair,
      and exactly the pairs with both fields present survive. */
  lemma SurvivorsDeduplicated(fakeClean: seq<Row>, realClean: seq<Row>)
    ensures var merged := Tag(fakeClean, FAKE) + Tag(realClean, REAL);
            var s := Survivors(fakeClean, realClean);
            UniqueKeys(s)
            && (forall t :: t in s ==> Key(t) in Keys(merged) && t == FirstWith(merged, Key(t)))
            && (forall t :: t in merged && HasBoth(t) ==> Key(t) in Keys(s))
  {
    var merged := Tag(fakeClean, FAKE) + Tag(realClean, REAL);
    var d := DropDuplicates(merged);
    var s := Survivors(fakeClean, realClean);
    DedupFromUnique(merged, {});
    DedupFromKeepsFirst(merged, {});
    DedupFromKeys(merged, {});
    DropMissingSubsequence(d);
    DropMissingUnique(d);
    SubsequenceElements(s, d);
    forall t | t in merged && HasBoth(t) ensures Key(t) in Keys(s) {
      assert Key(t) in Keys(d);
      var u :| u in d && Key(u) == Key(t);
      assert HasBoth(u);
      DropMissingKeeps(d, u);
    }
  }

  lemma {:induction false} DropMissingUnique(d: seq<Tagged>)
    requires UniqueKeys(d)
    ensures UniqueKeys(DropMissing(d))
    decreases |d|
  {
    if d != [] {
      DropMissingUnique(d[1..]);
      DropMissingSubsequence(d[1..]);
      SubsequenceElements(DropMissing(d[1..]), d[1..]);
      var tail := DropMissing(d[1..]);
      if HasBoth(d[0]) {
        var s := [d[0]] + tail;
        assert s == DropMissing(d);
        forall i, j | 0 <= i < j < |s| ensures Key(s[i]) != Key(s[j]) {
          assert s[j] == tail[j - 1];
          if i == 0 {
            assert tail[j - 1] in d[1..];
            var k :| 0 <= k < |d[1..]| && d[1..][k] == tail[j - 1];
            assert d[k + 1] == s[j];
          } else {
            assert s[i] == tail[i - 1];
          }
        }
      } else {
        assert DropMissing(d) == tail;
      }
    }
  }

  lemma {:induction false} DropMissingKeeps(d: seq<Tagged>, u: Tagged)
    requires u in d && HasBoth(u)
    ensures u in DropMissing(d)
    decreases |d|
  {
    if d[0] != u {
      assert u in d[1..];
      DropMissingKeeps(d[1..], u);
    }
  }

  /** A REAL row whose cleaned (title, text) pair also occurs among the FAKE
      rows never survives: the FAKE row came first. */
  lemma RealDuplicateOfFakeDropped(fakeClean: seq<Row>, realClean: seq<Row>, t: Tagged)
    requires Key(t) in Keys(Tag(fakeClean, FAKE))
    requires t in Survivors(fakeClean, realClean)
    ensures t.kind == FAKE
  {
    var f := Tag(fakeClean, FAKE);
    var merged := f + Tag(realClean, REAL);
    SurvivorsDeduplicated(fakeClean, realClean);
    FirstWithAppend(f, Tag(realClean, REAL), Key(t));
    FirstWithInside(f, Key(t));
  }

  lemma {:induction false} FirstWithInside(ts: seq<Tagged>, k: (Cell, Cell))
    requires k in Keys(ts)
    ensures FirstWith(ts, k) in ts
    decreases |ts|
  {
    if Key(ts[0]) != k {
      assert k in Keys(ts[1..]) by {
        var t :| t in ts && Key(t) == k;
        assert t in ts[1..];
      }
      FirstWithInside(ts[1..], k);
    }
  }

  /** What the load returns: a failure exactly when some cell fails to
      decode; otherwise one record per surviving row, in order, whose
      combined text is its title, one space and its text. */
  lemma PreparedRecords(fake: seq<Row>, genuine: seq<Row>, utf8: Utf8Decoder)
    ensures Prepared(fake, genuine, utf8).UnicodeDecodeError? <==>
              FrameFails(fake, utf8) || FrameFails(genuine, utf8)
    ensures Prepared(fake, genuine, utf8).Ok? ==>
              var s := Survivors(CleanRows(fake, utf8).value, CleanRows(genuine, utf8).value);
              var d := Prepared(fake, genuine, utf8).value;
              |d| == |s| &&
              forall i :: 0 <= i < |d| ==>
                HasBoth(s[i]) && d[i].combinedText == s[i].title.s + " " + s[i].text.s && d[i].kind == s[i].kind
  {
  }
}
