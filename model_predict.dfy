/** `FakeNewsClassifier` in FakeNewsExam/src/model/model_predict.py: the
    label and probability pass-through of `predict_news`, and the ranking
    that `predict_with_explanation` puts on top of it. The vectoriser and the
    fitted model are library objects; the classifier holds what the ranking
    reads of them (the feature vector of a text, the feature names, the
    coefficient row, the predicted label, the probabilities and the class
    list) as fields fixed at construction. */
module ModelPredict {

  /** One entry of `words_contrib`, remembering the vocabulary index it came
      from. */
  datatype Contribution = Contribution(index: nat, word: string, score: real)

  // ---------------------------------------------------------------------------
  // Lines 35-40: the non-zero features and their contributions

  /** The entry the source builds for vocabulary index `i`. */
  function EntryAt(values: seq<real>, coefs: seq<real>, names: seq<string>, i: nat): Contribution
    requires |coefs| == |values| && |names| == |values| && i < |values|
  {
    Contribution(i, names[i], values[i] * coefs[i])
  }

  /** `words_contrib` restricted to the indices from `from` on. */
  function ContributionsFrom(values: seq<real>, coefs: seq<real>, names: seq<string>, from: nat): (r: seq<Contribution>)
    requires |coefs| == |values| && |names| == |values| && from <= |values|
    ensures forall k :: 0 <= k < |r| ==>
              from <= r[k].index < |values| && values[r[k].index] != 0.0
              && r[k] == EntryAt(values, coefs, names, r[k].index)
    ensures forall k, l :: 0 <= k < l < |r| ==> r[k].index < r[l].index
    decreases |values| - from
  {
    if from == |values| then []
    else
      var rest := ContributionsFrom(values, coefs, names, from + 1);
      if values[from] != 0.0 then
        var r := [EntryAt(values, coefs, names, from)] + rest;
        assert forall k :: 1 <= k < |r| ==> r[k] == rest[k - 1];
        r
      else rest
  }

  /** Every non-zero value from `from` on has its entry. */
  lemma {:induction false} ContributionsFromComplete(values: seq<real>, coefs: seq<real>, names: seq<string>, from: nat)
    requires |coefs| == |values| && |names| == |values| && from <= |values|
    ensures forall i :: from <= i < |values| && values[i] != 0.0 ==>
              EntryAt(values, coefs, names, i) in ContributionsFrom(values, coefs, names, from)
    decreases |values| - from
  {
    if from < |values| {
      ContributionsFromComplete(values, coefs, names, from + 1);
    }
  }

  /** `[(feature_names[i], contributions[i]) for i in indices]`, where
      `indices` are the positions of the non-zero values: exactly one entry
      per non-zero value, in index order. */
  function WordsContrib(values: seq<real>, coefs: seq<real>, names: seq<string>): (r: seq<Contribution>)
    requires |coefs| == |values| && |names| == |values|
    ensures forall k :: 0 <= k < |r| ==>
              r[k].index < |values| && values[r[k].index] != 0.0
              && r[k] == EntryAt(values, coefs, names, r[k].index)
    ensures forall k, l :: 0 <= k < l < |r| ==> r[k].index < r[l].index
    ensures forall i :: 0 <= i < |values| && values[i] != 0.0 ==> EntryAt(values, coefs, names, i) in r
  {
    ContributionsFromComplete(values, coefs, names, 0);
    ContributionsFrom(values, coefs, names, 0)
  }

  // ---------------------------------------------------------------------------
  // Lines 45-52: the ranking order

  /** What `list.sort` with key `score` compares: `b` is strictly behind `a`
      in the requested direction. */
  predicate Behind(a: Contribution, b: Contribution, descending: bool)
  {
    if descending then b.score < a.score else a.score < b.score
  }

  /** The order a stable sort of an index-ordered list produces: by score in
      the requested direction, equal scores by ascending index. */
  predicate Precedes(a: Contribution, b: Contribution, descending: bool)
  {
    Behind(a, b, descending) || (a.score == b.score && a.index < b.index)
  }

  predicate Ranked(s: seq<Contribution>, descending: bool)
  {
    forall i, j :: 0 <= i < j < |s| ==> Precedes(s[i], s[j], descending)
  }

  predicate IndicesIncrease(s: seq<Contribution>)
  {
    forall i, j :: 0 <= i < j < |s| ==> s[i].index < s[j].index
  }

  predicate DistinctIndices(s: seq<Contribution>)
  {
    forall i, j :: 0 <= i < |s| && 0 <= j < |s| && i != j ==> s[i].index != s[j].index
  }

  /** Insert `x` at its place in a ranked list. */
  function Insert(x: Contribution, s: seq<Contribution>, descending: bool): (r: seq<Contribution>)
    ensures multiset(r) == multiset(s) + multiset{x}
  {
    if s == [] || Precedes(x, s[0], descending) then [x] + s
    else
      assert s == [s[0]] + s[1..];
      [s[0]] + Insert(x, s[1..], descending)
  }

  /** Reference definition of the ranking: insertion sort under `Precedes`. */
  function Rank(s: seq<Contribution>, descending: bool): (r: seq<Contribution>)
    ensures multiset(r) == multiset(s)
  {
    if s == [] then []
    else
      assert s == s[..|s| - 1] + [s[|s| - 1]];
      Insert(s[|s| - 1], Rank(s[..|s| - 1], descending), descending)
  }

  lemma {:induction false} InsertRanked(x: Contribution, s: seq<Contribution>, descending: bool)
    requires Ranked(s, descending)
    requires forall e :: e in s ==> e.index != x.index
    ensures Ranked(Insert(x, s, descending), descending)
    decreases |s|
  {
    if s != [] && !Precedes(x, s[0], descending) {
      assert Precedes(s[0], x, descending);
      var tail := Insert(x, s[1..], descending);
      assert forall e :: e in s[1..] ==> e in s;
      InsertRanked(x, s[1..], descending);
      var r := [s[0]] + tail;
      forall j | 0 < j < |r| ensures Precedes(s[0], r[j], descending) {
        assert r[j] in multiset(tail);
        assert r[j] == x || r[j] in s[1..];
      }
    }
  }

  lemma {:induction false} RankRanked(s: seq<Contribution>, descending: bool)
    requires DistinctIndices(s)
    ensures Ranked(Rank(s, descending), descending)
    decreases |s|
  {
    if s != [] {
      var init := s[..|s| - 1];
      var x := s[|s| - 1];
      assert DistinctIndices(init);
      RankRanked(init, descending);
      forall e | e in Rank(init, descending) ensures e.index != x.index {
        assert e in multiset(init);
        var k :| 0 <= k < |init| && init[k] == e;
        assert s[k] == e;
      }
      InsertRanked(x, Rank(init, descending), descending);
    }
  }

  /** `Precedes` is a strict total order on entries with distinct indices,
      so a ranked arrangement of a collection of such entries is unique. */
  lemma {:induction false} RankedUnique(s: seq<Contribution>, t: seq<Contribution>, descending: bool)
    requires Ranked(s, descending) && Ranked(t, descending)
    requires multiset(s) == multiset(t)
    ensures s == t
    decreases |s|
  {
    if s != [] {
      assert |t| == |multiset(t)| == |s|;
      HeadsAgree(s, t, descending);
      MultisetTail(s, t);
      assert Ranked(s[1..], descending) && Ranked(t[1..], descending) by {
        assert forall p :: 0 <= p < |s| - 1 ==> s[1..][p] == s[p + 1] && t[1..][p] == t[p + 1];
      }
      RankedUnique(s[1..], t[1..], descending);
      assert s == [s[0]] + s[1..] && t == [t[0]] + t[1..];
    }
  }

  lemma MultisetTail(s: seq<Contribution>, t: seq<Contribution>)
    requires multiset(s) == multiset(t) && s != [] && t != [] && s[0] == t[0]
    ensures multiset(s[1..]) == multiset(t[1..])
  {
    assert s == [s[0]] + s[1..] && t == [t[0]] + t[1..];
    assert multiset(s[1..]) == multiset(s) - multiset{s[0]};
    assert multiset(t[1..]) == multiset(t) - multiset{t[0]};
  }

  lemma HeadsAgree(s: seq<Contribution>, t: seq<Contribution>, descending: bool)
    requires Ranked(s, descending) && Ranked(t, descending)
    requires multiset(s) == multiset(t) && s != [] && t != []
    ensures s[0] == t[0]
  {
    assert s[0] in multiset(t);
    assert t[0] in multiset(s);
    var k :| 0 <= k < |t| && t[k] == s[0];
    var m :| 0 <= m < |s| && s[m] == t[0];
    if m != 0 && k != 0 {
      assert false;
    }
  }

  predicate IsPermutation(a: seq<Contribution>, b: seq<Contribution>)
  {
    multiset(a) == multiset(b)
  }

  /** The first `i` entries are ranked and every index among them is below
      every index after them. */
  predicate SortedUpTo(s: seq<Contribution>, i: nat, descending: bool)
  {
    i <= |s|
    && (forall p, q :: 0 <= p < q < i ==> Precedes(s[p], s[q], descending))
    && (forall p, q :: 0 <= p < i <= q < |s| ==> s[p].index < s[q].index)
  }

  /** Midway through inserting entry `i`, which now sits at `j`: the entries
      before it are ranked, and so are those it has passed, the first group
      precedes the second, it is strictly ahead of those it has passed, and
      its index is above everything before it. */
  predicate Inserting(s: seq<Contribution>, i: nat, j: nat, descending: bool)
  {
    j <= i < |s|
    && (forall p, q :: 0 <= p < q < j ==> Precedes(s[p], s[q], descending))
    && (forall p, q :: j < p < q <= i ==> Precedes(s[p], s[q], descending))
    && (forall p, q :: 0 <= p < j < q <= i ==> Precedes(s[p], s[q], descending))
    && (forall q :: j < q <= i ==> Behind(s[j], s[q], descending))
    && (forall p :: 0 <= p < j ==> s[p].index < s[j].index)
    && (forall p, q :: 0 <= p <= i < q < |s| ==> s[p].index < s[q].index)
  }

  lemma SuffixIncrease(s: seq<Contribution>, i: nat)
    requires IndicesIncrease(s) && i <= |s|
    ensures IndicesIncrease(s[i..])
  {
    assert forall p :: 0 <= p < |s[i..]| ==> s[i..][p] == s[i + p];
  }

  lemma BeginInsert(s: seq<Contribution>, i: nat, descending: bool)
    requires SortedUpTo(s, i, descending) && i < |s|
    requires IndicesIncrease(s[i..])
    ensures Inserting(s, i, i, descending)
  {
    forall q | i < q < |s| ensures s[i].index < s[q].index {
      assert s[i..][0] == s[i] && s[i..][q - i] == s[q];
    }
  }

  lemma SwapStep(s: seq<Contribution>, i: nat, j: nat, descending: bool)
    requires Inserting(s, i, j, descending) && 0 < j
    requires Behind(s[j], s[j - 1], descending)
    ensures Inserting(s[j - 1 := s[j]][j := s[j - 1]], i, j - 1, descending)
  {
    var t := s[j - 1 := s[j]][j := s[j - 1]];
    assert t[j - 1] == s[j] && t[j] == s[j - 1];
    assert forall p :: 0 <= p < |s| && p != j - 1 && p != j ==> t[p] == s[p];
  }

  lemma EndInsert(s: seq<Contribution>, i: nat, j: nat, descending: bool)
    requires Inserting(s, i, j, descending)
    requires j == 0 || !Behind(s[j], s[j - 1], descending)
    ensures SortedUpTo(s, i + 1, descending)
  {
    if j > 0 {
      assert Precedes(s[j - 1], s[j], descending);
      forall p | 0 <= p < j - 1 ensures Precedes(s[p], s[j], descending) {
        assert Precedes(s[p], s[j - 1], descending);
      }
    }
  }

  lemma RankedUpTo(s: seq<Contribution>, descending: bool)
    requires SortedUpTo(s, |s|, descending)
    ensures Ranked(s, descending)
  {
  }

  /** Lines 49 and 52: `list.sort` with key `score`, stable, descending when
      asked. The key is all it compares, as in the source, yet on a list in
      index order the outcome is the reference ranking. */
  method SortByScore(a: array<Contribution>, descending: bool)
    modifies a
    requires IndicesIncrease(a[..])
    ensures Ranked(a[..], descending)
    ensures IsPermutation(a[..], old(a[..]))
  {
    for i := 0 to a.Length
      invariant SortedUpTo(a[..], i, descending)
      invariant a[i..] == old(a[..])[i..]
      invariant IsPermutation(a[..], old(a[..]))
    {
      SuffixIncrease(old(a[..]), i);
      InsertAt(a, i, descending);
      assert a[i + 1..] == old(a[..])[i..][1..];
    }
    RankedUpTo(a[..], descending);
  }

  /** One pass of the insertion: move entry `i` left past the entries
      strictly behind it. */
  method InsertAt(a: array<Contribution>, i: nat, descending: bool)
    modifies a
    requires SortedUpTo(a[..], i, descending) && i < a.Length
    requires IndicesIncrease(a[i..])
    ensures SortedUpTo(a[..], i + 1, descending)
    ensures a[i + 1..] == old(a[i + 1..])
    ensures IsPermutation(a[..], old(a[..]))
  {
    BeginInsert(a[..], i, descending);
    var j := i;
    while j > 0 && Behind(a[j], a[j - 1], descending)
      invariant 0 <= j <= i
      invariant Inserting(a[..], i, j, descending)
      invariant a[i + 1..] == old(a[i + 1..])
      invariant IsPermutation(a[..], old(a[..]))
    {
      ghost var s := a[..];
      SwapStep(s, i, j, descending);
      SwapKeeps(s, i, j);
      a[j - 1], a[j] := a[j], a[j - 1];
      assert a[..] == s[j - 1 := s[j]][j := s[j - 1]];
      j := j - 1;
    }
    EndInsert(a[..], i, j, descending);
  }

  /** Exchanging two neighbours before position `i` permutes the entries and
      leaves everything after `i` alone. */
  lemma SwapKeeps(s: seq<Contribution>, i: nat, j: nat)
    requires 0 < j <= i < |s|
    ensures IsPermutation(s[j - 1 := s[j]][j := s[j - 1]], s)
    ensures s[j - 1 := s[j]][j := s[j - 1]][i + 1..] == s[i + 1..]
  {
  }

  // ---------------------------------------------------------------------------
  // Line 54 and the whole ranking

  function Min(x: int, y: int): int { if x <= y then x else y }

  /** `words_contrib` after the sort. */
  function AllRanked(values: seq<real>, coefs: seq<real>, names: seq<string>, descending: bool): seq<Contribution>
    requires |coefs| == |values| && |names| == |values|
  {
    Rank(WordsContrib(values, coefs, names), descending)
  }

  /** `words_contrib[:top_n]` after the sort. */
  function TopWords(values: seq<real>, coefs: seq<real>, names: seq<string>,
                    descending: bool, topN: nat): seq<Contribution>
    requires |coefs| == |values| && |names| == |values|
  {
    var ranked := AllRanked(values, coefs, names, descending);
    ranked[..Min(topN, |ranked|)]
  }

  lemma IncreasingDistinct(s: seq<Contribution>)
    requires IndicesIncrease(s)
    ensures DistinctIndices(s)
  {
    forall i, j | 0 <= i < |s| && 0 <= j < |s| && i != j ensures s[i].index != s[j].index {
      if i < j { assert s[i].index < s[j].index; } else { assert s[j].index < s[i].index; }
    }
  }

  /** How many feature values are non-zero. */
  function CountNonZero(values: seq<real>): nat
  {
    if values == [] then 0
    else (if values[0] != 0.0 then 1 else 0) + CountNonZero(values[1..])
  }

  lemma {:induction false} CountNonZeroNone(values: seq<real>)
    ensures CountNonZero(values) == 0 <==> forall i :: 0 <= i < |values| ==> values[i] == 0.0
  {
    if values != [] {
      CountNonZeroNone(values[1..]);
      assert forall i :: 1 <= i < |values| ==> values[i] == values[1..][i - 1];
    }
  }

  lemma {:induction false} ContributionsFromCount(values: seq<real>, coefs: seq<real>, names: seq<string>, from: nat)
    requires |coefs| == |values| && |names| == |values| && from <= |values|
    ensures |ContributionsFrom(values, coefs, names, from)| == CountNonZero(values[from..])
    decreases |values| - from
  {
    if from < |values| {
      ContributionsFromCount(values, coefs, names, from + 1);
      assert values[from..][1..] == values[from + 1..];
    }
  }

  /** The ranking holds every non-zero entry exactly once, in `Precedes`
      order. */
  lemma AllRankedRanked(values: seq<real>, coefs: seq<real>, names: seq<string>, descending: bool)
    requires |coefs| == |values| && |names| == |values|
    ensures Ranked(AllRanked(values, coefs, names, descending), descending)
    ensures IsPermutation(AllRanked(values, coefs, names, descending), WordsContrib(values, coefs, names))
    ensures |AllRanked(values, coefs, names, descending)| == CountNonZero(values)
  {
    var w := WordsContrib(values, coefs, names);
    IncreasingDistinct(w);
    RankRanked(w, descending);
    ContributionsFromCount(values, coefs, names, 0);
    assert values[0..] == values;
    var ranked := Rank(w, descending);
    assert |ranked| == |multiset(ranked)| == |multiset(w)| == |w|;
  }

  /** Every ranked entry is the entry of a non-zero index, and no index is
      ranked twice. */
  lemma AllRankedEntries(values: seq<real>, coefs: seq<real>, names: seq<string>, descending: bool)
    requires |coefs| == |values| && |names| == |values|
    ensures forall k :: 0 <= k < |AllRanked(values, coefs, names, descending)| ==>
              var e := AllRanked(values, coefs, names, descending)[k];
              e.index < |values| && values[e.index] != 0.0 && e == EntryAt(values, coefs, names, e.index)
    ensures DistinctIndices(AllRanked(values, coefs, names, descending))
  {
    var w := WordsContrib(values, coefs, names);
    var ranked := AllRanked(values, coefs, names, descending);
    AllRankedRanked(values, coefs, names, descending);
    forall k | 0 <= k < |ranked|
      ensures ranked[k].index < |values| && values[ranked[k].index] != 0.0
              && ranked[k] == EntryAt(values, coefs, names, ranked[k].index)
    {
      assert ranked[k] in multiset(w);
    }
    forall i, j | 0 <= i < |ranked| && 0 <= j < |ranked| && i != j ensures ranked[i].index != ranked[j].index {
      if i < j { assert Precedes(ranked[i], ranked[j], descending); }
      else { assert Precedes(ranked[j], ranked[i], descending); }
      assert ranked[i] != ranked[j];
    }
  }

  /** The number of words returned is `min(top_n, number of non-zero
      values)`. */
  lemma TopWordsLength(values: seq<real>, coefs: seq<real>, names: seq<string>, descending: bool, topN: nat)
    requires |coefs| == |values| && |names| == |values|
    ensures |TopWords(values, coefs, names, descending, topN)| == Min(topN, CountNonZero(values))
  {
    AllRankedRanked(values, coefs, names, descending);
  }

  /** Every returned entry is `(feature_names[i], values[i]*coefs[i])` for a
      non-zero `values[i]`, and no index is returned twice. */
  lemma TopWordsEntries(values: seq<real>, coefs: seq<real>, names: seq<string>, descending: bool, topN: nat)
    requires |coefs| == |values| && |names| == |values|
    ensures DistinctIndices(TopWords(values, coefs, names, descending, topN))
    ensures forall k :: 0 <= k < |TopWords(values, coefs, names, descending, topN)| ==>
              var e := TopWords(values, coefs, names, descending, topN)[k];
              e.index < |values| && values[e.index] != 0.0 && e == EntryAt(values, coefs, names, e.index)
  {
    AllRankedEntries(values, coefs, names, descending);
    var ranked := AllRanked(values, coefs, names, descending);
    var top := TopWords(values, coefs, names, descending, topN);
    assert forall k :: 0 <= k < |top| ==> top[k] == ranked[k];
  }

  /** In the `classes[1]` branch scores never increase along the list, in
      the other they never decrease, and equal scores keep ascending
      vocabulary order in both. */
  lemma TopWordsOrdered(values: seq<real>, coefs: seq<real>, names: seq<string>, descending: bool, topN: nat)
    requires |coefs| == |values| && |names| == |values|
    ensures forall i, j :: 0 <= i < j < |TopWords(values, coefs, names, descending, topN)| ==>
              var top := TopWords(values, coefs, names, descending, topN);
              (if descending then top[i].score >= top[j].score else top[i].score <= top[j].score)
              && (top[i].score == top[j].score ==> top[i].index < top[j].index)
  {
    AllRankedRanked(values, coefs, names, descending);
    var ranked := AllRanked(values, coefs, names, descending);
    var top := TopWords(values, coefs, names, descending, topN);
    forall i, j | 0 <= i < j < |top|
      ensures (if descending then top[i].score >= top[j].score else top[i].score <= top[j].score)
              && (top[i].score == top[j].score ==> top[i].index < top[j].index)
    {
      assert top[i] == ranked[i] && top[j] == ranked[j];
      assert Precedes(ranked[i], ranked[j], descending);
    }
  }

  /** The result is a prefix of the full ranking, and nothing left out is
      more extreme than anything returned. */
  lemma TopWordsPrefix(values: seq<real>, coefs: seq<real>, names: seq<string>, descending: bool, topN: nat)
    requires |coefs| == |values| && |names| == |values|
    ensures TopWords(values, coefs, names, descending, topN) <= AllRanked(values, coefs, names, descending)
    ensures forall k, o ::
              0 <= k < |TopWords(values, coefs, names, descending, topN)| <= o < |AllRanked(values, coefs, names, descending)| ==>
              var t := TopWords(values, coefs, names, descending, topN)[k];
              var r := AllRanked(values, coefs, names, descending)[o];
              if descending then r.score <= t.score else r.score >= t.score
  {
    AllRankedRanked(values, coefs, names, descending);
    var ranked := AllRanked(values, coefs, names, descending);
    var top := TopWords(values, coefs, names, descending, topN);
    forall k, o | 0 <= k < |top| <= o < |ranked|
      ensures if descending then ranked[o].score <= top[k].score else ranked[o].score >= top[k].score
    {
      assert top[k] == ranked[k];
      assert Precedes(ranked[k], ranked[o], descending);
    }
  }

  /** With every feature value zero no word is returned; with a positive
      `top_n` that is the only way to get none. */
  lemma TopWordsEmpty(values: seq<real>, coefs: seq<real>, names: seq<string>, descending: bool, topN: nat)
    requires |coefs| == |values| && |names| == |values|
    ensures (forall i :: 0 <= i < |values| ==> values[i] == 0.0) ==> TopWords(values, coefs, names, descending, topN) == []
    ensures topN > 0 && TopWords(values, coefs, names, descending, topN) == [] ==>
              forall i :: 0 <= i < |values| ==> values[i] == 0.0
  {
    TopWordsLength(values, coefs, names, descending, topN);
    CountNonZeroNone(values);
  }

  // ---------------------------------------------------------------------------
  // The classifier

  class FakeNewsClassifier {
    /** `vectorizer.transform([text]).toarray()[0]`. */
    const vectorize: string -> seq<real>
    /** `vectorizer.get_feature_names_out()`. */
    const featureNames: seq<string>
    /** `model.coef_[0]`. */
    const coefs: seq<real>
    /** `model.predict(vec)[0]`. */
    const predict: seq<real> -> string
    /** `model.predict_proba(vec)[0]`. */
    const predictProba: seq<real> -> seq<real>
    /** `list(model.classes_)`. */
    const classes: seq<string>

    /** What the fitted binary model guarantees about its parts. */
    ghost predicate Valid()
    {
      |coefs| == |featureNames| && |classes| == 2
      && forall t :: |vectorize(t)| == |featureNames|
    }

    /** Lines 6-10, with the loaded model and vectoriser given as their
        parts. */
    constructor (vectorize: string -> seq<real>, featureNames: seq<string>, coefs: seq<real>,
                 predict: seq<real> -> string, predictProba: seq<real> -> seq<real>, classes: seq<string>)
      requires |coefs| == |featureNames| && |classes| == 2
      requires forall t :: |vectorize(t)| == |featureNames|
      ensures Valid()
      ensures this.vectorize == vectorize && this.featureNames == featureNames && this.coefs == coefs
      ensures this.predict == predict && this.predictProba == predictProba && this.classes == classes
    {
      this.vectorize := vectorize;
      this.featureNames := featureNames;
      this.coefs := coefs;
      this.predict := predict;
      this.predictProba := predictProba;
      this.classes := classes;
    }

    /** Lines 12-16: the label and the probabilities of one text. */
    function PredictNews(text: string): (string, seq<real>)
    {
      var vec := vectorize(text);
      (predict(vec), predictProba(vec))
    }

    /** The word list `predict_with_explanation` returns for `text`. */
    function Explanation(text: string, topN: nat): seq<Contribution>
      requires Valid()
    {
      var vec := vectorize(text);
      TopWords(vec, coefs, featureNames, predict(vec) == classes[1], topN)
    }

    /** Lines 18-56. */
    method PredictWithExplanation(text: string, topN: nat)
      returns (pred: string, proba: seq<real>, topWords: seq<Contribution>)
      requires Valid()
      ensures (pred, proba) == PredictNews(text)
      ensures topWords == Explanation(text, topN)
    {
      var vec := vectorize(text);
      pred := predict(vec);
      proba := predictProba(vec);
      var wordsContrib := WordsContrib(vec, coefs, featureNames);
      var descending := pred == classes[1];
      var a := new Contribution[|wordsContrib|](i requires 0 <= i < |wordsContrib| => wordsContrib[i]);
      assert a[..] == wordsContrib;
      SortByScore(a, descending);
      ghost var ranked := AllRanked(vec, coefs, featureNames, descending);
      AllRankedRanked(vec, coefs, featureNames, descending);
      RankedUnique(a[..], ranked, descending);
      topWords := a[..Min(topN, a.Length)];
      assert topWords == ranked[..Min(topN, |ranked|)];
    }
  }
}
