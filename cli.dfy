/** `run_cli` in FakeNewsExam/src/main.py over the sequence of lines
    `input()` would return: which messages the session prints, in order, and
    how it ends. Message layout (field widths, number formatting) is not
    modelled; each message is one `Output` value. */
module Cli {
  import opened PyStrings
  import opened ModelPredict

  datatype Output =
    | Banner                              // line 8
    | Prompt                              // line 10
    | NoTextEntered                       // line 26
    | Prediction(predicted: string)       // line 31
    | Probabilities(proba: seq<real>)     // line 32
    | TopWordsHeader                      // line 35
    | WordLine(word: string, score: real) // line 38
    | NoInformativeWords                  // line 40
    | Separator                           // line 42

  /** The session ends by `return` on a quit word, or by the `EOFError`
      that `input()` raises when the lines run out, which nothing catches. */
  datatype Ending = Quit | EndOfInput

  /** Line 16. */
  predicate IsQuitToken(line: string)
  {
    LowerAscii(Strip(line)) in {"q", "quit", "exit"}
  }

  /** Line 29. */
  const TopN: nat := 8

  // ---------------------------------------------------------------------------
  // Segmentation of the input into requests

  /** What the inner loop (lines 13-20) reads: the lines of one request and
      what follows its terminating empty line, or the end of the session. */
  datatype Collected = Complete(lines: seq<string>, rest: seq<string>) | Ended(ending: Ending)

  function Collect(input: seq<string>): (c: Collected)
    ensures c.Complete? ==> |c.rest| < |input|
  {
    if input == [] then Ended(EndOfInput)
    else if IsQuitToken(input[0]) then Ended(Quit)
    else if input[0] == "" then Complete([], input[1..])
    else
      match Collect(input[1..])
      case Complete(ls, rest) => Complete([input[0]] + ls, rest)
      case Ended(e) => Ended(e)
  }

  /** The requests submitted, in order, each as its list of lines, and how
      the session ended. */
  datatype Segmentation = Segmentation(requests: seq<seq<string>>, ending: Ending)

  function Segment(input: seq<string>): Segmentation
    decreases |input|
  {
    match Collect(input)
    case Ended(e) => Segmentation([], e)
    case Complete(ls, rest) =>
      var tail := Segment(rest);
      Segmentation([ls] + tail.requests, tail.ending)
  }

  /** A line that can belong to a request: neither empty nor a quit word. */
  predicate ContentLine(line: string)
  {
    line != "" && !IsQuitToken(line)
  }

  predicate ContentLines(lines: seq<string>)
  {
    forall i :: 0 <= i < |lines| ==> ContentLine(lines[i])
  }

  /** The input that submits exactly `requests`: each one's lines followed by
      an empty line. */
  function Unsplit(requests: seq<seq<string>>): seq<string>
  {
    if requests == [] then [] else requests[0] + [""] + Unsplit(requests[1..])
  }

  /** The lines after the last submitted request. */
  function Remainder(input: seq<string>): seq<string>
    decreases |input|
  {
    match Collect(input)
    case Ended(_) => input
    case Complete(_, rest) => Remainder(rest)
  }

  /** Line 22. */
  function RequestText(lines: seq<string>): string
  {
    Join(lines, "\n")
  }

  /** Line 25. */
  predicate IsBlank(text: string)
  {
    Strip(text) == []
  }

  // ---------------------------------------------------------------------------
  // What is printed

  function WordLines(top: seq<Contribution>): (r: seq<Output>)
    ensures |r| == |top|
    ensures forall i :: 0 <= i < |top| ==> r[i] == WordLine(top[i].word, top[i].score)
  {
    if top == [] then [] else [WordLine(top[0].word, top[0].score)] + WordLines(top[1..])
  }

  /** Lines 31-42: the label, the probabilities, the word lines or the
      message that there are none, and the separator. */
  function Layout(predicted: string, proba: seq<real>, top: seq<Contribution>): seq<Output>
  {
    [Prediction(predicted), Probabilities(proba)]
    + (if top != [] then [TopWordsHeader] + WordLines(top) else [NoInformativeWords])
    + [Separator]
  }

  /** Lines 29-42 for one accepted request. */
  function Response(clf: FakeNewsClassifier, text: string): seq<Output>
    requires clf.Valid()
  {
    Layout(clf.PredictNews(text).0, clf.PredictNews(text).1, clf.Explanation(text, TopN))
  }

  /** Lines 22-42: what follows the prompt once a request is submitted. */
  function Handle(clf: FakeNewsClassifier, lines: seq<string>): seq<Output>
    requires clf.Valid()
  {
    var text := RequestText(lines);
    if IsBlank(text) then [NoTextEntered] else Response(clf, text)
  }

  /** One pass of the outer loop that ends in a submitted request. */
  function Reply(clf: FakeNewsClassifier, lines: seq<string>): seq<Output>
    requires clf.Valid()
  {
    [Prompt] + Handle(clf, lines)
  }

  function Replies(clf: FakeNewsClassifier, requests: seq<seq<string>>): seq<Output>
    requires clf.Valid()
  {
    if requests == [] then []
    else Replies(clf, requests[..|requests| - 1]) + Reply(clf, requests[|requests| - 1])
  }

  /** Everything the session prints. */
  function Transcript(clf: FakeNewsClassifier, input: seq<string>): seq<Output>
    requires clf.Valid()
  {
    [Banner] + Replies(clf, Segment(input).requests) + [Prompt]
  }

  /** Result of the inner loop, given the lines already collected. */
  function After(lines: seq<string>, c: Collected): Collected
  {
    match c
    case Complete(ls, rest) => Complete(lines + ls, rest)
    case Ended(e) => Ended(e)
  }

  /** Lines 13-20: read the lines of one request. */
  method ReadRequest(input: seq<string>) returns (c: Collected)
    ensures c == Collect(input)
  {
    var pos := 0;
    var lines: seq<string> := [];
    while true
      invariant 0 <= pos <= |input|
      invariant Collect(input) == After(lines, Collect(input[pos..]))
      decreases |input| - pos
    {
      if pos == |input| {
        return Ended(EndOfInput);
      }
      var line := input[pos];
      assert input[pos..][1..] == input[pos + 1..];
      pos := pos + 1;
      if IsQuitToken(line) {
        return Ended(Quit);
      }
      if line == "" {
        break;
      }
      lines := lines + [line];
    }
    return Complete(lines, input[pos..]);
  }

  /** Lines 36-38: one line per word, in list order. */
  method PrintWords(top: seq<Contribution>) returns (printed: seq<Output>)
    ensures printed == WordLines(top)
  {
    printed := [];
    for k := 0 to |top|
      invariant printed == WordLines(top[..k])
    {
      assert top[..k + 1] == top[..k] + [top[k]];
      WordLinesAppend(top[..k], [top[k]]);
      printed := printed + [WordLine(top[k].word, top[k].score)];
    }
    assert top[..|top|] == top;
  }

  /** Lines 29-42: predict and print for one accepted request. */
  method Respond(clf: FakeNewsClassifier, text: string) returns (printed: seq<Output>)
    requires clf.Valid()
    ensures printed == Response(clf, text)
  {
    var predicted, probs, topWords := clf.PredictWithExplanation(text, TopN);
    printed := [Prediction(predicted), Probabilities(probs)];
    if topWords != [] {
      var words := PrintWords(topWords);
      printed := printed + ([TopWordsHeader] + words);
    } else {
      printed := printed + [NoInformativeWords];
    }
    printed := printed + [Separator];
    assert printed == Layout(predicted, probs, topWords);
  }

  /** Lines 22-42: a blank request is refused (the `continue` of line 27),
      any other is answered. */
  method HandleRequest(clf: FakeNewsClassifier, lines: seq<string>) returns (printed: seq<Output>)
    requires clf.Valid()
    ensures printed == Handle(clf, lines)
  {
    var text := RequestText(lines);
    if IsBlank(text) {
      return [NoTextEntered];
    }
    printed := Respond(clf, text);
  }

  /** Lines 5-42, with the classifier built by the caller. */
  method RunCli(clf: FakeNewsClassifier, input: seq<string>) returns (out: seq<Output>, ending: Ending)
    requires clf.Valid()
    ensures out == Transcript(clf, input)
    ensures ending == Segment(input).ending
  {
    out := [Banner];
    var rest := input;
    ghost var done: seq<seq<string>> := [];
    while true
      invariant Segment(input) == Segmentation(done + Segment(rest).requests, Segment(rest).ending)
      invariant out == [Banner] + Replies(clf, done)
      decreases |rest|
    {
      ghost var base := out;
      out := out + [Prompt];
      var c := ReadRequest(rest);
      if c.Ended? {
        assert Segment(rest) == Segmentation([], c.ending);
        assert done + [] == done;
        ending := c.ending;
        return;
      }
      SegmentStep(input, done, rest);
      var printed := HandleRequest(clf, c.lines);
      OutputStep(clf, done, c.lines, base, printed);
      done := done + [c.lines];
      rest := c.rest;
      out := out + printed;
    }
  }

  lemma SegmentStep(input: seq<string>, done: seq<seq<string>>, rest: seq<string>)
    requires Segment(input) == Segmentation(done + Segment(rest).requests, Segment(rest).ending)
    requires Collect(rest).Complete?
    ensures var c := Collect(rest);
            Segment(input) == Segmentation((done + [c.lines]) + Segment(c.rest).requests, Segment(c.rest).ending)
  {
    var c := Collect(rest);
    assert Segment(rest) == Segmentation([c.lines] + Segment(c.rest).requests, Segment(c.rest).ending);
    assert done + ([c.lines] + Segment(c.rest).requests) == (done + [c.lines]) + Segment(c.rest).requests;
  }

  lemma RepliesSnoc(clf: FakeNewsClassifier, done: seq<seq<string>>, lines: seq<string>)
    requires clf.Valid()
    ensures Replies(clf, done + [lines]) == Replies(clf, done) + Reply(clf, lines)
  {
    assert (done + [lines])[..|done|] == done;
  }

  lemma OutputStep(clf: FakeNewsClassifier, done: seq<seq<string>>, lines: seq<string>, base: seq<Output>, printed: seq<Output>)
    requires clf.Valid()
    requires base == [Banner] + Replies(clf, done) && printed == Handle(clf, lines)
    ensures base + [Prompt] + printed == [Banner] + Replies(clf, done + [lines])
  {
    RepliesSnoc(clf, done, lines);
    assert Reply(clf, lines) == [Prompt] + printed;
    Regroup(base, [Banner], Replies(clf, done), [Prompt], printed);
  }

  lemma Regroup(base: seq<Output>, a: seq<Output>, b: seq<Output>, c: seq<Output>, d: seq<Output>)
    requires base == a + b
    ensures base + c + d == a + (b + (c + d))
  {
  }

  lemma {:induction false} WordLinesAppend(a: seq<Contribution>, b: seq<Contribution>)
    ensures WordLines(a + b) == WordLines(a) + WordLines(b)
  {
    assert |WordLines(a + b)| == |a + b|;
    forall i | 0 <= i < |a + b| ensures WordLines(a + b)[i] == (WordLines(a) + WordLines(b))[i] {
      if i >= |a| { assert (a + b)[i] == b[i - |a|]; }
    }
  }

  // ---------------------------------------------------------------------------
  // Properties of the session

  /** Content lines are collected as they are, until whatever `tail`
      produces. */
  lemma {:induction false} CollectContent(pending: seq<string>, tail: seq<string>)
    requires ContentLines(pending)
    ensures Collect(pending + tail) == After(pending, Collect(tail))
  {
    if pending == [] {
      assert pending + tail == tail;
      AfterAppend([], [], Collect(tail));
    } else {
      assert ContentLine(pending[0]);
      var more := pending[1..] + tail;
      assert pending + tail == [pending[0]] + more;
      CollectHead([pending[0]] + more);
      assert ([pending[0]] + more)[1..] == more;
      CollectContent(pending[1..], tail);
      AfterAppend([pending[0]], pending[1..], Collect(tail));
      assert [pending[0]] + pending[1..] == pending;
    }
  }

  /** A content line at the head is collected and reading goes on. */
  lemma CollectHead(input: seq<string>)
    requires input != [] && ContentLine(input[0])
    ensures Collect(input) == After([input[0]], Collect(input[1..]))
  {
  }

  lemma AfterAppend(a: seq<string>, b: seq<string>, c: Collected)
    ensures After(a, After(b, c)) == After(a + b, c)
    ensures After([], c) == c
  {
    match c
    case Complete(ls, rest) =>
      assert a + (b + ls) == (a + b) + ls;
      assert [] + ls == ls;
    case Ended(_) =>
  }

  /** The empty line is not a quit word. */
  lemma EmptyLineNotQuit()
    ensures !IsQuitToken("")
  {
    assert Strip("") == "";
    assert LowerAscii("") == "";
  }

  /** Submitting `requests` (each one's content lines, then an empty line),
      then some further content lines, then whatever ends the session, yields
      exactly `requests`: the unfinished lines are never submitted. */
  lemma {:induction false} SegmentUnsplit(requests: seq<seq<string>>, pending: seq<string>, tail: seq<string>)
    requires forall i :: 0 <= i < |requests| ==> ContentLines(requests[i])
    requires ContentLines(pending) && Collect(tail).Ended?
    ensures Segment(Unsplit(requests) + pending + tail) == Segmentation(requests, Collect(tail).ending)
  {
    var x := Unsplit(requests) + pending + tail;
    if requests == [] {
      assert x == pending + tail;
      CollectContent(pending, tail);
      SegmentEnded(x);
    } else {
      var more := Unsplit(requests[1..]) + pending + tail;
      UnsplitCons(requests[0], requests[1..]);
      assert [requests[0]] + requests[1..] == requests;
      RegroupRequest(Unsplit(requests), requests[0], Unsplit(requests[1..]), pending, tail);
      CollectRequest(requests[0], more);
      SegmentComplete(x);
      assert forall i :: 0 <= i < |requests[1..]| ==> requests[1..][i] == requests[i + 1];
      SegmentUnsplit(requests[1..], pending, tail);
    }
  }

  lemma RegroupRequest(u: seq<string>, lines: seq<string>, v: seq<string>, pending: seq<string>, tail: seq<string>)
    requires u == lines + [""] + v
    ensures u + pending + tail == lines + [""] + (v + pending + tail)
  {
  }

  /** A session whose first read ends it submits nothing. */
  lemma SegmentEnded(input: seq<string>)
    requires Collect(input).Ended?
    ensures Segment(input) == Segmentation([], Collect(input).ending)
  {
  }

  /** Content lines and then an empty line make one complete request. */
  lemma CollectRequest(lines: seq<string>, more: seq<string>)
    requires ContentLines(lines)
    ensures Collect(lines + [""] + more) == Complete(lines, more)
  {
    EmptyLineNotQuit();
    assert Collect([""] + more) == Complete([], more);
    CollectContent(lines, [""] + more);
    assert lines + ([""] + more) == lines + [""] + more;
    assert lines + [] == lines;
  }

  /** A quit word ends the session at once, even inside a request: the
      requests before it are all that is ever submitted. */
  lemma QuitDiscardsPending(requests: seq<seq<string>>, pending: seq<string>, q: string, rest: seq<string>)
    requires forall i :: 0 <= i < |requests| ==> ContentLines(requests[i])
    requires ContentLines(pending) && IsQuitToken(q)
    ensures Segment(Unsplit(requests) + pending + ([q] + rest)) == Segmentation(requests, Quit)
  {
    SegmentUnsplit(requests, pending, [q] + rest);
  }

  /** Running out of input inside a request submits nothing more. */
  lemma EndOfInputDiscardsPending(requests: seq<seq<string>>, pending: seq<string>)
    requires forall i :: 0 <= i < |requests| ==> ContentLines(requests[i])
    requires ContentLines(pending)
    ensures Segment(Unsplit(requests) + pending) == Segmentation(requests, EndOfInput)
  {
    SegmentUnsplit(requests, pending, []);
    assert Unsplit(requests) + pending + [] == Unsplit(requests) + pending;
  }

  /** A completed read is content lines followed by the empty line. */
  lemma {:induction false} CollectComplete(input: seq<string>)
    requires Collect(input).Complete?
    ensures ContentLines(Collect(input).lines)
    ensures input == Collect(input).lines + [""] + Collect(input).rest
  {
    if input[0] != "" {
      CollectHead(input);
      CollectComplete(input[1..]);
      var c := Collect(input[1..]);
      ConsLines(input, c.lines, c.rest);
    } else {
      assert input == [] + [""] + input[1..];
    }
  }

  lemma ConsLines(input: seq<string>, lines: seq<string>, rest: seq<string>)
    requires input != [] && ContentLine(input[0])
    requires ContentLines(lines) && input[1..] == lines + [""] + rest
    ensures ContentLines([input[0]] + lines)
    ensures input == [input[0]] + lines + [""] + rest
  {
    assert input == [input[0]] + input[1..];
    var l := [input[0]] + lines;
    forall i | 0 <= i < |l| ensures ContentLine(l[i]) {
      if i > 0 { assert l[i] == lines[i - 1]; }
    }
  }

  /** A session that goes on past a complete request submits that request
      first. */
  lemma SegmentComplete(input: seq<string>)
    requires Collect(input).Complete?
    ensures Segment(input) ==
              Segmentation([Collect(input).lines] + Segment(Collect(input).rest).requests, Segment(Collect(input).rest).ending)
    ensures Remainder(input) == Remainder(Collect(input).rest)
  {
  }

  /** Every submitted request consists of content lines. */
  lemma {:induction false} SegmentContent(input: seq<string>)
    ensures forall i :: 0 <= i < |Segment(input).requests| ==> ContentLines(Segment(input).requests[i])
    decreases |input|
  {
    var c := Collect(input);
    if c.Complete? {
      CollectComplete(input);
      SegmentContent(c.rest);
      SegmentComplete(input);
      var tail := Segment(c.rest).requests;
      var requests := [c.lines] + tail;
      forall i | 0 <= i < |requests| ensures ContentLines(requests[i]) {
        if i > 0 { assert requests[i] == tail[i - 1]; }
      }
    }
  }

  /** Every input is its submitted requests, each followed by an empty line,
      and then the remainder. */
  lemma {:induction false} SegmentDecomposes(input: seq<string>)
    ensures input == Unsplit(Segment(input).requests) + Remainder(input)
    decreases |input|
  {
    var c := Collect(input);
    if c.Complete? {
      CollectComplete(input);
      SegmentDecomposes(c.rest);
      SegmentComplete(input);
      var tail := Segment(c.rest).requests;
      var rem := Remainder(c.rest);
      UnsplitCons(c.lines, tail);
      ConcatStep(input, c.lines, c.rest, Unsplit(tail), rem);
    } else {
      assert Unsplit([]) + input == input;
    }
  }

  lemma ConcatStep(input: seq<string>, lines: seq<string>, rest: seq<string>, front: seq<string>, rem: seq<string>)
    requires input == lines + [""] + rest && rest == front + rem
    ensures input == (lines + [""] + front) + rem
  {
  }

  lemma UnsplitCons(lines: seq<string>, tail: seq<seq<string>>)
    ensures Unsplit([lines] + tail) == lines + [""] + Unsplit(tail)
  {
    assert ([lines] + tail)[0] == lines && ([lines] + tail)[1..] == tail;
  }

  /** Reading the remainder ends the session, the way the whole session
      ends. */
  lemma {:induction false} RemainderEnds(input: seq<string>)
    ensures Collect(Remainder(input)) == Ended(Segment(input).ending)
    decreases |input|
  {
    var c := Collect(input);
    if c.Complete? {
      RemainderEnds(c.rest);
      SegmentComplete(input);
    }
  }

  /** A request is refused exactly when every one of its lines is
      whitespace. */
  lemma BlankRequest(lines: seq<string>)
    ensures IsBlank(RequestText(lines)) <==> forall i :: 0 <= i < |lines| ==> AllSpace(lines[i])
  {
    assert IsSpace("\n"[0]);
    JoinAllSpace(lines, "\n");
    StripEmptyIffAllSpace(RequestText(lines));
  }

  /** The texts of the requests that reach the classifier, in order. */
  function Accepted(requests: seq<seq<string>>): seq<string>
  {
    if requests == [] then []
    else
      var text := RequestText(requests[|requests| - 1]);
      Accepted(requests[..|requests| - 1]) + if IsBlank(text) then [] else [text]
  }

  /** The predicted labels a transcript shows, in order. */
  function PredictionsShown(out: seq<Output>): seq<string>
  {
    if out == [] then []
    else (if out[0].Prediction? then [out[0].predicted] else []) + PredictionsShown(out[1..])
  }

  /** The word lines a transcript shows, in order. */
  function WordsShown(out: seq<Output>): seq<Output>
  {
    if out == [] then []
    else (if out[0].WordLine? then [out[0]] else []) + WordsShown(out[1..])
  }

  lemma {:induction false} ShownAppend(a: seq<Output>, b: seq<Output>)
    ensures PredictionsShown(a + b) == PredictionsShown(a) + PredictionsShown(b)
    ensures WordsShown(a + b) == WordsShown(a) + WordsShown(b)
  {
    if a == [] {
      assert a + b == b;
    } else {
      assert (a + b)[0] == a[0] && (a + b)[1..] == a[1..] + b;
      ShownAppend(a[1..], b);
    }
  }

  lemma {:induction false} WordLinesShown(top: seq<Contribution>)
    ensures WordsShown(WordLines(top)) == WordLines(top)
    ensures PredictionsShown(WordLines(top)) == []
  {
    if top != [] {
      WordLinesShown(top[1..]);
      ShownAppend([WordLine(top[0].word, top[0].score)], WordLines(top[1..]));
    }
  }

  /** What the layout shows between the probabilities and the separator. */
  function Body(top: seq<Contribution>): seq<Output>
  {
    if top != [] then [TopWordsHeader] + WordLines(top) else [NoInformativeWords]
  }

  lemma BodyShows(top: seq<Contribution>)
    ensures PredictionsShown(Body(top)) == []
    ensures WordsShown(Body(top)) == WordLines(top)
    ensures (NoInformativeWords in Body(top)) <==> top == []
  {
    WordLinesShown(top);
    if top != [] {
      ShownAppend([TopWordsHeader], WordLines(top));
      assert forall k :: 0 <= k < |top| ==> WordLines(top)[k] != NoInformativeWords;
      assert NoInformativeWords !in WordLines(top);
    }
  }

  lemma HeadShows(predicted: string, proba: seq<real>)
    ensures PredictionsShown([Prediction(predicted), Probabilities(proba)]) == [predicted]
    ensures WordsShown([Prediction(predicted), Probabilities(proba)]) == []
  {
    var head := [Prediction(predicted), Probabilities(proba)];
    var rest := [Probabilities(proba)];
    assert head[1..] == rest && rest[1..] == [];
    assert PredictionsShown(rest) == [] && WordsShown(rest) == [];
  }

  /** The layout shows the label once, then either the "no informative
      words" message, exactly when the word list is empty, or one line per
      word in order. */
  lemma LayoutShows(predicted: string, proba: seq<real>, top: seq<Contribution>)
    ensures PredictionsShown(Layout(predicted, proba, top)) == [predicted]
    ensures (NoInformativeWords in Layout(predicted, proba, top)) <==> top == []
    ensures WordsShown(Layout(predicted, proba, top)) == WordLines(top)
  {
    var head := [Prediction(predicted), Probabilities(proba)];
    var body := Body(top);
    assert Layout(predicted, proba, top) == head + body + [Separator];
    HeadShows(predicted, proba);
    BodyShows(top);
    ShownAppend(head, body);
    ShownAppend(head + body, [Separator]);
  }

  /** One accepted request prints its prediction once, then either the
      "no informative words" message, exactly when the word list is empty,
      or one line per word in ranking order: as many as the smaller of
      eight and the number of words present in the text. */
  lemma ResponseShows(clf: FakeNewsClassifier, text: string)
    requires clf.Valid()
    ensures PredictionsShown(Response(clf, text)) == [clf.PredictNews(text).0]
    ensures (NoInformativeWords in Response(clf, text)) <==> clf.Explanation(text, TopN) == []
    ensures WordsShown(Response(clf, text)) == WordLines(clf.Explanation(text, TopN))
    ensures |WordsShown(Response(clf, text))| == Min(TopN, CountNonZero(clf.vectorize(text)))
  {
    LayoutShows(clf.PredictNews(text).0, clf.PredictNews(text).1, clf.Explanation(text, TopN));
    var v := clf.vectorize(text);
    TopWordsLength(v, clf.coefs, clf.featureNames, clf.predict(v) == clf.classes[1], TopN);
  }

  /** One submitted request shows no prediction when it is blank and the
      label of its text otherwise. */
  lemma ReplyPredictions(clf: FakeNewsClassifier, lines: seq<string>)
    requires clf.Valid()
    ensures var text := RequestText(lines);
            PredictionsShown(Reply(clf, lines)) == if IsBlank(text) then [] else [clf.PredictNews(text).0]
  {
    var text := RequestText(lines);
    ShownAppend([Prompt], Handle(clf, lines));
    if IsBlank(text) {
      assert Handle(clf, lines) == [NoTextEntered];
    } else {
      ResponseShows(clf, text);
    }
  }

  /** The label the classifier gives each text, in order. */
  function Labels(clf: FakeNewsClassifier, texts: seq<string>): (r: seq<string>)
    ensures |r| == |texts|
    ensures forall i :: 0 <= i < |texts| ==> r[i] == clf.PredictNews(texts[i]).0
  {
    if texts == [] then [] else [clf.PredictNews(texts[0]).0] + Labels(clf, texts[1..])
  }

  lemma LabelsAppend(clf: FakeNewsClassifier, texts: seq<string>, t: seq<string>)
    ensures Labels(clf, texts + t) == Labels(clf, texts) + Labels(clf, t)
  {
    var l := Labels(clf, texts + t);
    assert l == Labels(clf, texts) + Labels(clf, t) by {
      forall i | 0 <= i < |l| ensures l[i] == (Labels(clf, texts) + Labels(clf, t))[i] {
        if i >= |texts| { assert (texts + t)[i] == t[i - |texts|]; }
      }
    }
  }

  /** The session shows one prediction per accepted request, in order, and
      none for refused or unfinished requests. */
  lemma {:induction false} RepliesPredictions(clf: FakeNewsClassifier, requests: seq<seq<string>>)
    requires clf.Valid()
    ensures PredictionsShown(Replies(clf, requests)) == Labels(clf, Accepted(requests))
  {
    if requests != [] {
      var init := requests[..|requests| - 1];
      var lines := requests[|requests| - 1];
      var text := RequestText(lines);
      RepliesPredictions(clf, init);
      ShownAppend(Replies(clf, init), Reply(clf, lines));
      ReplyPredictions(clf, lines);
      var t: seq<string> := if IsBlank(text) then [] else [text];
      assert Accepted(requests) == Accepted(init) + t;
      LabelsAppend(clf, Accepted(init), t);
      assert PredictionsShown(Reply(clf, lines)) == Labels(clf, t);
    }
  }

  /** In the whole session the predictions shown are the labels of the
      non-blank submitted requests, in order. */
  lemma TranscriptPredictions(clf: FakeNewsClassifier, input: seq<string>)
    requires clf.Valid()
    ensures PredictionsShown(Transcript(clf, input)) == Labels(clf, Accepted(Segment(input).requests))
  {
    var requests := Segment(input).requests;
    RepliesPredictions(clf, requests);
    ShownAppend([Banner], Replies(clf, requests));
    ShownAppend([Banner] + Replies(clf, requests), [Prompt]);
  }
}
