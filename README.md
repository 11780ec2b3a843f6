# FakeNewsExam core in Dafny

A model of the core of FakeNewsExam, a small fake-news detector. It covers
five pieces:

- the text cleaner `clean_text`, which repairs mis-decoded text, replaces
  mis-decoded punctuation, turns non-ASCII runs into spaces and collapses
  whitespace;
- the table logic of `load_and_prepare_data`. It cleans the FAKE and REAL
  frames, labels them and concatenates them. Then it drops duplicate
  (title, text) pairs keeping the first, drops rows with a missing field,
  and builds `combined_text`;
- `prepare_features`, which pairs `str(title) + " " + str(text)` with the
  label of every row;
- `FakeNewsClassifier.predict_with_explanation`. It keeps the words present
  in the text and computes each word's contribution `value * coef`. It
  stable-sorts them, most positive first when the prediction is
  `classes[1]` and most negative first otherwise, and keeps the first
  `top_n`;
- the interactive loop `run_cli`, taken as a function from the lines
  `input()` returns to the messages printed and the way the session ends.

Modules:

| module | file | models |
|---|---|---|
| `PyStrings` | `py_strings.dfy` | `str.isspace`, `strip`, `lower` on ASCII letters, `str.join` |
| `TextCleaner` | `text_cleaner.dfy` | `clean_text` |
| `CorpusLoader` | `corpus_loader.dfy` | `load_and_prepare_data` after the CSV files are read |
| `Preprocessing` | `preprocessing.dfy` | `prepare_features` |
| `ModelPredict` | `model_predict.dfy` | class `FakeNewsClassifier`, with the list sort over an `array` |
| `Cli` | `cli.dfy` | `run_cli` |

Points where the source is easy to misread:

- `clean_text` is not total. Only `UnicodeEncodeError` is caught (lines
  14-18). A latin-1 re-encoding that is not valid UTF-8 raises
  `UnicodeDecodeError`, and nothing catches it. So `CleanText` returns a
  `Result`, and a failure in any cell makes the whole load fail.
- The pattern of `data_loader.py` line 24 is three code points: U+00E2
  U+20AC U+009D. The last one is an invisible control character. The
  pattern is not the two-character prefix shared by the patterns of lines
  25-28, so it does not shadow them.
- The patterns of lines 25 and 26 end in U+201C and U+201D. These are the
  mis-decoded en dash and em dash. `LaterPatternRepaired` proves that each
  of the patterns of lines 25-28 is still repaired.
- The `continue` of `main.py` line 27 is an early return in `HandleRequest`.
  The `return` of line 17 is the `Ended(Quit)` result of `ReadRequest`.
- `input()` raising `EOFError` once the lines run out is the session ending
  `EndOfInput`.
- Python's sort is stable, also with `reverse=True`. `words_contrib` is
  built in ascending vocabulary order. So tied scores keep ascending index
  in both branches. The reference order `Precedes` says this, and `Rank`
  builds the ranking from it. `RankedUnique` shows that only one
  arrangement is ranked, so the in-place `SortByScore` result is exactly
  `Rank`.
- Per-entry ties are compared on the contribution alone (`Behind`). This
  is what `key=lambda x: x[1]` compares.

## Model

| member | source | states |
|---|---|---|
| PyStrings.IsSpace | FakeNewsExam/src/dataprocessing/data_loader.py:34 | definition of the characters `str.isspace` accepts, which are also what `\s` matches and what `strip()` removes; used by `StripSpec` and `StripEmptyIffAllSpace` |
| PyStrings.TrimLeft | FakeNewsExam/src/dataprocessing/data_loader.py:34 | definition of `lstrip()`; its property is stated by `TrimLeftSpec` |
| PyStrings.TrimRight | FakeNewsExam/src/dataprocessing/data_loader.py:34 | definition of `rstrip()`; its property is stated by `TrimRightSpec` |
| PyStrings.Strip | FakeNewsExam/src/dataprocessing/data_loader.py:34 | definition of `strip()`, also used at main.py lines 16 and 25; its properties are stated by `StripSpec`, `StripNoEdgeSpace` and `StripEmptyIffAllSpace` |
| PyStrings.StripSpec | FakeNewsExam/src/dataprocessing/data_loader.py:34 | `strip()` returns the slice of the text between a whitespace-only prefix and a whitespace-only suffix, and the slice has no whitespace at either end |
| PyStrings.TrimLeftSpec | FakeNewsExam/src/dataprocessing/data_loader.py:34 | the left strip removes a whitespace-only prefix and stops at the first non-whitespace character |
| PyStrings.TrimRightSpec | FakeNewsExam/src/dataprocessing/data_loader.py:34 | the right strip removes a whitespace-only suffix and stops at the last non-whitespace character |
| PyStrings.StripNoEdgeSpace | FakeNewsExam/src/dataprocessing/data_loader.py:34 | `strip()` leaves a text without edge whitespace unchanged |
| PyStrings.StripEmptyIffAllSpace | FakeNewsExam/src/main.py:25 | `not text.strip()` holds exactly when every character is whitespace |
| PyStrings.LowerAscii | FakeNewsExam/src/main.py:16 | definition of `lower()` for the quit test; its property is stated by `LowerAsciiSpec` |
| PyStrings.LowerAsciiSpec | FakeNewsExam/src/main.py:16 | lower-casing keeps the length and maps each character on its own, A-Z to a-z |
| PyStrings.Join | FakeNewsExam/src/main.py:22 | definition of `sep.join(parts)`; its property for the blank test is stated by `JoinAllSpace` |
| PyStrings.JoinAllSpace | FakeNewsExam/src/main.py:22 | joining with a whitespace separator gives an all-whitespace text exactly when every part is all whitespace |
| TextCleaner.Latin1Encode | FakeNewsExam/src/dataprocessing/data_loader.py:15 | latin-1 encoding fails exactly when some character is above U+00FF; otherwise it gives one byte per character, equal to its code |
| TextCleaner.Repair | FakeNewsExam/src/dataprocessing/data_loader.py:14-18 | an unencodable text is kept as it is; an encodable one fails exactly when the decoder rejects its latin-1 bytes, and otherwise becomes the decoded text |
| TextCleaner.ReplaceAll | FakeNewsExam/src/dataprocessing/data_loader.py:21-28 | definition of `str.replace`; what it computes is stated by `ReplaceAllOccurrence` and `ReplaceAllNoMatch`, and `ReplaceAllRemoves` states that no occurrence is left |
| TextCleaner.ReplaceAllOccurrence | FakeNewsExam/src/dataprocessing/data_loader.py:21-28 | the first occurrence of the pattern becomes the replacement; the text before it is kept as it is, and the text after it is replaced on its own |
| TextCleaner.ReplaceAllNoMatch | FakeNewsExam/src/dataprocessing/data_loader.py:21-28 | `replace` leaves a text that does not contain the pattern unchanged |
| TextCleaner.ReplaceAllRemoves | FakeNewsExam/src/dataprocessing/data_loader.py:21-28 | after a replacement whose result cannot recreate the pattern, no occurrence of the pattern remains |
| TextCleaner.Replacements | FakeNewsExam/src/dataprocessing/data_loader.py:20-29 | the eight (pattern, replacement) pairs of lines 21-28, in order, as code points; their properties are stated by `ReplacementsTableValid`, `ApplyReplacementsAscii` and `LaterPatternRepaired` |
| TextCleaner.ReplacementsTableValid | FakeNewsExam/src/dataprocessing/data_loader.py:20-29 | each of the eight patterns is non-empty and starts with a non-ASCII character, and no replacement can recreate its own pattern |
| TextCleaner.ApplyReplacements | FakeNewsExam/src/dataprocessing/data_loader.py:20-29 | definition of the replacement chain; its properties are stated by `ApplyReplacementsConcat`, `ApplyReplacementsAscii`, `ReplacementStepRemoves` and `LaterPatternRepaired` |
| TextCleaner.ReplacementStepRemoves | FakeNewsExam/src/dataprocessing/data_loader.py:20-29 | after the k-th replacement of the chain, the k-th pattern no longer occurs |
| TextCleaner.EarlierStepsKeep | FakeNewsExam/src/dataprocessing/data_loader.py:20-28 | the replacements before one of lines 25-28 leave that line's pattern as it is |
| TextCleaner.ApplyReplacementsAscii | FakeNewsExam/src/dataprocessing/data_loader.py:20-29 | the replacement chain leaves ASCII text unchanged |
| TextCleaner.ApplyReplacementsConcat | FakeNewsExam/src/dataprocessing/data_loader.py:20-29 | the replacements apply one after another, in table order: running two parts of the table in turn is running the whole table |
| TextCleaner.LaterPatternRepaired | FakeNewsExam/src/dataprocessing/data_loader.py:24-28 | the line-24 step does not consume the patterns of lines 25-28: a text made of one of them comes out as that line's replacement |
| TextCleaner.ReplaceRunsRun | FakeNewsExam/src/dataprocessing/data_loader.py:32 | each maximal run of class characters turns into exactly one space |
| TextCleaner.SkipRun | FakeNewsExam/src/dataprocessing/data_loader.py:32-34 | the `+` consumes a prefix made only of class characters and stops at the first other character |
| TextCleaner.ReplaceRunsCollapses | FakeNewsExam/src/dataprocessing/data_loader.py:32-34 | after the substitution every class character is a space and no two are adjacent |
| TextCleaner.ReplaceRunsFixedPoint | FakeNewsExam/src/dataprocessing/data_loader.py:32-34 | a text whose runs are already single spaces is unchanged by the substitution |
| TextCleaner.SkipRunAll | FakeNewsExam/src/dataprocessing/data_loader.py:32-34 | the `+` of the pattern consumes the whole run and nothing after it |
| TextCleaner.ReplaceRuns | FakeNewsExam/src/dataprocessing/data_loader.py:32-34 | definition of `re.sub` with a `[class]+` pattern and a single-space replacement; its properties are stated by `ReplaceRunsRun`, `ReplaceRunsCollapses` and `ReplaceRunsFixedPoint` |
| TextCleaner.CollapsedNonAsciiIsAscii | FakeNewsExam/src/dataprocessing/data_loader.py:32 | once the non-ASCII runs are collapsed, the text is ASCII only |
| TextCleaner.ReplaceRunsKeepsAscii | FakeNewsExam/src/dataprocessing/data_loader.py:34 | collapsing whitespace keeps an ASCII text ASCII |
| TextCleaner.StripNormalizes | FakeNewsExam/src/dataprocessing/data_loader.py:34 | stripping an ASCII text whose whitespace runs are single spaces gives ASCII text with single inner spaces and no edge whitespace |
| TextCleaner.Normalize | FakeNewsExam/src/dataprocessing/data_loader.py:20-34 | definition of lines 20-34 applied to the repaired text; its properties are stated by `NormalizeNormalized` and `NormalizeFixedPoint` |
| TextCleaner.NormalizeNormalized | FakeNewsExam/src/dataprocessing/data_loader.py:20-34 | after the replacements and the two substitutions, the text is ASCII, its whitespace is single spaces, and it has no edge whitespace |
| TextCleaner.NormalizeFixedPoint | FakeNewsExam/src/dataprocessing/data_loader.py:20-34 | a text already in that form goes through lines 20-34 unchanged |
| TextCleaner.CleanText | FakeNewsExam/src/dataprocessing/data_loader.py:6-35 | a missing cell is unchanged; a decode failure happens exactly when the latin-1 bytes are not valid UTF-8; an unencodable text is normalized as it is; a decodable one is normalized after decoding; every string result is normalized |
| TextCleaner.CleanTextIdempotent | FakeNewsExam/src/dataprocessing/data_loader.py:13-35 | cleaning a cleaned cell again changes nothing, for any decoder that decodes ASCII bytes to themselves |
| CorpusLoader.CleanRows | FakeNewsExam/src/dataprocessing/data_loader.py:59-61 | cleaning a frame fails exactly when some cell of it fails to decode; otherwise it keeps the number of rows and row i is row i of the input with both cells cleaned |
| CorpusLoader.CleanRow | FakeNewsExam/src/dataprocessing/data_loader.py:60-61 | a row fails exactly when its title or its text fails to decode; otherwise both cells are the cleaned cells |
| CorpusLoader.Tag | FakeNewsExam/src/dataprocessing/data_loader.py:64-65 | every row keeps its title and text and gets the frame's label |
| CorpusLoader.DropMissing | FakeNewsExam/src/dataprocessing/data_loader.py:77 | no kept row has a missing title or text |
| CorpusLoader.DropMissingKeeps | FakeNewsExam/src/dataprocessing/data_loader.py:77 | every row with both title and text present survives `dropna` |
| CorpusLoader.DropMissingSubsequence | FakeNewsExam/src/dataprocessing/data_loader.py:77 | dropping missing rows keeps the order of the rest |
| CorpusLoader.DropMissingAppend | FakeNewsExam/src/dataprocessing/data_loader.py:77 | dropping missing rows works row by row across a concatenation |
| CorpusLoader.DedupFromSubsequence | FakeNewsExam/src/dataprocessing/data_loader.py:76 | deduplication keeps rows in their order |
| CorpusLoader.DedupFromUnique | FakeNewsExam/src/dataprocessing/data_loader.py:76 | after deduplication no two rows share a (title, text) pair, and no kept pair was already seen |
| CorpusLoader.DedupFromKeys | FakeNewsExam/src/dataprocessing/data_loader.py:76 | exactly the pairs not seen before survive deduplication |
| CorpusLoader.DedupFromKeepsFirst | FakeNewsExam/src/dataprocessing/data_loader.py:76 | every kept row is the first row of the input with its pair |
| CorpusLoader.DedupFromAppend | FakeNewsExam/src/dataprocessing/data_loader.py:68-76 | deduplicating FAKE rows followed by REAL rows deduplicates the FAKE rows, then the REAL rows against every FAKE pair |
| CorpusLoader.Key | FakeNewsExam/src/dataprocessing/data_loader.py:76 | definition of the columns `drop_duplicates` compares, title and text, with a missing value equal to itself as pandas compares it; used by `DedupFromUnique` and `DedupFromKeys` |
| CorpusLoader.DedupFrom | FakeNewsExam/src/dataprocessing/data_loader.py:76 | definition of `drop_duplicates` against already seen keys; its properties are stated by `DedupFromSubsequence`, `DedupFromUnique`, `DedupFromKeys`, `DedupFromKeepsFirst` and `DedupFromAppend` |
| CorpusLoader.DropDuplicates | FakeNewsExam/src/dataprocessing/data_loader.py:76 | definition of `drop_duplicates(subset=["title", "text"], keep="first")`; its properties are stated by `SurvivorsDeduplicated` and `RealDuplicateOfFakeDropped` |
| CorpusLoader.PartOfSource | FakeNewsExam/src/dataprocessing/data_loader.py:76-77 | what survives of one frame is a subsequence of that frame |
| CorpusLoader.SurvivorsSplit | FakeNewsExam/src/dataprocessing/data_loader.py:64-77 | the merged table is the surviving FAKE rows in file order, all labelled FAKE, then the surviving REAL rows in file order, all labelled REAL |
| CorpusLoader.FakeBeforeReal | FakeNewsExam/src/dataprocessing/data_loader.py:64-68 | no FAKE row comes after a REAL row |
| CorpusLoader.SurvivorsDeduplicated | FakeNewsExam/src/dataprocessing/data_loader.py:76-77 | the result has no duplicate pair; each row is the first of the merged table with its pair; every pair with both fields present survives |
| CorpusLoader.RealDuplicateOfFakeDropped | FakeNewsExam/src/dataprocessing/data_loader.py:76 | a pair present among the FAKE rows survives only as a FAKE row |
| CorpusLoader.Survivors | FakeNewsExam/src/dataprocessing/data_loader.py:64-77 | definition of the merged, deduplicated table without missing fields; its properties are stated by `SurvivorsSplit`, `FakeBeforeReal` and `SurvivorsDeduplicated` |
| CorpusLoader.Prepared | FakeNewsExam/src/dataprocessing/data_loader.py:58-86 | definition of the returned table; its properties are stated by `PreparedRecords` and `LoadAndPrepareData` |
| CorpusLoader.Combine | FakeNewsExam/src/dataprocessing/data_loader.py:80-84 | definition of `title + " " + text` with the label kept and the other columns dropped; `PreparedRecords` states that every record is built this way |
| CorpusLoader.PreparedRecords | FakeNewsExam/src/dataprocessing/data_loader.py:58-86 | the load fails exactly when some cell of either frame fails to decode; otherwise there is one record per surviving row, in order, with combined text title + " " + text and the row's label |
| CorpusLoader.LoadAndPrepareData | FakeNewsExam/src/dataprocessing/data_loader.py:58-86 | the loops over the frames and rows, and over the records, return exactly the prepared table, or the decode failure |
| Preprocessing.StrOf | FakeNewsExam/src/dataprocessing/preprocessing.py:9 | definition of `astype(str)` on a text cell: a string is kept and a missing value is "nan"; used by `PrepareFeatures` |
| Preprocessing.PrepareFeatures | FakeNewsExam/src/dataprocessing/preprocessing.py:7-12 | X has one text per row, in order, nothing dropped, X[i] = str(title) + " " + str(text) with a missing value printed as "nan"; y is the label column, of the same length |
| Preprocessing.PrepareFeaturesAgreesWithLoader | FakeNewsExam/src/dataprocessing/preprocessing.py:9 | on rows with both fields present, X is the loader's combined text |
| Preprocessing.PrepareFeaturesAppend | FakeNewsExam/src/dataprocessing/preprocessing.py:9-10 | the preparation is row-wise: preparing a concatenation concatenates the preparations |
| ModelPredict.EntryAt | FakeNewsExam/src/model/model_predict.py:35-40 | definition of the pair line 40 builds for index i, with contribution values[i] * coefs[i] from line 35; `ContributionsFrom` and `WordsContrib` state that every entry is built this way |
| ModelPredict.ContributionsFrom | FakeNewsExam/src/model/model_predict.py:35-40 | each entry is (names[i], values[i]*coefs[i]) for a non-zero value, with indices increasing |
| ModelPredict.WordsContrib | FakeNewsExam/src/model/model_predict.py:35-40 | `words_contrib` holds one entry per non-zero value, in ascending index order, and every non-zero value's entry is in it |
| ModelPredict.CountNonZeroNone | FakeNewsExam/src/model/model_predict.py:38 | no index is kept exactly when every feature value is zero |
| ModelPredict.Behind | FakeNewsExam/src/model/model_predict.py:47-52 | definition of the comparison the sort key makes: score only, reversed when sorting most positive first; `SortByScore` and `RankRanked` are stated with it |
| ModelPredict.Insert | FakeNewsExam/src/model/model_predict.py:47-52 | inserting an entry into a ranking adds exactly that entry |
| ModelPredict.InsertAt | FakeNewsExam/src/model/model_predict.py:47-52 | one insertion step of the in-place sort extends the sorted prefix by one entry, leaves the rest of the array alone and permutes the contents |
| ModelPredict.InsertRanked | FakeNewsExam/src/model/model_predict.py:47-52 | inserting a new index into a ranked list keeps it ranked |
| ModelPredict.Rank | FakeNewsExam/src/model/model_predict.py:47-52 | the reference ranking is a permutation of its input |
| ModelPredict.RankRanked | FakeNewsExam/src/model/model_predict.py:47-52 | the reference ranking orders by score (descending or ascending), ties by ascending index |
| ModelPredict.RankedUnique | FakeNewsExam/src/model/model_predict.py:47-52 | two ranked arrangements of the same entries are equal: the sort's result is determined |
| ModelPredict.SortByScore | FakeNewsExam/src/model/model_predict.py:47-52 | sorting the array in place on score alone leaves it ranked, a stable score order, and a permutation of its old contents |
| ModelPredict.AllRankedRanked | FakeNewsExam/src/model/model_predict.py:38-52 | the sorted list is ranked, a permutation of `words_contrib`, and as long as the number of non-zero values |
| ModelPredict.AllRankedEntries | FakeNewsExam/src/model/model_predict.py:35-52 | every sorted entry is (names[i], values[i]*coefs[i]) for a non-zero value, and no index appears twice |
| ModelPredict.AllRanked | FakeNewsExam/src/model/model_predict.py:45-52 | definition of the sorted `words_contrib`; its properties are stated by `AllRankedRanked` and `AllRankedEntries` |
| ModelPredict.TopWords | FakeNewsExam/src/model/model_predict.py:45-54 | definition of the returned word list; its properties are stated by `TopWordsLength`, `TopWordsEntries`, `TopWordsOrdered`, `TopWordsPrefix` and `TopWordsEmpty` |
| ModelPredict.TopWordsLength | FakeNewsExam/src/model/model_predict.py:38-54 | the number of words returned is min(top_n, number of non-zero values) |
| ModelPredict.TopWordsEntries | FakeNewsExam/src/model/model_predict.py:35-54 | every returned pair comes from a non-zero value with its own contribution, and no index is returned twice |
| ModelPredict.TopWordsOrdered | FakeNewsExam/src/model/model_predict.py:45-54 | scores never increase along the list when the prediction is `classes[1]`, and never decrease otherwise |
| ModelPredict.TopWordsPrefix | FakeNewsExam/src/model/model_predict.py:47-54 | the result is a prefix of the full ranking, and no entry left out is more extreme than one returned |
| ModelPredict.TopWordsEmpty | FakeNewsExam/src/model/model_predict.py:38-54 | all values zero gives an empty list; an empty list with a positive `top_n` means all values are zero |
| ModelPredict.FakeNewsClassifier.constructor | FakeNewsExam/src/model/model_predict.py:6-10 | the classifier holds the given vectoriser and fitted model |
| ModelPredict.FakeNewsClassifier.PredictNews | FakeNewsExam/src/model/model_predict.py:12-16 | definition of `predict_news`: the model's label and probabilities for the vectorised text; `PredictWithExplanation` states that it returns these |
| ModelPredict.FakeNewsClassifier.Explanation | FakeNewsExam/src/model/model_predict.py:23-54 | definition of the word list for a text: the sorted `words_contrib` of its vector cut to `top_n`, descending exactly when the prediction is `classes[1]`; `PredictWithExplanation` states that it returns this list |
| ModelPredict.FakeNewsClassifier.PredictWithExplanation | FakeNewsExam/src/model/model_predict.py:18-56 | the label and probabilities are those `predict_news` gives; the word list is the sorted `words_contrib` cut to `top_n` |
| Cli.IsQuitToken | FakeNewsExam/src/main.py:16 | definition of the quit test on the stripped, lower-cased line; `EmptyLineNotQuit` and `QuitDiscardsPending` are stated with it |
| Cli.TopN | FakeNewsExam/src/main.py:29 | the `top_n=8` the program passes; `ResponseShows` states that at most this many words are shown |
| Cli.Collect | FakeNewsExam/src/main.py:13-20 | a completed request leaves strictly fewer lines to read |
| Cli.ReadRequest | FakeNewsExam/src/main.py:13-20 | the inner loop returns exactly the collected request, or the ending |
| Cli.CollectContent | FakeNewsExam/src/main.py:14-20 | lines that are neither empty nor a quit word are appended as they are, whitespace-only lines included |
| Cli.EmptyLineNotQuit | FakeNewsExam/src/main.py:16-19 | the empty line is not a quit word, so it reaches the check of line 18 |
| Cli.CollectRequest | FakeNewsExam/src/main.py:13-20 | content lines followed by "" form one complete request without the terminator |
| Cli.CollectComplete | FakeNewsExam/src/main.py:13-20 | a completed request is content lines followed by "" |
| Cli.SegmentUnsplit | FakeNewsExam/src/main.py:9-20 | input made of requests, each followed by "", then unfinished content lines, then an ending, submits exactly those requests |
| Cli.QuitDiscardsPending | FakeNewsExam/src/main.py:15-17 | a quit word ends the session at once; the lines collected before it are never submitted |
| Cli.EndOfInputDiscardsPending | FakeNewsExam/src/main.py:15 | running out of input ends the session; the lines collected before are never submitted |
| Cli.SegmentDecomposes | FakeNewsExam/src/main.py:9-20 | every input is its submitted requests, each followed by "", and then a remainder |
| Cli.Segment | FakeNewsExam/src/main.py:9-20 | definition of how the outer loop splits the input lines into submitted requests and an ending; its properties are stated by `SegmentUnsplit`, `SegmentDecomposes`, `SegmentContent`, `RemainderEnds`, `QuitDiscardsPending` and `EndOfInputDiscardsPending` |
| Cli.SegmentContent | FakeNewsExam/src/main.py:13-20 | every submitted request is made of lines that are neither empty nor a quit word |
| Cli.RemainderEnds | FakeNewsExam/src/main.py:9-20 | reading what is left after the last submitted request ends the session in the way the segmentation reports |
| Cli.RequestText | FakeNewsExam/src/main.py:22 | definition of joining the lines with "\n"; used by `BlankRequest` |
| Cli.IsBlank | FakeNewsExam/src/main.py:25 | definition of `not text.strip()`; `BlankRequest` states exactly when it holds |
| Cli.BlankRequest | FakeNewsExam/src/main.py:22-27 | a request is refused exactly when every one of its lines is whitespace |
| Cli.WordLines | FakeNewsExam/src/main.py:36-38 | one printed line per word, in list order |
| Cli.PrintWords | FakeNewsExam/src/main.py:36-38 | the loop over the word list prints exactly one line per word, in list order |
| Cli.BodyShows | FakeNewsExam/src/main.py:34-40 | the part after the probabilities shows no prediction; its word lines are the list in order; the no-words message appears exactly when the list is empty |
| Cli.Layout | FakeNewsExam/src/main.py:31-42 | definition of the printed messages for one prediction; its properties are stated by `LayoutShows` |
| Cli.LayoutShows | FakeNewsExam/src/main.py:31-42 | the label is printed once; the no-words message appears exactly when the list is empty; otherwise the word lines are the list in order |
| Cli.Respond | FakeNewsExam/src/main.py:29-42 | printing for an accepted request gives exactly its response |
| Cli.ResponseShows | FakeNewsExam/src/main.py:29-42 | each accepted request makes one prediction; the no-words message appears exactly when the explanation with `top_n=8` is empty; the word lines are that explanation in order, min(8, number of words present) of them |
| Cli.Response | FakeNewsExam/src/main.py:29-42 | definition of the output for an accepted request; its properties are stated by `Respond` and `ResponseShows` |
| Cli.HandleRequest | FakeNewsExam/src/main.py:22-42 | a blank request prints only the retry message; any other prints its response |
| Cli.Handle | FakeNewsExam/src/main.py:22-42 | definition of the output for one submitted request; its properties are stated by `HandleRequest` and `ReplyPredictions` |
| Cli.ReplyPredictions | FakeNewsExam/src/main.py:22-42 | a blank request shows no prediction; any other shows exactly the label of its joined text |
| Cli.Labels | FakeNewsExam/src/main.py:29-31 | one label per text, in order, each the prediction for that text |
| Cli.Reply | FakeNewsExam/src/main.py:10-42 | definition of the prompt followed by the output for one submitted request; its property is stated by `ReplyPredictions` |
| Cli.Replies | FakeNewsExam/src/main.py:9-42 | definition of the replies to the submitted requests, in order; its property is stated by `RepliesPredictions` |
| Cli.RunCli | FakeNewsExam/src/main.py:5-42 | the session prints the banner, then for each submitted request a prompt and that request's output, then the final prompt; it ends as the segmentation says |
| Cli.Transcript | FakeNewsExam/src/main.py:5-42 | definition of everything the session prints; its properties are stated by `RunCli` and `TranscriptPredictions` |
| Cli.RepliesPredictions | FakeNewsExam/src/main.py:9-42 | the predictions shown for a list of submitted requests are the labels of the non-blank ones, in order, one each |
| Cli.TranscriptPredictions | FakeNewsExam/src/main.py:5-42 | in the whole session, the predictions shown are exactly the labels of the non-blank submitted requests, in order |

## Left out

- Reading `Fake.csv` and `True.csv` (lines 50-56 of `data_loader.py`). The rows are parameters.
- The UTF-8 decoder is a parameter: any function from bytes to text that may fail. Latin-1 encoding is modelled exactly.
- Table cells are a string or a missing value (NaN). Numbers and other cell kinds are not modelled.
- The `subject` and `date` columns (lines 70-73) are not carried. Rows hold only title, text and label, so dropping those columns is the identity.
- `reset_index` (line 77): row positions are implicit in the sequence.
- Loading the model and vectoriser with `joblib` (lines 6-10 of `model_predict.py`). The constructor takes them as values.
- The TF-IDF vectoriser, `predict`, `predict_proba`, `coef_` and `classes_` are opaque functions and sequences. `Valid` states the shapes a fitted binary model has.
- Floating point: values, coefficients and probabilities are `real`. NaN and rounding are not modelled.
- The text layout of the printed messages (field widths, `.4f`, the dashes). Each message is one `Output` value.
- `prepare_features` has no caller in the core. It is modelled on the loader's rows, with the missing value stringified as "nan".
- `train_test_split_data`, `vectorize_text` and `model_train.py` are not part of this model.
- Building the classifier inside `run_cli` (line 6). `RunCli` takes the built classifier.
- Interruptions, such as `KeyboardInterrupt`, are not modelled. Exhausted input is the `EndOfInput` ending.
- The default `top_n=10` of `predict_with_explanation` (line 18 of `model_predict.py`) is not modelled. The only caller passes `top_n=8`, so `top_n` is always an explicit parameter.
- ModelPredict.FakeNewsClassifier.PredictWithExplanation: `top_n` is a `nat`. The negative values, which Python's slicing would count from the end, are not modelled.
- PyStrings.LowerAsciiSpec: only A-Z are lower-cased. The two other characters that lower-case into ASCII letters cannot make a quit word, so the quit test is exact.
