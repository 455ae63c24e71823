/** backend/service/sentiment/sentiment_routes.py: the sentiment-analysis
    endpoint. It validates that exactly one of a text or a file was sent,
    splits the content into feedback entries (one per non-blank line), and
    for each entry tries the keyword labels of the database first (exact
    word matches, truncated percentages) and otherwise asks an external
    language model for Positive/Negative/Neutral percentages, which it
    thresholds, renormalises and rounds to sum to 100.

    The file readers (PDF, DOCX, UTF-8) and the language model are not part
    of this model: the text a reader extracts is an input, and the model's
    answer and its JSON decoding are oracles. */
module SentimentRoutes {
  import opened Wrappers
  import opened Text
  import opened Dicts
  import opened Percentages

  /** An uploaded file: its name and whether its byte content is empty. */
  datatype Upload = Upload(filename: string, isEmpty: bool)

  /** One element of the response list. */
  datatype SentimentResult = SentimentResult(summary: string, percentage: Dict<string, int>)

  /** `filename.split(".")[-1].lower()`. */
  function Extension(filename: string): (ext: string)
    ensures '.' !in ext
  {
    var parts := Split(filename, '.');
    Lower(parts[|parts| - 1])
  }

  /** The file counts only when its name is not blank. */
  predicate FileValid(file: Option<Upload>) {
    file.Some? && !IsBlank(file.value.filename)
  }

  /** The request checks and the content they leave: exactly one of a
      non-blank text and a file with a non-blank name; a file must be
      non-empty and a .pdf, .docx or .txt (`extracted` is what the reader
      for its type returns); the stripped content must not be blank. */
  function ResolveContent(textInput: Option<string>, file: Option<Upload>, extracted: string): (r: Result<string, HttpError>)
    ensures var hasText := textInput.Some? && !IsBlank(textInput.value);
            hasText && FileValid(file) ==> r == Err(HttpError(400, "Please provide either text input or a file, but not both."))
    ensures var hasText := textInput.Some? && !IsBlank(textInput.value);
            !hasText && !FileValid(file) ==> r == Err(HttpError(400, "Please provide either text input or a file."))
    ensures var hasText := textInput.Some? && !IsBlank(textInput.value);
            FileValid(file) && !hasText
            ==> (file.value.isEmpty ==> r == Err(HttpError(400, "Uploaded file is empty.")))
                && (!file.value.isEmpty && Extension(file.value.filename) !in ["pdf", "docx", "txt"]
                    ==> r == Err(HttpError(400, "Unsupported file type")))
                && (!file.value.isEmpty && Extension(file.value.filename) in ["pdf", "docx", "txt"] && IsBlank(extracted)
                    ==> r == Err(HttpError(400, "No text found in the document or input.")))
    ensures var hasText := textInput.Some? && !IsBlank(textInput.value);
            r.Ok? <==> hasText != FileValid(file)
                       && (FileValid(file) ==> !file.value.isEmpty && Extension(file.value.filename) in ["pdf", "docx", "txt"]
                                               && !IsBlank(extracted))
    ensures r.Err? ==> r.error.status == 400
    ensures r.Ok? ==> r.value == Strip(if FileValid(file) then extracted else textInput.value)
    ensures r.Ok? ==> r.value == Strip(r.value) && !IsBlank(r.value)
  {
    var textClean := Strip(if textInput.Some? then textInput.value else "");
    var fileValid := FileValid(file);
    if textClean != [] && fileValid then
      Err(HttpError(400, "Please provide either text input or a file, but not both."))
    else if textClean == [] && !fileValid then
      Err(HttpError(400, "Please provide either text input or a file."))
    else if fileValid && file.value.isEmpty then
      Err(HttpError(400, "Uploaded file is empty."))
    else if fileValid && Extension(file.value.filename) !in ["pdf", "docx", "txt"] then
      Err(HttpError(400, "Unsupported file type"))
    else
      var content := Strip(if fileValid then extracted else textInput.value);
      if content == [] then Err(HttpError(400, "No text found in the document or input."))
      else
        StripIdempotent(if fileValid then extracted else textInput.value);
        Ok(content)
  }

  /** `[e.strip() for e in lines if e.strip()]`. */
  function NonBlankStripped(lines: seq<string>): (entries: seq<string>)
    ensures |entries| <= |lines|
    ensures forall e :: e in entries ==> e != [] && !IsSpace(e[0]) && !IsSpace(e[|e| - 1])
    ensures entries == [] <==> forall i :: 0 <= i < |lines| ==> IsBlank(lines[i])
  {
    if lines == [] then []
    else
      var n := |lines| - 1;
      var front := NonBlankStripped(lines[..n]);
      assert forall i :: 0 <= i < n ==> lines[i] == lines[..n][i];
      if IsBlank(lines[n]) then front else front + [Strip(lines[n])]
  }

  /** The positions of the non-blank lines, in increasing order. */
  function NonBlankIndices(lines: seq<string>): (idx: seq<nat>)
    ensures forall k :: 0 <= k < |idx| ==> idx[k] < |lines| && !IsBlank(lines[idx[k]])
    ensures forall k, l :: 0 <= k < l < |idx| ==> idx[k] < idx[l]
    ensures forall i :: 0 <= i < |lines| && !IsBlank(lines[i]) ==> i in idx
  {
    if lines == [] then []
    else
      var n := |lines| - 1;
      var front := NonBlankIndices(lines[..n]);
      assert forall i :: 0 <= i < n ==> lines[i] == lines[..n][i];
      if IsBlank(lines[n]) then front else front + [n]
  }

  /** The entries are the non-blank lines, stripped, in the order of the
      lines: the k-th entry is the k-th non-blank line. */
  lemma {:induction false} NonBlankStrippedLines(lines: seq<string>)
    ensures var entries, idx := NonBlankStripped(lines), NonBlankIndices(lines);
            |entries| == |idx| && forall k :: 0 <= k < |idx| ==> entries[k] == Strip(lines[idx[k]])
  {
    if lines != [] {
      var n := |lines| - 1;
      var front := lines[..n];
      NonBlankStrippedLines(front);
      var entries, idx := NonBlankStripped(front), NonBlankIndices(front);
      forall k | 0 <= k < |idx| ensures entries[k] == Strip(lines[idx[k]]) {
        assert front[idx[k]] == lines[idx[k]];
      }
      if IsBlank(lines[n]) {
        assert NonBlankStripped(lines) == entries;
        assert NonBlankIndices(lines) == idx;
      } else {
        var e, x := entries + [Strip(lines[n])], idx + [n];
        assert NonBlankStripped(lines) == e;
        assert NonBlankIndices(lines) == x;
        forall k | 0 <= k < |x| ensures e[k] == Strip(lines[x[k]]) {
          if k < |idx| {
            assert e[k] == entries[k] && x[k] == idx[k];
          }
        }
      }
    }
  }

  /** A string is an entry exactly when it is some non-blank line, stripped. */
  lemma NonBlankStrippedMembers(lines: seq<string>)
    ensures forall e :: e in NonBlankStripped(lines) <==>
              exists i :: 0 <= i < |lines| && !IsBlank(lines[i]) && e == Strip(lines[i])
  {
    var entries, idx := NonBlankStripped(lines), NonBlankIndices(lines);
    NonBlankStrippedLines(lines);
    forall e | e in entries
      ensures exists i :: 0 <= i < |lines| && !IsBlank(lines[i]) && e == Strip(lines[i])
    {
      var k :| 0 <= k < |entries| && entries[k] == e;
      assert e == Strip(lines[idx[k]]);
    }
    forall i | 0 <= i < |lines| && !IsBlank(lines[i])
      ensures Strip(lines[i]) in entries
    {
      var k :| 0 <= k < |idx| && idx[k] == i;
      assert entries[k] == Strip(lines[i]);
    }
  }

  /** The feedback entries: the content's lines, stripped, blank ones dropped. */
  function FeedbackEntries(content: string): (entries: seq<string>)
    ensures var lines := Split(content, '\n');
            var idx := NonBlankIndices(lines);
            |entries| == |idx| && forall k :: 0 <= k < |idx| ==> entries[k] == Strip(lines[idx[k]])
    ensures forall i :: 0 <= i < |entries| ==> entries[i] != [] && '\n' !in entries[i]
  {
    var lines := Split(content, '\n');
    var entries := NonBlankStripped(lines);
    NonBlankStrippedLines(lines);
    EntriesAreLines(lines);
    entries
  }

  lemma {:induction false} EntriesAreLines(lines: seq<string>)
    requires forall i :: 0 <= i < |lines| ==> '\n' !in lines[i]
    ensures forall e :: e in NonBlankStripped(lines) ==> '\n' !in e
  {
    if lines != [] {
      var n := |lines| - 1;
      EntriesAreLines(lines[..n]);
      StripInside(lines[n], '\n');
    }
  }

  /** Stripping keeps only characters of the string. */
  lemma StripInside(s: string, c: char)
    requires c !in s
    ensures c !in Strip(s)
  {
    var r := Strip(s);
    var i :| 0 <= i <= |s| - |r| && r == s[i..i + |r|] && IsBlank(s[..i]) && IsBlank(s[i + |r|..]);
    forall k | 0 <= k < |r| ensures r[k] != c {
      assert r[k] == s[i + k];
    }
  }

  // ---------------------------------------------------------------------
  // Database tier

  /** How many of `words` (repeats included) are in the keyword list. */
  function WordHits(words: seq<string>, kws: seq<string>): (n: nat)
    ensures n <= |words|
    ensures n == 0 <==> forall j :: 0 <= j < |words| ==> words[j] !in kws
  {
    if words == [] then 0
    else
      var n := |words| - 1;
      assert forall j :: 0 <= j < n ==> words[j] == words[..n][j];
      WordHits(words[..n], kws) + (if words[n] in kws then 1 else 0)
  }

  /** The word hits of one label row. */
  function RowWordHits(row: SentimentLabel, words: seq<string>): nat
  {
    WordHits(words, KeywordList(row.keywords))
  }

  /** The word hits of every label row. */
  function EntryHits(labels: seq<SentimentLabel>, words: seq<string>): (hits: seq<int>)
    ensures |hits| == |labels|
    ensures forall i :: 0 <= i < |labels| ==> hits[i] == RowWordHits(labels[i], words)
  {
    seq(|labels|, i requires 0 <= i < |labels| => RowWordHits(labels[i], words))
  }

  /** `label_match_counts` of the database tier for the words of an entry. */
  function WordMatchCounts(labels: seq<SentimentLabel>, words: seq<string>): Dict<string, int>
  {
    Tally(ZeroCounts(LabelKeys(labels)), LabelKeys(labels), EntryHits(labels, words))
  }

  /** The inner loop over the words of the entry for one label row. */
  method CountWords(counts: Dict<string, int>, total: int, key: string, keywords: seq<string>, words: seq<string>)
    returns (counts': Dict<string, int>, total': int)
    ensures counts' == AddTo(counts, key, WordHits(words, keywords))
    ensures total' == total + WordHits(words, keywords)
  {
    counts', total' := counts, total;
    AddToZero(counts, key);
    for j := 0 to |words|
      invariant counts' == AddTo(counts, key, WordHits(words[..j], keywords))
      invariant total' == total + WordHits(words[..j], keywords)
    {
      WordStep(counts, key, keywords, words, j);
      if words[j] in keywords {
        counts' := AddTo(counts', key, 1);
        total' := total' + 1;
      }
    }
    assert words[..|words|] == words;
  }

  /** One turn of the word loop: a word in the keyword list adds one to the
      label's count. */
  lemma WordStep(base: Dict<string, int>, key: string, kws: seq<string>, words: seq<string>, j: nat)
    requires j < |words|
    ensures WordHits(words[..j + 1], kws) == WordHits(words[..j], kws) + (if words[j] in kws then 1 else 0)
    ensures AddTo(base, key, WordHits(words[..j + 1], kws))
            == if words[j] in kws then AddTo(AddTo(base, key, WordHits(words[..j], kws)), key, 1)
               else AddTo(base, key, WordHits(words[..j], kws))
  {
    WordHitsPrefix(words, kws, j);
    AddToTwice(base, key, WordHits(words[..j], kws), 1);
  }

  /** The hits of a prefix one word longer. */
  lemma WordHitsPrefix(words: seq<string>, kws: seq<string>, j: nat)
    requires j < |words|
    ensures WordHits(words[..j + 1], kws) == WordHits(words[..j], kws) + (if words[j] in kws then 1 else 0)
  {
    var w := words[..j + 1];
    assert w[..j] == words[..j] && w[j] == words[j];
  }

  /** The two nested counting loops of the database tier. */
  method CountWordMatches(labels: seq<SentimentLabel>, words: seq<string>)
    returns (labelMatchCounts: Dict<string, int>, totalKeywords: int)
    ensures labelMatchCounts == WordMatchCounts(labels, words)
    ensures totalKeywords == Sum(EntryHits(labels, words)) == Sum(Values(labelMatchCounts))
  {
    labelMatchCounts := ZeroCounts(LabelKeys(labels));
    totalKeywords := 0;
    for i := 0 to |labels|
      invariant labelMatchCounts == Tally(ZeroCounts(LabelKeys(labels)), LabelKeys(labels)[..i], EntryHits(labels, words)[..i])
      invariant totalKeywords == Sum(EntryHits(labels, words)[..i])
    {
      var keywords := KeywordList(labels[i].keywords);
      var key := Lower(labels[i].name);
      TallyStep(ZeroCounts(LabelKeys(labels)), LabelKeys(labels), EntryHits(labels, words), i);
      labelMatchCounts, totalKeywords := CountWords(labelMatchCounts, totalKeywords, key, keywords, words);
    }
    WordRowsDone(labels, words);
  }

  lemma WordRowsDone(labels: seq<SentimentLabel>, words: seq<string>)
    ensures var keys, hits := LabelKeys(labels), EntryHits(labels, words);
            && Tally(ZeroCounts(keys), keys[..|labels|], hits[..|labels|]) == WordMatchCounts(labels, words)
            && Sum(hits[..|labels|]) == Sum(hits) == Sum(Values(WordMatchCounts(labels, words)))
  {
    var keys, hits := LabelKeys(labels), EntryHits(labels, words);
    var zero := ZeroCounts(keys);
    assert keys[..|labels|] == keys && hits[..|labels|] == hits;
    TallySum(zero, keys, hits);
    SumNonNegative(Values(zero));
  }

  /** `int((count / total_keywords) * 100)` for the labels with a positive
      count, computed exactly. */
  function Truncated(counts: Dict<string, int>, total: int): (r: Dict<string, int>)
    requires total > 0
    ensures Keys(r) == Keys(Positive(counts))
    ensures forall i :: 0 <= i < |r| ==> r[i].1 == (100 * Positive(counts)[i].1) / total
  {
    var pos := Positive(counts);
    Zip(Keys(pos), seq(|pos|, i requires 0 <= i < |pos| => (100 * pos[i].1) / total))
  }

  /** Truncating every share loses the fractions: the percentages of the
      database tier add up to at most 100. */
  lemma TruncatedAtMost100(counts: Dict<string, int>)
    requires forall i :: 0 <= i < |counts| ==> counts[i].1 >= 0
    requires Sum(Values(counts)) > 0
    ensures Sum(Values(Truncated(counts, Sum(Values(counts))))) <= 100
  {
    var total := Sum(Values(counts));
    var pos := Positive(counts);
    PositiveSum(counts);
    var xs := Values(pos);
    assert Values(Truncated(counts, total)) == seq(|xs|, i requires 0 <= i < |xs| => (100 * xs[i]) / total);
    TruncSumBound(xs, total);
    MulCancel(Sum(Values(Truncated(counts, total))), 100, total);
  }

  lemma MulCancel(a: int, b: int, t: int)
    requires t > 0 && a * t <= b * t
    ensures a <= b
  {
  }

  lemma {:induction false} TruncSumBound(xs: seq<int>, t: int)
    requires t > 0
    ensures Sum(seq(|xs|, i requires 0 <= i < |xs| => (100 * xs[i]) / t)) * t <= 100 * Sum(xs)
  {
    var ys := seq(|xs|, i requires 0 <= i < |xs| => (100 * xs[i]) / t);
    if xs != [] {
      TruncSumBound(xs[1..], t);
      assert ys[1..] == seq(|xs[1..]|, i requires 0 <= i < |xs[1..]| => (100 * xs[1..][i]) / t);
      assert ys[0] * t <= 100 * xs[0];
    }
  }

  /** `n` labels with one hit each get `100 / n` each, rounded down. */
  lemma TruncatedEqualShares(counts: Dict<string, int>)
    requires |counts| > 0
    requires forall i :: 0 <= i < |counts| ==> counts[i].1 == 1
    ensures var r := Truncated(counts, |counts|);
            && Keys(r) == Keys(counts)
            && Sum(Values(r)) == |counts| * (100 / |counts|)
  {
    var n := |counts|;
    PositiveKeepsAll(counts);
    var r := Truncated(counts, n);
    assert forall i :: 0 <= i < |Values(r)| ==> Values(r)[i] == 100 / n;
    SumConstant(Values(r), 100 / n);
  }

  /** So the percentages of the database tier need not add up to 100: three
      labels with one hit each get 33 each, 99 in all. */
  lemma TruncatedBelow100(counts: Dict<string, int>)
    requires |counts| == 3
    requires forall i :: 0 <= i < |counts| ==> counts[i].1 == 1
    ensures Sum(Values(Truncated(counts, 3))) == 99
  {
    TruncatedEqualShares(counts);
  }

  /** The database-tier answer for an entry, when some keyword matched. */
  function DbResult(labels: seq<SentimentLabel>, words: seq<string>): Option<SentimentResult>
  {
    var counts := WordMatchCounts(labels, words);
    var total := Sum(Values(counts));
    WordCountsNonNegative(labels, words);
    SumNonNegative(Values(counts));
    if total <= 0 then None
    else
      var percentages := Truncated(counts, total);
      TruncatedAtMost100(counts);
      PositiveSum(counts);
      Some(SentimentResult(Capitalize(percentages[ArgMaxInt(Values(percentages))].0), percentages))
  }

  /** The database tier answers exactly when some keyword matched; it
      covers the labels with a positive count, its percentages add up to at
      most 100, and its summary is the capitalised label holding the first
      largest percentage. */
  lemma DbResultSpec(labels: seq<SentimentLabel>, words: seq<string>)
    ensures var r := DbResult(labels, words);
            var counts := WordMatchCounts(labels, words);
            && (r.None? <==> Sum(Values(counts)) == 0)
            && (r.Some? ==>
                  && Keys(r.value.percentage) == Keys(Positive(counts))
                  && Sum(Values(r.value.percentage)) <= 100
                  && |r.value.percentage| > 0
                  && r.value.summary == Capitalize(r.value.percentage[ArgMaxInt(Values(r.value.percentage))].0))
  {
    var counts := WordMatchCounts(labels, words);
    WordCountsNonNegative(labels, words);
    SumNonNegative(Values(counts));
    if Sum(Values(counts)) > 0 {
      TruncatedAtMost100(counts);
      PositiveSum(counts);
    }
  }

  lemma WordCountsNonNegative(labels: seq<SentimentLabel>, words: seq<string>)
    ensures forall i :: 0 <= i < |WordMatchCounts(labels, words)| ==> WordMatchCounts(labels, words)[i].1 >= 0
  {
    var keys, hits := LabelKeys(labels), EntryHits(labels, words);
    forall i | 0 <= i < |WordMatchCounts(labels, words)| ensures WordMatchCounts(labels, words)[i].1 >= 0 {
      TallyNonNegative(ZeroCounts(keys), keys, hits, i);
    }
  }

  // ---------------------------------------------------------------------
  // External tier

  const AllowedKeys: seq<string> := ["Positive", "Negative", "Neutral"]
  const Threshold: real := 20.0

  function RealSum(xs: seq<real>): real
  {
    if xs == [] then 0.0 else xs[0] + RealSum(xs[1..])
  }

  lemma {:induction false} RealSumZero(xs: seq<real>)
    requires forall i :: 0 <= i < |xs| ==> xs[i] >= 0.0
    ensures RealSum(xs) >= 0.0
    ensures RealSum(xs) == 0.0 <==> forall i :: 0 <= i < |xs| ==> xs[i] == 0.0
  {
    if xs != [] {
      RealSumZero(xs[1..]);
      assert forall i :: 1 <= i < |xs| ==> xs[i] == xs[1..][i - 1];
    }
  }

  /** `float(perc.get(k, 0))` for each allowed key. */
  function Reported(perc: Dict<string, real>): (v: seq<real>)
    ensures |v| == 3
    ensures forall i :: 0 <= i < 3 ==> v[i] == (if AllowedKeys[i] in Keys(perc) then Lookup(perc, AllowedKeys[i]).value else 0.0)
  {
    seq(3, i requires 0 <= i < 3 => match Lookup(perc, AllowedKeys[i]) case Some(x) => x case None => 0.0)
  }

  /** Values below the threshold become 0. */
  function Thresholded(v: seq<real>): (t: seq<real>)
    ensures |t| == |v|
    ensures forall i :: 0 <= i < |v| ==> t[i] == (if v[i] >= Threshold then v[i] else 0.0)
  {
    seq(|v|, i requires 0 <= i < |v| => if v[i] >= Threshold then v[i] else 0.0)
  }

  /** 100 on index `m`, 0 elsewhere. */
  function OneHot(n: nat, m: nat): (t: seq<real>)
    ensures |t| == n
    ensures forall i :: 0 <= i < n ==> t[i] == (if i == m then 100.0 else 0.0)
  {
    seq(n, i requires 0 <= i < n => if i == m then 100.0 else 0.0)
  }

  /** The kept values, or, when none is kept, 100 for the first largest
      reported value. */
  function Kept(v: seq<real>): (t: seq<real>)
    requires |v| > 0
    ensures |t| == |v|
    ensures forall i :: 0 <= i < |t| ==> t[i] >= 0.0
    ensures RealSum(t) > 0.0
    ensures (exists i :: 0 <= i < |v| && v[i] >= Threshold) ==> t == Thresholded(v)
    ensures (forall i :: 0 <= i < |v| ==> v[i] < Threshold) ==> t == OneHot(|v|, ArgMaxReal(v))
  {
    var t := Thresholded(v);
    RealSumZero(t);
    if RealSum(t) == 0.0 then
      var m := ArgMaxReal(v);
      var h := OneHot(|v|, m);
      RealSumZero(h);
      assert h[m] != 0.0;
      h
    else t
  }

  /** `v * 100.0 / total` for each kept value (the all-zero fallback of the
      source cannot be reached: at least one kept value is positive). */
  function Normalised(t: seq<real>): (n: seq<real>)
    ensures |n| == |t|
    ensures RealSum(t) > 0.0 ==> forall i :: 0 <= i < |t| ==> n[i] == t[i] * 100.0 / RealSum(t)
  {
    var total := RealSum(t);
    if total > 0.0 then seq(|t|, i requires 0 <= i < |t| => t[i] * 100.0 / total)
    else seq(|t|, i => 0.0)
  }

  /** The external tier's percentages for the reported `percentage` object:
      thresholded, renormalised, rounded, the residual to the first largest
      normalised share. */
  function ExternalPercentages(perc: Dict<string, real>): (r: Dict<string, int>)
    ensures |r| == 3
  {
    var v := Reported(perc);
    Zip(AllowedKeys, CorrectResidual(Normalised(Kept(v))))
  }

  /** The external percentages are keyed Positive, Negative, Neutral and add
      up to exactly 100. When some value passes the threshold, the kept
      values are renormalised to shares of 100; every share but the first
      largest is rounded half to even, and the first largest takes the
      residual, so a value below the threshold ends at 0. When none is
      kept, the first largest reported value gets 100 and the others 0. */
  lemma ExternalPercentagesSpec(perc: Dict<string, real>)
    ensures var r, v := ExternalPercentages(perc), Reported(perc);
            && Keys(r) == AllowedKeys
            && Sum(Values(r)) == 100
            && ((exists i :: 0 <= i < 3 && v[i] >= Threshold) ==>
                  var t := Thresholded(v);
                  var n := Normalised(t);
                  && Values(r) == CorrectResidual(n)
                  && (forall i :: 0 <= i < 3 ==> n[i] == t[i] * 100.0 / RealSum(t))
                  && (forall i :: 0 <= i < 3 && i != ArgMaxReal(n) ==> r[i].1 == RoundHalfEven(n[i]))
                  && (forall i :: 0 <= i < 3 && v[i] < Threshold ==> r[i].1 == 0))
            && ((forall i :: 0 <= i < 3 ==> v[i] < Threshold) ==>
                  forall i :: 0 <= i < 3 ==> r[i].1 == (if i == ArgMaxReal(v) then 100 else 0))
  {
    var v := Reported(perc);
    ZeroShareKeepsZero(v);
    AllBelowThreshold(v);
    KeptShares(v);
  }

  /** When some value passes the threshold, the shares are the kept values
      renormalised to 100, and all but the first largest are rounded. */
  lemma KeptShares(v: seq<real>)
    requires |v| > 0
    ensures (exists i :: 0 <= i < |v| && v[i] >= Threshold) ==>
              var t := Thresholded(v);
              var n := Normalised(t);
              && CorrectResidual(Normalised(Kept(v))) == CorrectResidual(n)
              && (forall i :: 0 <= i < |v| ==> n[i] == t[i] * 100.0 / RealSum(t))
              && (forall i :: 0 <= i < |v| && i != ArgMaxReal(n) ==> CorrectResidual(n)[i] == RoundHalfEven(n[i]))
  {
    if j :| 0 <= j < |v| && v[j] >= Threshold {
      var t := Kept(v);
      assert t == Thresholded(v);
    }
  }

  /** A value that the threshold zeroes ends at 0 when another value was kept. */
  lemma ZeroShareKeepsZero(v: seq<real>)
    requires |v| > 0
    ensures (exists i :: 0 <= i < |v| && v[i] >= Threshold) ==>
              forall i :: 0 <= i < |v| && v[i] < Threshold ==> CorrectResidual(Normalised(Kept(v)))[i] == 0
  {
    if j :| 0 <= j < |v| && v[j] >= Threshold {
      var t := Kept(v);
      assert t == Thresholded(v);
      var n := Normalised(t);
      PositiveShare(t[j], RealSum(t));
      forall i | 0 <= i < |v| && v[i] < Threshold ensures CorrectResidual(n)[i] == 0 {
        assert n[i] == 0.0;
        NoShareRoundsToZero(n, i, j);
      }
    }
  }

  /** A zero share is not the largest when another share is positive, so
      it is only rounded, to 0. */
  lemma NoShareRoundsToZero(n: seq<real>, i: nat, j: nat)
    requires i < |n| && j < |n| && n[i] == 0.0 && n[j] > 0.0
    ensures CorrectResidual(n)[i] == 0
  {
    assert i != ArgMaxReal(n);
  }

  /** A positive value keeps a positive share of a positive total. */
  lemma PositiveShare(x: real, total: real)
    requires x > 0.0 && total > 0.0
    ensures x * 100.0 / total > 0.0
  {
  }

  /** When nothing passes the threshold the first largest reported value
      takes all 100. */
  lemma AllBelowThreshold(v: seq<real>)
    requires |v| > 0
    ensures (forall i :: 0 <= i < |v| ==> v[i] < Threshold) ==>
              forall i :: 0 <= i < |v| ==> CorrectResidual(Normalised(Kept(v)))[i] == (if i == ArgMaxReal(v) then 100 else 0)
  {
    if forall i :: 0 <= i < |v| ==> v[i] < Threshold {
      var m := ArgMaxReal(v);
      RealSumZero(Thresholded(v));
      var t := Kept(v);
      assert t == OneHot(|v|, m);
      OneHotSum(|v|, m);
      var n := Normalised(t);
      assert n == t;
      assert RoundAll(n) == seq(|v|, i requires 0 <= i < |v| => if i == m then 100 else 0);
      OneHotIntSum(|v|, m);
    }
  }

  lemma {:induction false} OneHotSum(n: nat, m: nat)
    requires m < n
    ensures RealSum(OneHot(n, m)) == 100.0
  {
    var h := OneHot(n, m);
    if m > 0 {
      OneHotSum(n - 1, m - 1);
      assert h[1..] == OneHot(n - 1, m - 1);
    } else {
      RealSumZero(h[1..]);
    }
  }

  lemma {:induction false} OneHotIntSum(n: nat, m: nat)
    requires m < n
    ensures Sum(seq(n, i requires 0 <= i < n => if i == m then 100 else 0)) == 100
  {
    var h := seq(n, i requires 0 <= i < n => if i == m then 100 else 0);
    if m > 0 {
      OneHotIntSum(n - 1, m - 1);
      assert h[1..] == seq(n - 1, i requires 0 <= i < n - 1 => if i == m - 1 then 100 else 0);
    } else {
      SumNonNegative(h[1..]);
    }
  }

  /** The external tier for one entry: the model's answer (None when the
      call fails), the `{...}` span of the stripped answer, its decoded
      `percentage` object (None when decoding fails). Any failure is a 500. */
  function ExternalResult(answer: Option<string>, decode: string -> Option<Dict<string, real>>): Result<SentimentResult, HttpError>
  {
    if answer.None? then Err(HttpError(500, "Sentiment analysis failed"))
    else
      match GreedySpan(Strip(answer.value), '{', '}')
      case None => Err(HttpError(500, "Sentiment analysis failed"))
      case Some(span) =>
        match decode(span)
        case None => Err(HttpError(500, "Sentiment analysis failed"))
        case Some(perc) =>
          var rounded := ExternalPercentages(perc);
          Ok(SentimentResult(rounded[ArgMaxInt(Values(rounded))].0, rounded))
  }

  /** The external tier fails with a 500 exactly when the call fails, the
      answer holds no `{...}` span or the span does not decode; otherwise
      its percentages are keyed Positive, Negative, Neutral, add up to 100,
      and its summary is the key of the first largest one. */
  lemma ExternalResultSpec(answer: Option<string>, decode: string -> Option<Dict<string, real>>)
    ensures var r := ExternalResult(answer, decode);
            && (r.Err? <==> answer.None? || GreedySpan(Strip(answer.value), '{', '}').None?
                            || decode(GreedySpan(Strip(answer.value), '{', '}').value).None?)
            && (r.Err? ==> r.error.status == 500)
            && (r.Ok? ==> Keys(r.value.percentage) == AllowedKeys && Sum(Values(r.value.percentage)) == 100
                          && r.value.summary == AllowedKeys[ArgMaxInt(Values(r.value.percentage))])
  {
    if answer.Some? && GreedySpan(Strip(answer.value), '{', '}').Some? {
      var perc := decode(GreedySpan(Strip(answer.value), '{', '}').value);
      if perc.Some? {
        ExternalPercentagesSpec(perc.value);
      }
    }
  }

  /** One feedback entry: the database tier when a keyword matched, the
      external tier otherwise. `ask` is the language model's answer for an
      entry. */
  function AnalyzeEntry(entry: string, labels: seq<SentimentLabel>, ask: string -> Option<string>,
                        decode: string -> Option<Dict<string, real>>): Result<SentimentResult, HttpError>
  {
    match DbResult(labels, Words(Lower(entry)))
    case Some(res) => Ok(res)
    case None => ExternalResult(ask(entry), decode)
  }

  /** A database match answers the entry whatever the external model would say. */
  lemma DbTierFirst(entry: string, labels: seq<SentimentLabel>, ask1: string -> Option<string>, ask2: string -> Option<string>,
                    decode1: string -> Option<Dict<string, real>>, decode2: string -> Option<Dict<string, real>>)
    requires Sum(Values(WordMatchCounts(labels, Words(Lower(entry))))) != 0
    ensures AnalyzeEntry(entry, labels, ask1, decode1) == AnalyzeEntry(entry, labels, ask2, decode2)
    ensures AnalyzeEntry(entry, labels, ask1, decode1).Ok?
  {
    DbResultSpec(labels, Words(Lower(entry)));
  }

  /** The results of `analyze` on the entries in order, or the first failure. */
  function AnalyzeAll(entries: seq<string>, analyze: string -> Result<SentimentResult, HttpError>): Result<seq<SentimentResult>, HttpError>
    decreases |entries|
  {
    if entries == [] then Ok([])
    else
      var n := |entries| - 1;
      var first := AnalyzeAll(entries[..n], analyze);
      if first.Err? then first
      else
        match analyze(entries[n])
        case Err(e) => Err(e)
        case Ok(res) => Ok(first.value + [res])
  }

  /** One result per entry, in order, when every entry succeeds; otherwise
      the error of the first entry that fails. */
  lemma {:induction false} AnalyzeAllSpec(entries: seq<string>, analyze: string -> Result<SentimentResult, HttpError>)
    ensures var r := AnalyzeAll(entries, analyze);
            && (r.Ok? <==> forall i :: 0 <= i < |entries| ==> analyze(entries[i]).Ok?)
            && (r.Ok? ==> |r.value| == |entries| && forall i :: 0 <= i < |entries| ==> r.value[i] == analyze(entries[i]).value)
            && (r.Err? ==> exists i :: 0 <= i < |entries| && analyze(entries[i]).Err? && r.error == analyze(entries[i]).error
                                       && forall j :: 0 <= j < i ==> analyze(entries[j]).Ok?)
    decreases |entries|
  {
    if entries != [] {
      var n := |entries| - 1;
      AnalyzeAllSpec(entries[..n], analyze);
      assert forall i :: 0 <= i < n ==> entries[..n][i] == entries[i];
    }
  }

  /** One more entry: the results so far extended by the entry's own. */
  lemma AnalyzeAllStep(entries: seq<string>, k: nat, analyze: string -> Result<SentimentResult, HttpError>)
    requires k < |entries|
    ensures AnalyzeAll(entries[..k + 1], analyze)
            == if AnalyzeAll(entries[..k], analyze).Err? then AnalyzeAll(entries[..k], analyze)
               else if analyze(entries[k]).Err? then Err(analyze(entries[k]).error)
               else Ok(AnalyzeAll(entries[..k], analyze).value + [analyze(entries[k]).value])
  {
    assert entries[..k + 1][..k] == entries[..k];
  }

  /** A failure in a prefix is the failure of the whole list. */
  lemma {:induction false} AnalyzeAllErrPrefix(entries: seq<string>, k: nat, analyze: string -> Result<SentimentResult, HttpError>)
    requires k <= |entries|
    requires AnalyzeAll(entries[..k], analyze).Err?
    ensures AnalyzeAll(entries, analyze) == AnalyzeAll(entries[..k], analyze)
    decreases |entries|
  {
    if k < |entries| {
      var n := |entries| - 1;
      assert entries[..n][..k] == entries[..k];
      AnalyzeAllErrPrefix(entries[..n], k, analyze);
    } else {
      assert entries[..k] == entries;
    }
  }

  /** The body of the loop over the entries: the database tier, and the
      external tier when no keyword matched. */
  method AnalyzeOneEntry(entry: string, labels: seq<SentimentLabel>, ask: string -> Option<string>,
                         decode: string -> Option<Dict<string, real>>)
    returns (r: Result<SentimentResult, HttpError>)
    ensures r == AnalyzeEntry(entry, labels, ask, decode)
  {
    var words := Words(Lower(entry));
    var labelMatchCounts, totalKeywords := CountWordMatches(labels, words);
    WordCountsNonNegative(labels, words);
    PositiveSum(labelMatchCounts);
    if totalKeywords > 0 {
      var percentages := Truncated(labelMatchCounts, totalKeywords);
      var summary := Capitalize(percentages[ArgMaxInt(Values(percentages))].0);
      return Ok(SentimentResult(summary, percentages));
    }
    SumNonNegative(Values(labelMatchCounts));
    r := ExternalResult(ask(entry), decode);
  }

  /** The endpoint: validation, then one result per feedback entry, in
      order; the first entry whose external tier fails turns the whole
      request into a 500. */
  method SentimentAnalysis(textInput: Option<string>, file: Option<Upload>, extracted: string, labels: seq<SentimentLabel>,
                           ask: string -> Option<string>, decode: string -> Option<Dict<string, real>>)
    returns (r: Result<seq<SentimentResult>, HttpError>)
    ensures match ResolveContent(textInput, file, extracted)
            case Err(e) => r == Err(e)
            case Ok(content) => r == AnalyzeAll(FeedbackEntries(content), e => AnalyzeEntry(e, labels, ask, decode))
  {
    var resolved := ResolveContent(textInput, file, extracted);
    if resolved.Err? {
      return Err(resolved.error);
    }
    r := AnalyzeEntries(FeedbackEntries(resolved.value), labels, ask, decode);
  }

  /** The loop over the feedback entries, appending one result per entry. */
  method AnalyzeEntries(entries: seq<string>, labels: seq<SentimentLabel>, ask: string -> Option<string>,
                        decode: string -> Option<Dict<string, real>>)
    returns (r: Result<seq<SentimentResult>, HttpError>)
    ensures r == AnalyzeAll(entries, e => AnalyzeEntry(e, labels, ask, decode))
  {
    ghost var analyze := e => AnalyzeEntry(e, labels, ask, decode);
    var results: seq<SentimentResult> := [];
    for k := 0 to |entries|
      invariant AnalyzeAll(entries[..k], analyze) == Ok(results)
    {
      AnalyzeAllStep(entries, k, analyze);
      var res := AnalyzeOneEntry(entries[k], labels, ask, decode);
      if res.Err? {
        AnalyzeAllErrPrefix(entries, k + 1, analyze);
        return Err(res.error);
      }
      results := results + [res.value];
    }
    assert entries[..|entries|] == entries;
    return Ok(results);
  }
}
