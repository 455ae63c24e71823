/** backend/service/sentiment/analyze_utils.py: keyword counting per
    sentiment label and the residual-corrected percentages.
    Python floats are modelled as exact reals and `round` as round-half-even. */
module Percentages {
  import opened Text
  import opened Dicts

  /** Python's `round(x)`: the nearest integer, ties going to the even one. */
  function RoundHalfEven(x: real): (r: int)
    ensures -0.5 <= x - r as real <= 0.5
    ensures (x - r as real == 0.5 || x - r as real == -0.5) ==> r % 2 == 0
  {
    var f := x.Floor;
    var frac := x - f as real;
    if frac < 0.5 then f
    else if frac > 0.5 then f + 1
    else if f % 2 == 0 then f else f + 1
  }

  /** The two properties above leave no choice: `round` is the only integer
      with them. */
  lemma RoundHalfEvenUnique(x: real, r: int)
    requires -0.5 <= x - r as real <= 0.5
    requires (x - r as real == 0.5 || x - r as real == -0.5) ==> r % 2 == 0
    ensures r == RoundHalfEven(x)
  {
  }

  /** `v * 100.0 / total` for every count `v`. */
  function Shares(counts: seq<int>, total: int): (s: seq<real>)
    requires total != 0
    ensures |s| == |counts|
    ensures forall i :: 0 <= i < |s| ==> s[i] == (100 * counts[i]) as real / total as real
  {
    seq(|counts|, i requires 0 <= i < |counts| => (100 * counts[i]) as real / total as real)
  }

  /** `int(round(v))` for every share. */
  function RoundAll(xs: seq<real>): (r: seq<int>)
    ensures |r| == |xs|
    ensures forall i :: 0 <= i < |r| ==> r[i] == RoundHalfEven(xs[i])
  {
    seq(|xs|, i requires 0 <= i < |xs| => RoundHalfEven(xs[i]))
  }

  /** Every share rounded, then the whole residual `100 - sum(rounded)`
      added to the first largest share: the result sums to exactly 100. */
  function CorrectResidual(shares: seq<real>): (r: seq<int>)
    requires |shares| > 0
    ensures |r| == |shares|
    ensures Sum(r) == 100
    ensures forall i :: 0 <= i < |r| && i != ArgMaxReal(shares) ==> r[i] == RoundHalfEven(shares[i])
    ensures var m := ArgMaxReal(shares);
            r[m] == RoundHalfEven(shares[m]) + (100 - Sum(RoundAll(shares)))
  {
    var rounded := RoundAll(shares);
    var diff := 100 - Sum(rounded);
    var m := ArgMaxReal(shares);
    SumUpdate(rounded, m, rounded[m] + diff);
    if diff != 0 then rounded[m := rounded[m] + diff] else rounded
  }

  /** `calculate_percentages(label_match_counts)`. */
  function CalculatePercentages(counts: Dict<string, int>): (r: Dict<string, int>)
    ensures Keys(r) == Keys(counts)
    ensures Sum(Values(counts)) == 0 ==> forall i :: 0 <= i < |r| ==> r[i].1 == 0
    ensures Sum(Values(counts)) != 0 ==> Sum(Values(r)) == 100
    ensures Sum(Values(counts)) != 0 ==>
              Values(r) == CorrectResidual(Shares(Values(counts), Sum(Values(counts))))
  {
    var total := Sum(Values(counts));
    if total == 0 then
      Zip(Keys(counts), seq(|counts|, i => 0))
    else
      assert |counts| > 0;
      Zip(Keys(counts), CorrectResidual(Shares(Values(counts), total)))
  }

  /** A row of the `sentiment_labels` table: its `label` column (here `name`) and its comma-separated
      keywords. */
  datatype SentimentLabel = SentimentLabel(name: string, keywords: string)

  /** `[kw.strip().lower() for kw in csv.split(',')]`. */
  function KeywordList(csv: string): seq<string>
  {
    var parts := Split(csv, ',');
    seq(|parts|, i requires 0 <= i < |parts| => Lower(Strip(parts[i])))
  }

  /** How many entries of `kws` (repeats included) occur in `lowText`. */
  function KeywordHits(kws: seq<string>, lowText: string): (n: nat)
    ensures n <= |kws|
  {
    if kws == [] then 0
    else KeywordHits(kws[..|kws| - 1], lowText) + (if Contains(lowText, kws[|kws| - 1]) then 1 else 0)
  }

  /** The lower-cased label of every row. */
  function LabelKeys(labels: seq<SentimentLabel>): (keys: seq<string>)
    ensures |keys| == |labels|
    ensures forall i :: 0 <= i < |labels| ==> keys[i] == Lower(labels[i].name)
  {
    seq(|labels|, i requires 0 <= i < |labels| => Lower(labels[i].name))
  }

  /** The keyword hits of one row on the lower-cased text. */
  function RowHits(row: SentimentLabel, lowText: string): nat
  {
    KeywordHits(KeywordList(row.keywords), lowText)
  }

  /** The keyword hits of every row on the lower-cased text. */
  function TextHits(labels: seq<SentimentLabel>, lowText: string): (hits: seq<int>)
    ensures |hits| == |labels|
    ensures forall i :: 0 <= i < |labels| ==> hits[i] == RowHits(labels[i], lowText)
  {
    seq(|labels|, i requires 0 <= i < |labels| => RowHits(labels[i], lowText))
  }

  /** The tally of the keyword hits of every row on the lower-cased text. */
  function HitCounts(labels: seq<SentimentLabel>, lowText: string): Dict<string, int>
  {
    Tally(ZeroCounts(LabelKeys(labels)), LabelKeys(labels), TextHits(labels, lowText))
  }

  /** `label_match_counts` once the two counting loops have run. */
  function LabelMatchCounts(labels: seq<SentimentLabel>, text: string): Dict<string, int>
  {
    HitCounts(labels, Lower(text))
  }

  /** The entries with a positive count, in their order. */
  function Positive(d: Dict<string, int>): (r: Dict<string, int>)
    ensures forall e :: e in r <==> e in d && e.1 > 0
    decreases |d|
  {
    if d == [] then []
    else
      var rest := Positive(d[..|d| - 1]);
      assert d == d[..|d| - 1] + [d[|d| - 1]];
      if d[|d| - 1].1 > 0 then rest + [d[|d| - 1]] else rest
  }

  /** `Positive` takes the last entry exactly when its count is positive. */
  lemma PositiveLast(d: Dict<string, int>)
    requires d != []
    ensures var n := |d| - 1;
            Positive(d) == Positive(d[..n]) + (if d[n].1 > 0 then [d[n]] else [])
  {
  }

  /** Counts that are all positive are kept as they are. */
  lemma {:induction false} PositiveKeepsAll(d: Dict<string, int>)
    requires forall i :: 0 <= i < |d| ==> d[i].1 > 0
    ensures Positive(d) == d
    decreases |d|
  {
    if d != [] {
      PositiveKeepsAll(d[..|d| - 1]);
      PositiveLast(d);
      assert d == d[..|d| - 1] + [d[|d| - 1]];
    }
  }

  lemma {:induction false} PositiveSum(d: Dict<string, int>)
    requires forall i :: 0 <= i < |d| ==> d[i].1 >= 0
    ensures Sum(Values(Positive(d))) == Sum(Values(d))
    decreases |d|
  {
    if d != [] {
      var n := |d| - 1;
      PositiveSum(d[..n]);
      PositiveLast(d);
      SumValuesLast(d);
      if d[n].1 > 0 {
        SumValuesSnoc(Positive(d[..n]), d[n]);
      }
    }
  }

  /** The sum of the counts is that of all but the last entry plus the last. */
  lemma SumValuesLast(d: Dict<string, int>)
    requires d != []
    ensures Sum(Values(d)) == Sum(Values(d[..|d| - 1])) + d[|d| - 1].1
  {
    assert d == d[..|d| - 1] + [d[|d| - 1]];
    SumValuesSnoc(d[..|d| - 1], d[|d| - 1]);
  }

  /** One more entry adds its count to the sum of the counts. */
  lemma SumValuesSnoc(d: Dict<string, int>, e: (string, int))
    ensures Sum(Values(d + [e])) == Sum(Values(d)) + e.1
  {
    assert Values(d + [e]) == Values(d) + [e.1];
    SumAppend(Values(d), [e.1]);
  }

  lemma AddToZero(d: Dict<string, int>, k: string)
    ensures AddTo(d, k, 0) == d
  {
    var i := Find(d, k);
    if i < |d| {
      assert d[i := (k, d[i].1 + 0)] == d;
    }
  }

  lemma AddToTwice(d: Dict<string, int>, k: string, a: int, b: int)
    ensures AddTo(AddTo(d, k, a), k, b) == AddTo(d, k, a + b)
  {
    FindSameKeys(d, AddTo(d, k, a), k);
  }

  /** One turn of the keyword loop: a hit adds one to the label's count. */
  lemma KeywordStep(base: Dict<string, int>, key: string, kws: seq<string>, j: nat, lowText: string)
    requires j < |kws|
    ensures KeywordHits(kws[..j + 1], lowText) == KeywordHits(kws[..j], lowText) + (if Contains(lowText, kws[j]) then 1 else 0)
    ensures AddTo(base, key, KeywordHits(kws[..j + 1], lowText))
            == if Contains(lowText, kws[j]) then AddTo(AddTo(base, key, KeywordHits(kws[..j], lowText)), key, 1)
               else AddTo(base, key, KeywordHits(kws[..j], lowText))
  {
    assert kws[..j + 1][..j] == kws[..j];
    AddToTwice(base, key, KeywordHits(kws[..j], lowText), 1);
  }

  /** After the label loop: the tally of all rows, whose sum is the total. */
  lemma RowsDone(labels: seq<SentimentLabel>, lowText: string)
    ensures var keys, hits := LabelKeys(labels), TextHits(labels, lowText);
            var zero := ZeroCounts(keys);
            && Tally(zero, keys[..|labels|], hits[..|labels|]) == HitCounts(labels, lowText)
            && Sum(hits[..|labels|]) == Sum(hits) == Sum(Values(HitCounts(labels, lowText)))
  {
    var keys, hits := LabelKeys(labels), TextHits(labels, lowText);
    var zero := ZeroCounts(keys);
    assert keys[..|labels|] == keys && hits[..|labels|] == hits;
    TallySum(zero, keys, hits);
    SumNonNegative(Values(zero));
  }

  /** The counts add up to the total number of keyword hits. */
  lemma HitCountsSum(labels: seq<SentimentLabel>, lowText: string)
    ensures Sum(Values(HitCounts(labels, lowText))) == Sum(TextHits(labels, lowText))
  {
    RowsDone(labels, lowText);
  }

  /** The inner loop of analyze_sentiment_with_percentage for one label
      row: every keyword found in the text adds one to the label's count
      and to the running total. */
  method CountKeywords(counts: Dict<string, int>, total: int, row: SentimentLabel, lowText: string)
    returns (counts': Dict<string, int>, total': int)
    ensures counts' == AddTo(counts, Lower(row.name), RowHits(row, lowText))
    ensures total' == total + RowHits(row, lowText)
  {
    var keywords := KeywordList(row.keywords);
    var key := Lower(row.name);
    counts', total' := counts, total;
    AddToZero(counts, key);
    for j := 0 to |keywords|
      invariant counts' == AddTo(counts, key, KeywordHits(keywords[..j], lowText))
      invariant total' == total + KeywordHits(keywords[..j], lowText)
    {
      KeywordStep(counts, key, keywords, j, lowText);
      if Contains(lowText, keywords[j]) {
        counts' := AddTo(counts', key, 1);
        total' := total' + 1;
      }
    }
    assert keywords[..|keywords|] == keywords;
  }

  /** The two nested counting loops of analyze_sentiment_with_percentage:
      `label_match_counts` and `total_keywords`, which is the sum of the
      counts. */
  method CountLabelMatches(text: string, labels: seq<SentimentLabel>)
    returns (labelMatchCounts: Dict<string, int>, totalKeywords: int)
    ensures labelMatchCounts == LabelMatchCounts(labels, text)
    ensures totalKeywords == Sum(TextHits(labels, Lower(text))) == Sum(Values(labelMatchCounts))
  {
    labelMatchCounts, totalKeywords := CountHits(Lower(text), labels);
    HitCountsSum(labels, Lower(text));
  }

  /** The label loop over the lower-cased text. */
  method CountHits(lowText: string, labels: seq<SentimentLabel>)
    returns (labelMatchCounts: Dict<string, int>, totalKeywords: int)
    ensures labelMatchCounts == HitCounts(labels, lowText)
    ensures totalKeywords == Sum(TextHits(labels, lowText))
  {
    UpToAll(labels, lowText);
    labelMatchCounts := ZeroCounts(LabelKeys(labels));
    totalKeywords := 0;
    for i := 0 to |labels|
      invariant labelMatchCounts == CountsUpTo(labels, lowText, i)
      invariant totalKeywords == TotalUpTo(labels, lowText, i)
    {
      labelMatchCounts, totalKeywords := CountRow(labels, lowText, i, labelMatchCounts, totalKeywords);
    }
  }

  /** One turn of the label loop: row `i` adds its keyword hits to its
      label's count and to the total. */
  method CountRow(labels: seq<SentimentLabel>, lowText: string, i: nat, counts: Dict<string, int>, total: int)
    returns (counts': Dict<string, int>, total': int)
    requires i < |labels|
    requires counts == CountsUpTo(labels, lowText, i) && total == TotalUpTo(labels, lowText, i)
    ensures counts' == CountsUpTo(labels, lowText, i + 1) && total' == TotalUpTo(labels, lowText, i + 1)
  {
    HitsStep(labels, lowText, i);
    counts', total' := CountKeywords(counts, total, labels[i], lowText);
  }

  /** The counts after the first `i` rows. */
  function CountsUpTo(labels: seq<SentimentLabel>, lowText: string, i: nat): Dict<string, int>
    requires i <= |labels|
  {
    Tally(ZeroCounts(LabelKeys(labels)), LabelKeys(labels)[..i], TextHits(labels, lowText)[..i])
  }

  /** The total after the first `i` rows. */
  function TotalUpTo(labels: seq<SentimentLabel>, lowText: string, i: nat): int
    requires i <= |labels|
  {
    Sum(TextHits(labels, lowText)[..i])
  }

  /** Row `i` adds its keyword hits to its label's count and to the total. */
  lemma HitsStep(labels: seq<SentimentLabel>, lowText: string, i: nat)
    requires i < |labels|
    ensures CountsUpTo(labels, lowText, i + 1)
            == AddTo(CountsUpTo(labels, lowText, i), Lower(labels[i].name), RowHits(labels[i], lowText))
    ensures TotalUpTo(labels, lowText, i + 1) == TotalUpTo(labels, lowText, i) + RowHits(labels[i], lowText)
  {
    TallyStep(ZeroCounts(LabelKeys(labels)), LabelKeys(labels), TextHits(labels, lowText), i);
  }

  /** After the last row: the tally and the total of all the rows. */
  lemma UpToAll(labels: seq<SentimentLabel>, lowText: string)
    ensures CountsUpTo(labels, lowText, 0) == ZeroCounts(LabelKeys(labels))
    ensures TotalUpTo(labels, lowText, 0) == 0
    ensures CountsUpTo(labels, lowText, |labels|) == HitCounts(labels, lowText)
    ensures TotalUpTo(labels, lowText, |labels|) == Sum(TextHits(labels, lowText))
  {
    assert LabelKeys(labels)[..|labels|] == LabelKeys(labels);
    assert TextHits(labels, lowText)[..|labels|] == TextHits(labels, lowText);
  }

  /** `analyze_sentiment_with_percentage(text, db)` over the label rows.
      With no keyword hit the answer is "Neutral" with no percentages;
      otherwise the labels with a positive count get the residual-corrected
      percentages of `calculate_percentages`, and the summary is the
      capitalised label holding the first largest percentage. */
  method AnalyzeSentimentWithPercentage(text: string, labels: seq<SentimentLabel>)
    returns (summary: string, percentage: Dict<string, int>)
    ensures var counts := LabelMatchCounts(labels, text);
            Sum(Values(counts)) == 0 ==> summary == "Neutral" && percentage == []
    ensures var counts := LabelMatchCounts(labels, text);
            Sum(Values(counts)) != 0 ==>
              && percentage == CalculatePercentages(Positive(counts))
              && Keys(percentage) == Keys(Positive(counts))
              && Sum(Values(percentage)) == 100
              && |percentage| > 0
              && summary == Capitalize(percentage[ArgMaxInt(Values(percentage))].0)
  {
    var labelMatchCounts, totalKeywords := CountLabelMatches(text, labels);
    if totalKeywords == 0 {
      return "Neutral", [];
    }
    LabelMatchCountsNonNegative(labels, text);
    var positive := Positive(labelMatchCounts);
    PositiveSum(labelMatchCounts);
    assert |positive| > 0;
    var percRounded := CorrectResidual(Shares(Values(positive), totalKeywords));
    percentage := Zip(Keys(positive), percRounded);
    summary := Capitalize(percentage[ArgMaxInt(Values(percentage))].0);
  }

  lemma LabelMatchCountsNonNegative(labels: seq<SentimentLabel>, text: string)
    ensures forall i :: 0 <= i < |LabelMatchCounts(labels, text)| ==> LabelMatchCounts(labels, text)[i].1 >= 0
  {
    var keys, hits := LabelKeys(labels), TextHits(labels, Lower(text));
    forall i | 0 <= i < |LabelMatchCounts(labels, text)| ensures LabelMatchCounts(labels, text)[i].1 >= 0 {
      TallyNonNegative(ZeroCounts(keys), keys, hits, i);
    }
  }

  lemma {:induction false} TallyNonNegative(d: Dict<string, int>, keys: seq<string>, hits: seq<int>, i: nat)
    requires |keys| == |hits|
    requires forall j :: 0 <= j < |d| ==> d[j].1 >= 0
    requires forall j :: 0 <= j < |hits| ==> hits[j] >= 0
    requires i < |Tally(d, keys, hits)|
    ensures Tally(d, keys, hits)[i].1 >= 0
    decreases |keys|
  {
    if keys != [] {
      var n := |keys| - 1;
      var prev := Tally(d, keys[..n], hits[..n]);
      forall j | 0 <= j < |prev| ensures prev[j].1 >= 0 {
        TallyNonNegative(d, keys[..n], hits[..n], j);
      }
    }
  }

  /** Each label's final count is the number of keyword hits of the rows
      carrying that label (two rows with the same label add up). */
  lemma LabelCount(labels: seq<SentimentLabel>, text: string, k: string)
    ensures Get(LabelMatchCounts(labels, text), k) == HitsFor(LabelKeys(labels), TextHits(labels, Lower(text)), k)
  {
    var keys := LabelKeys(labels);
    var zero := ZeroCounts(keys);
    TallyGet(zero, keys, TextHits(labels, Lower(text)), k);
    var i := Find(zero, k);
    if i < |zero| {
      assert zero[i].1 == 0;
    }
  }

  /** Three equal counts: the shares 33.3.. round to 33 each and the
      missing 1 goes to the first key, the first of the tied maxima. */
  lemma ThreeWayTie()
    ensures CalculatePercentages([("a", 1), ("b", 1), ("c", 1)]) == [("a", 34), ("b", 33), ("c", 33)]
  {
    var counts := [("a", 1), ("b", 1), ("c", 1)];
    assert Values(counts) == [1, 1, 1];
    assert Sum([1, 1, 1]) == 3;
    var shares := Shares([1, 1, 1], 3);
    assert shares == [100.0 / 3.0, 100.0 / 3.0, 100.0 / 3.0];
    assert RoundHalfEven(100.0 / 3.0) == 33 by {
      assert 33.0 <= 100.0 / 3.0 < 34.0;
    }
    assert RoundAll(shares) == [33, 33, 33];
    assert Sum([33, 33, 33]) == 99;
    assert ArgMaxReal(shares) == 0;
    var r := CorrectResidual(shares);
    assert r == [34, 33, 33];
  }

  /** With 22 labels each matched once every share is 4.54.., which rounds
      up to 5; the residual 100 - 110 = -10 leaves the first label at -5. */
  lemma NegativeResidual()
    ensures var counts := seq(22, i => (if i == 0 then "a" else "b", 1));
            CorrectResidual(Shares(Values(counts), 22))[0] == -5
  {
    var counts := seq(22, i => (if i == 0 then "a" else "b", 1));
    var ones := seq(22, i => 1);
    assert Values(counts) == ones;
    var shares := Shares(ones, 22);
    assert RoundHalfEven(100.0 / 22.0) == 5 by {
      assert 4.0 <= 100.0 / 22.0 < 5.0;
    }
    var fives := seq(22, i => 5);
    assert RoundAll(shares) == fives;
    SumConstant(fives, 5);
    assert ArgMaxReal(shares) == 0;
  }

  lemma {:induction false} SumConstant(xs: seq<int>, c: int)
    requires forall i :: 0 <= i < |xs| ==> xs[i] == c
    ensures Sum(xs) == |xs| * c
  {
    if xs != [] {
      SumConstant(xs[1..], c);
    }
  }

  /** A trailing comma leaves an empty last keyword, and the empty string
      occurs in every text: such a row always scores at least one hit. */
  lemma TrailingCommaAlwaysMatches(name: string, csv: string, lowText: string)
    ensures RowHits(SentimentLabel(name, csv + ","), lowText) >= 1
  {
    TrailingKeywordEmpty(csv);
    EmptyKeywordHits(KeywordList(csv + ","), lowText);
  }

  /** The last keyword of a list ending in a comma is empty. */
  lemma TrailingKeywordEmpty(csv: string)
    ensures var kws := KeywordList(csv + ",");
            |kws| > 0 && kws[|kws| - 1] == []
  {
    SplitTrailing(csv, ',');
    LastKeywordEmpty(csv + ",");
  }

  /** An empty last piece of the split is an empty last keyword. */
  lemma LastKeywordEmpty(csv: string)
    requires var parts := Split(csv, ','); parts[|parts| - 1] == []
    ensures var kws := KeywordList(csv);
            |kws| > 0 && kws[|kws| - 1] == []
  {
    var parts := Split(csv, ',');
    var kws := KeywordList(csv);
    var n := |parts| - 1;
    assert kws[n] == Lower(Strip(parts[n]));
    assert IsBlank(parts[n]);
  }

  lemma EmptyKeywordHits(kws: seq<string>, lowText: string)
    requires |kws| > 0 && kws[|kws| - 1] == []
    ensures KeywordHits(kws, lowText) >= 1
  {
    assert OccursAt(lowText, [], 0);
  }
}
