/** The string operations of Python's `str` that the routes rely on:
    `lower`, `strip`, `in`, `split`, `capitalize`, `endswith`, `join`, and
    the two regular-expression span searches used to pull JSON out of a
    model's free-form answer. Strings are sequences of code points. */
module Text {
  import opened Wrappers

  /** `c.isspace()` in Python. */
  predicate IsSpace(c: char) {
    c == ' ' || c == '\t' || c == '\n' || c == '\r' || c == '\U{B}' || c == '\U{C}'
    || ('\U{1C}' <= c <= '\U{1F}') || c == '\U{85}' || c == '\U{A0}' || c == '\U{1680}'
    || ('\U{2000}' <= c <= '\U{200A}') || c == '\U{2028}' || c == '\U{2029}'
    || c == '\U{202F}' || c == '\U{205F}' || c == '\U{3000}'
  }

  /** Every character is whitespace: `s.strip() == ""`. */
  predicate IsBlank(s: string) {
    forall i :: 0 <= i < |s| ==> IsSpace(s[i])
  }

  function LowerChar(c: char): char {
    if 'A' <= c <= 'Z' then (c as int + 32) as char else c
  }

  function UpperChar(c: char): char {
    if 'a' <= c <= 'z' then (c as int - 32) as char else c
  }

  /** `s.lower()`, on the ASCII letters. */
  function Lower(s: string): string {
    seq(|s|, i requires 0 <= i < |s| => LowerChar(s[i]))
  }

  /** A string without upper-case letters is its own lower case. */
  lemma LowerOfLower(s: string)
    requires forall i :: 0 <= i < |s| ==> !('A' <= s[i] <= 'Z')
    ensures Lower(s) == s
  {
  }

  lemma LowerIdempotent(s: string)
    ensures Lower(Lower(s)) == Lower(s)
  {
  }

  /** `s.capitalize()`: the first character upper-cased, the rest lower-cased. */
  function Capitalize(s: string): (r: string)
    ensures |r| == |s|
    ensures s != [] ==> r[0] == UpperChar(s[0]) && r[1..] == Lower(s[1..])
  {
    if s == [] then [] else [UpperChar(s[0])] + Lower(s[1..])
  }

  /** Number of leading whitespace characters. */
  function LeadingSpaces(s: string): (n: nat)
    ensures n <= |s|
    ensures IsBlank(s[..n])
    ensures n < |s| ==> !IsSpace(s[n])
  {
    if s == [] || !IsSpace(s[0]) then 0 else 1 + LeadingSpaces(s[1..])
  }

  /** Index from which only whitespace follows. */
  function TrailingStart(s: string): (n: nat)
    ensures n <= |s|
    ensures IsBlank(s[n..])
    ensures n > 0 ==> !IsSpace(s[n - 1])
  {
    if s == [] || !IsSpace(s[|s| - 1]) then |s| else TrailingStart(s[..|s| - 1])
  }

  /** `s.strip()`: the slice of `s` left once the leading and the trailing
      whitespace are cut off. */
  function Strip(s: string): (r: string)
    ensures exists i :: 0 <= i <= |s| - |r| && r == s[i..i + |r|] && IsBlank(s[..i]) && IsBlank(s[i + |r|..])
    ensures r == [] <==> IsBlank(s)
    ensures r != [] ==> !IsSpace(r[0]) && !IsSpace(r[|r| - 1])
  {
    var i := LeadingSpaces(s);
    var j := TrailingStart(s);
    if j <= i then
      assert IsBlank(s) by {
        forall k | 0 <= k < |s| ensures IsSpace(s[k]) {
          if k >= j { assert s[k] == s[j..][k - j]; } else { assert s[k] == s[..i][k]; }
        }
      }
      assert s[..0] == [] && s[0..] == s;
      []
    else
      var r := s[i..j];
      assert !IsBlank(s) by { assert !IsSpace(s[j - 1]); }
      assert r[0] == s[i] && r[|r| - 1] == s[j - 1];
      assert r == s[i..i + |r|] && s[i + |r|..] == s[j..];
      r
  }

  /** A string with no whitespace at either end is its own strip. */
  lemma StripUnpadded(s: string)
    requires s != [] && !IsSpace(s[0]) && !IsSpace(s[|s| - 1])
    ensures Strip(s) == s
  {
    assert LeadingSpaces(s) == 0;
    assert TrailingStart(s) == |s|;
    assert s[0..|s|] == s;
  }

  lemma {:induction false} StripIdempotent(s: string)
    ensures Strip(Strip(s)) == Strip(s)
  {
    var r := Strip(s);
    if r != [] {
      assert LeadingSpaces(r) == 0;
      assert TrailingStart(r) == |r|;
      assert r[0..|r|] == r;
    }
  }

  /** `p` is a prefix of `s`. */
  predicate IsPrefix(p: string, s: string) {
    |p| <= |s| && s[..|p|] == p
  }

  /** `p` occurs in `s` starting at index `i`. */
  predicate OccursAt(s: string, p: string, i: int) {
    0 <= i <= |s| - |p| && s[i..i + |p|] == p
  }

  /** `p in s`: `p` occurs in `s` as a contiguous slice (the empty string
      occurs in every string). */
  function Contains(s: string, p: string): (b: bool)
    ensures b <==> exists i :: OccursAt(s, p, i)
    decreases |s|
  {
    if IsPrefix(p, s) then
      assert OccursAt(s, p, 0);
      true
    else if s == [] then
      false
    else if Contains(s[1..], p) then
      var i :| OccursAt(s[1..], p, i);
      assert s[i + 1..i + 1 + |p|] == s[1..][i..i + |p|];
      assert OccursAt(s, p, i + 1);
      true
    else
      forall i | OccursAt(s, p, i) && i > 0 ensures OccursAt(s[1..], p, i - 1) {
        assert s[1..][i - 1..i - 1 + |p|] == s[i..i + |p|];
      }
      false
  }

  /** SQL `column ILIKE '%p%'`: case-insensitive containment. */
  predicate ContainsIgnoreCase(s: string, p: string) {
    Contains(Lower(s), Lower(p))
  }

  /** `s.endswith(suffix)`. */
  predicate EndsWith(s: string, suffix: string) {
    |suffix| <= |s| && s[|s| - |suffix|..] == suffix
  }

  /** `sep.join(parts)`. */
  function Join(parts: seq<string>, sep: string): string
  {
    if |parts| == 0 then []
    else if |parts| == 1 then parts[0]
    else parts[0] + sep + Join(parts[1..], sep)
  }

  /** `s.split(sep)` for a one-character separator: the pieces between the
      separators; joining them back with the separator gives `s`. */
  function Split(s: string, sep: char): (r: seq<string>)
    ensures |r| >= 1
    ensures forall i :: 0 <= i < |r| ==> sep !in r[i]
    ensures Join(r, [sep]) == s
  {
    if s == [] then [[]]
    else
      var rest := Split(s[1..], sep);
      if s[0] == sep then
        assert Join([[]] + rest, [sep]) == [] + [sep] + Join(rest, [sep]);
        assert s == [sep] + s[1..];
        [[]] + rest
      else
        var r := [[s[0]] + rest[0]] + rest[1..];
        assert r[1..] == rest[1..];
        assert s == [s[0]] + s[1..];
        if |rest| == 1 then r
        else
          assert Join(rest, [sep]) == rest[0] + [sep] + Join(rest[1..], [sep]);
          r
  }

  /** A join of separator-free pieces contains the separator exactly
      where one piece ends and the next begins; the first one sits right
      after the first piece. */
  lemma JoinFirstSeparator(parts: seq<string>, sep: char)
    requires |parts| > 1
    ensures var t := Join(parts, [sep]);
            && |parts[0]| < |t| && t[|parts[0]|] == sep && t[..|parts[0]|] == parts[0]
            && t[|parts[0]| + 1..] == Join(parts[1..], [sep])
  {
  }

  /** Separator-free pieces can be told apart by their join. */
  lemma {:induction false} JoinInjective(a: seq<string>, b: seq<string>, sep: char)
    requires |a| >= 1 && |b| >= 1
    requires forall i :: 0 <= i < |a| ==> sep !in a[i]
    requires forall i :: 0 <= i < |b| ==> sep !in b[i]
    requires Join(a, [sep]) == Join(b, [sep])
    ensures a == b
    decreases |a|
  {
    var t := Join(a, [sep]);
    if |a| == 1 && |b| == 1 {
    } else if |a| == 1 {
      JoinFirstSeparator(b, sep);
      assert false;
    } else if |b| == 1 {
      JoinFirstSeparator(a, sep);
      assert false;
    } else {
      JoinFirstSeparator(a, sep);
      JoinFirstSeparator(b, sep);
      if |a[0]| != |b[0]| {
        assert false;
      }
      JoinInjective(a[1..], b[1..], sep);
      assert a == [a[0]] + a[1..] && b == [b[0]] + b[1..];
    }
  }

  /** Round trip: splitting a join of separator-free pieces gives the
      pieces back. */
  lemma SplitJoin(parts: seq<string>, sep: char)
    requires |parts| >= 1
    requires forall i :: 0 <= i < |parts| ==> sep !in parts[i]
    ensures Split(Join(parts, [sep]), sep) == parts
  {
    JoinInjective(Split(Join(parts, [sep]), sep), parts, sep);
  }

  lemma {:induction false} JoinEndsWith(parts: seq<string>, sep: string)
    requires |parts| > 0
    ensures EndsWith(Join(parts, sep), parts[|parts| - 1])
  {
    if |parts| > 1 {
      JoinEndsWith(parts[1..], sep);
      var tail := Join(parts[1..], sep);
      var whole := parts[0] + sep + tail;
      assert whole[|whole| - |tail|..] == tail;
      assert whole[|whole| - |parts[|parts| - 1]|..] == tail[|tail| - |parts[|parts| - 1]|..];
    }
  }

  /** A non-empty suffix ends with the string's last character. */
  lemma EndsWithLast(t: string, suffix: string)
    requires EndsWith(t, suffix) && suffix != []
    ensures suffix[|suffix| - 1] == t[|t| - 1] && t[|t| - 1] in suffix
  {
    assert suffix[|suffix| - 1] == t[|t| - |suffix|..][|suffix| - 1];
  }

  /** Pieces free of the separator that join into a string ending in the
      separator end with an empty piece. */
  lemma LastPieceEmpty(pieces: seq<string>, sep: char, t: string)
    requires |pieces| > 0
    requires forall i :: 0 <= i < |pieces| ==> sep !in pieces[i]
    requires Join(pieces, [sep]) == t && |t| > 0 && t[|t| - 1] == sep
    ensures pieces[|pieces| - 1] == []
  {
    var last := pieces[|pieces| - 1];
    JoinEndsWith(pieces, [sep]);
    if last != [] {
      EndsWithLast(t, last);
      assert false;
    }
  }

  /** A string ending in the separator splits with an empty last piece. */
  lemma SplitTrailing(s: string, sep: char)
    ensures var r := Split(s + [sep], sep); r[|r| - 1] == []
  {
    var t := s + [sep];
    assert t[|t| - 1] == sep;
    SplitEndingInSeparator(t, sep);
  }

  lemma SplitEndingInSeparator(t: string, sep: char)
    requires |t| > 0 && t[|t| - 1] == sep
    ensures var r := Split(t, sep); r[|r| - 1] == []
  {
    var r := Split(t, sep);
    LastPieceEmpty(r, sep, t);
  }

  /** Length of the run of non-whitespace characters `s` starts with. */
  function RunLength(s: string): (n: nat)
    ensures n <= |s|
    ensures forall k :: 0 <= k < n ==> !IsSpace(s[k])
    ensures n < |s| ==> IsSpace(s[n])
  {
    if s == [] || IsSpace(s[0]) then 0 else 1 + RunLength(s[1..])
  }

  /** The characters of `s` that are not whitespace, in order. */
  function NonSpace(s: string): string
  {
    if s == [] then [] else (if IsSpace(s[0]) then [] else [s[0]]) + NonSpace(s[1..])
  }

  function Concat(parts: seq<string>): string
  {
    if parts == [] then [] else parts[0] + Concat(parts[1..])
  }

  lemma {:induction false} NonSpaceAppend(a: string, b: string)
    ensures NonSpace(a + b) == NonSpace(a) + NonSpace(b)
  {
    if a != [] {
      assert (a + b)[1..] == a[1..] + b;
      NonSpaceAppend(a[1..], b);
    } else {
      assert a + b == b;
    }
  }

  lemma {:induction false} NonSpaceOfWord(w: string)
    requires forall k :: 0 <= k < |w| ==> !IsSpace(w[k])
    ensures NonSpace(w) == w
  {
    if w != [] {
      NonSpaceOfWord(w[1..]);
      assert w == [w[0]] + w[1..];
    }
  }

  /** `s.split()` with no argument: the maximal runs of non-whitespace. */
  function Words(s: string): (r: seq<string>)
    ensures forall i :: 0 <= i < |r| ==> r[i] != [] && forall k :: 0 <= k < |r[i]| ==> !IsSpace(r[i][k])
    ensures Concat(r) == NonSpace(s)
    ensures r == [] <==> IsBlank(s)
    decreases |s|
  {
    if s == [] then []
    else if IsSpace(s[0]) then
      var r := Words(s[1..]);
      assert IsBlank(s) <==> IsBlank(s[1..]) by {
        assert forall k :: 0 < k < |s| ==> s[k] == s[1..][k - 1];
      }
      r
    else
      var n := RunLength(s);
      var rest := Words(s[n..]);
      var r := [s[..n]] + rest;
      assert r[1..] == rest;
      assert s == s[..n] + s[n..];
      NonSpaceAppend(s[..n], s[n..]);
      NonSpaceOfWord(s[..n]);
      assert !IsSpace(s[0]);
      r
  }

  /** `gaps[0] + words[0] + gaps[1] + ... + words[n - 1] + gaps[n]`. */
  function Weave(gaps: seq<string>, words: seq<string>): string
    requires |gaps| == |words| + 1
  {
    if words == [] then gaps[0] else gaps[0] + words[0] + Weave(gaps[1..], words[1..])
  }

  /** The words are the maximal runs: a string laid out as non-empty words
      without whitespace, separated by non-empty whitespace and padded by
      whitespace at either end, splits back into exactly those words. */
  lemma {:induction false} WordsOfWeave(gaps: seq<string>, words: seq<string>)
    requires |gaps| == |words| + 1
    requires forall i :: 0 <= i < |gaps| ==> IsBlank(gaps[i])
    requires forall i :: 0 < i < |words| ==> gaps[i] != []
    requires forall i :: 0 <= i < |words| ==> words[i] != [] && forall k :: 0 <= k < |words[i]| ==> !IsSpace(words[i][k])
    ensures Words(Weave(gaps, words)) == words
  {
    if words != [] {
      var g, ws := gaps[1..], words[1..];
      assert forall i :: 0 <= i < |g| ==> g[i] == gaps[i + 1];
      assert forall i :: 0 <= i < |ws| ==> ws[i] == words[i + 1];
      WordsOfWeave(g, ws);
      WeaveRest(gaps, words);
    }
  }

  /** The step of `WordsOfWeave`: the first word is followed by whitespace
      or by nothing, and the leading gap contributes no word. */
  lemma WeaveRest(gaps: seq<string>, words: seq<string>)
    requires |gaps| == |words| + 1 && words != []
    requires IsBlank(gaps[0]) && IsBlank(gaps[1]) && (|words| > 1 ==> gaps[1] != [])
    requires words[0] != [] && forall k :: 0 <= k < |words[0]| ==> !IsSpace(words[0][k])
    ensures Words(Weave(gaps, words)) == [words[0]] + Words(Weave(gaps[1..], words[1..]))
  {
    var t := Weave(gaps[1..], words[1..]);
    if |words| == 1 {
      assert t == gaps[1];
    } else {
      WeaveStart(gaps[1..], words[1..]);
    }
    assert Weave(gaps, words) == gaps[0] + (words[0] + t);
    WordsAfterGap(gaps[0], words[0], t);
  }

  /** Whitespace, then a word followed by whitespace or by nothing. */
  lemma WordsAfterGap(g: string, w: string, t: string)
    requires IsBlank(g)
    requires w != [] && forall k :: 0 <= k < |w| ==> !IsSpace(w[k])
    requires t == [] || IsSpace(t[0])
    ensures Words(g + (w + t)) == [w] + Words(t)
  {
    WordsWordThen(w, t);
    WordsBlankPrefix(g, w + t);
  }

  /** A weave with a non-empty first gap starts with that gap. */
  lemma WeaveStart(gaps: seq<string>, words: seq<string>)
    requires |gaps| == |words| + 1 && gaps[0] != []
    ensures Weave(gaps, words) != [] && Weave(gaps, words)[0] == gaps[0][0]
  {
  }

  /** Leading whitespace contributes no word. */
  lemma {:induction false} WordsBlankPrefix(b: string, s: string)
    requires IsBlank(b)
    ensures Words(b + s) == Words(s)
  {
    if b != [] {
      assert (b + s)[1..] == b[1..] + s;
      WordsBlankPrefix(b[1..], s);
    } else {
      assert b + s == s;
    }
  }

  /** A word followed by whitespace or by nothing is the first word. */
  lemma WordsWordThen(w: string, t: string)
    requires w != [] && forall k :: 0 <= k < |w| ==> !IsSpace(w[k])
    requires t == [] || IsSpace(t[0])
    ensures Words(w + t) == [w] + Words(t)
  {
    var s := w + t;
    RunLengthWord(w, t);
    assert s[..|w|] == w && s[|w|..] == t;
  }

  lemma {:induction false} RunLengthWord(w: string, t: string)
    requires forall k :: 0 <= k < |w| ==> !IsSpace(w[k])
    requires t == [] || IsSpace(t[0])
    ensures RunLength(w + t) == |w|
  {
    if w != [] {
      assert (w + t)[1..] == w[1..] + t;
      RunLengthWord(w[1..], t);
    } else {
      assert w + t == t;
    }
  }

  /** First index of `c` in `s`, or `|s|` when there is none. */
  function IndexOf(s: string, c: char): (i: nat)
    ensures i <= |s|
    ensures i < |s| ==> s[i] == c
    ensures forall k :: 0 <= k < i ==> s[k] != c
  {
    if s == [] then 0
    else if s[0] == c then 0
    else 1 + IndexOf(s[1..], c)
  }

  /** Last index of `c` in `s`, or -1 when there is none. */
  function LastIndexOf(s: string, c: char): (i: int)
    ensures -1 <= i < |s|
    ensures i >= 0 ==> s[i] == c
    ensures forall k :: i < k < |s| ==> s[k] != c
  {
    if s == [] then -1
    else if s[|s| - 1] == c then |s| - 1
    else LastIndexOf(s[..|s| - 1], c)
  }

  /** `re.search(r'\{.*\}', s, re.DOTALL)` (and its `[`/`]` variant): the
      greedy match runs from the first opening bracket to the last closing
      bracket. */
  function GreedySpan(s: string, open: char, close: char): Option<string>
  {
    var i := IndexOf(s, open);
    var j := LastIndexOf(s, close);
    if i < j then Some(s[i..j + 1]) else None
  }

  /** The greedy match exists exactly when some closing bracket follows some
      opening one, and then spans from the first opening bracket to the
      last closing bracket. */
  lemma GreedySpanSpec(s: string, open: char, close: char)
    ensures var r := GreedySpan(s, open, close);
            && (r.Some? <==> exists i, j :: 0 <= i < j < |s| && s[i] == open && s[j] == close)
            && (r.Some? ==> exists i, j :: 0 <= i < j < |s| && r.value == s[i..j + 1]
                              && s[i] == open && s[j] == close
                              && open !in s[..i] && close !in s[j + 1..])
  {
    var i := IndexOf(s, open);
    var j := LastIndexOf(s, close);
    if i < j {
      assert open !in s[..i] by { assert forall k :: 0 <= k < i ==> s[..i][k] == s[k]; }
      assert close !in s[j + 1..] by {
        var tail := s[j + 1..];
        forall k | 0 <= k < |tail| ensures tail[k] != close { assert tail[k] == s[j + 1 + k]; }
      }
    }
  }

  /** `re.search(r"\[.*?\]", s, re.DOTALL)`: the lazy match runs from the
      first opening bracket to the first closing bracket after it. */
  function LazySpan(s: string, open: char, close: char): Option<string>
  {
    var i := IndexOf(s, open);
    if i == |s| then None
    else
      var j := i + 1 + IndexOf(s[i + 1..], close);
      if j < |s| then Some(s[i..j + 1]) else None
  }

  /** The lazy match exists exactly when some closing bracket follows some
      opening one, and then spans from the first opening bracket to the
      first closing bracket after it. */
  lemma LazySpanSpec(s: string, open: char, close: char)
    ensures var r := LazySpan(s, open, close);
            && (r.Some? <==> exists i, j :: 0 <= i < j < |s| && s[i] == open && s[j] == close)
            && (r.Some? ==> exists i, j :: 0 <= i < j < |s| && r.value == s[i..j + 1]
                              && s[i] == open && s[j] == close
                              && open !in s[..i] && close !in s[i + 1..j])
  {
    var i := IndexOf(s, open);
    if i < |s| {
      var j := i + 1 + IndexOf(s[i + 1..], close);
      if j < |s| {
        assert s[j] == close by { assert s[j] == s[i + 1..][j - i - 1]; }
        LazySpanFound(s, open, close, i, j);
        assert LazySpan(s, open, close) == Some(s[i..j + 1]);
      } else {
        LazySpanMissing(s, open, close, i);
        assert LazySpan(s, open, close).None?;
      }
    } else {
      assert LazySpan(s, open, close).None?;
    }
  }

  /** The lazy match found: nothing of interest lies before or inside it. */
  lemma LazySpanFound(s: string, open: char, close: char, i: nat, j: nat)
    requires i < j < |s| && i == IndexOf(s, open) && j == i + 1 + IndexOf(s[i + 1..], close)
    ensures open !in s[..i] && close !in s[i + 1..j]
  {
    assert open !in s[..i] by { assert forall k :: 0 <= k < i ==> s[..i][k] == s[k]; }
    assert close !in s[i + 1..j] by {
      var mid := s[i + 1..j];
      forall k | 0 <= k < |mid| ensures mid[k] != close { assert mid[k] == s[i + 1..][k]; }
    }
  }

  /** No closing bracket after the first opening one: no pair at all. */
  lemma LazySpanMissing(s: string, open: char, close: char, i: nat)
    requires i < |s| && i == IndexOf(s, open) && IndexOf(s[i + 1..], close) == |s[i + 1..]|
    ensures forall a, b :: 0 <= a < b < |s| && s[a] == open ==> s[b] != close
  {
    forall a, b | 0 <= a < b < |s| && s[a] == open ensures s[b] != close {
      if b > i { assert s[b] == s[i + 1..][b - i - 1]; }
    }
  }
}
