/** The first step of the description formatter: `trim()` followed by
    `replace(Regex("\\s+"), " ")`. Trimming drops the whitespace at both
    ends; the replacement turns every maximal run of whitespace into one
    space. Both are modelled as character scanners over index ranges. The
    cleaned text is the words of the input joined by single spaces
    (CollapseWords, TrimKeepsWords). */
module Cleaning {
  import opened Sequences

  type String = seq<char>

  /** The whitespace class `\s` of the regular expressions: space, tab,
      line feed, vertical tab, form feed and carriage return; the last five
      are the consecutive code points U+0009 to U+000D. The same predicate
      stands for the whitespace that `trim()` removes. */
  predicate IsSpace(c: char) {
    c == ' ' || '\t' <= c <= '\r'
  }

  /** No character of `s` is whitespace. */
  predicate SpaceFree(s: String) {
    forall i :: 0 <= i < |s| ==> !IsSpace(s[i])
  }

  /** Every character of `s` is whitespace (an empty text included). */
  predicate AllSpace(s: String) {
    forall i :: 0 <= i < |s| ==> IsSpace(s[i])
  }

  /** No two whitespace characters of `s` are adjacent. */
  ghost predicate NoDoubleSpace(s: String) {
    forall i, j :: 0 <= i && j == i + 1 && j < |s| && IsSpace(s[i]) ==> !IsSpace(s[j])
  }

  /** The normal form of cleaned text: every whitespace character is a plain
      space strictly inside the text, and no two of them are adjacent. Hence
      the text neither starts nor ends with whitespace. */
  ghost predicate Normal(s: String) {
    && (forall i :: 0 <= i < |s| && IsSpace(s[i]) ==> s[i] == ' ' && 0 < i < |s| - 1)
    && NoDoubleSpace(s)
  }

  // ---------------------------------------------------------------------
  // Scanners
  // ---------------------------------------------------------------------

  /** The first index in [i, end) that holds a non-whitespace character, or
      `end` when there is none. */
  function SkipSpace(s: String, i: nat, end: nat): (j: nat)
    requires i <= end <= |s|
    ensures i <= j <= end
    ensures j == end || !IsSpace(s[j])
    ensures forall k :: i <= k < j ==> IsSpace(s[k])
    decreases end - i
  {
    if i < end && IsSpace(s[i]) then SkipSpace(s, i + 1, end) else i
  }

  /** Scanning down from `j`, the index just after the last non-whitespace
      character in [start, j), or `start` when there is none. */
  function SkipSpaceBack(s: String, start: nat, j: nat): (i: nat)
    requires start <= j <= |s|
    ensures start <= i <= j
    ensures i == start || !IsSpace(s[i - 1])
    ensures forall k :: i <= k < j ==> IsSpace(s[k])
    decreases j - start
  {
    if start < j && IsSpace(s[j - 1]) then SkipSpaceBack(s, start, j - 1) else j
  }

  /** The first index in [i, end) that holds whitespace, or `end`. */
  function WordEnd(s: String, i: nat, end: nat): (j: nat)
    requires i <= end <= |s|
    ensures i <= j <= end
    ensures j == end || IsSpace(s[j])
    ensures forall k :: i <= k < j ==> !IsSpace(s[k])
    decreases end - i
  {
    if i < end && !IsSpace(s[i]) then WordEnd(s, i + 1, end) else i
  }

  // ---------------------------------------------------------------------
  // trim() and replace(Regex("\\s+"), " ")
  // ---------------------------------------------------------------------

  /** Where `trim()` starts: the first non-whitespace index, or |s|. */
  function TrimStart(s: String): (a: nat)
    ensures a <= |s|
  {
    SkipSpace(s, 0, |s|)
  }

  /** Where `trim()` ends: just after the last non-whitespace character, and
      never before TrimStart(s). */
  function TrimEnd(s: String): (b: nat)
    ensures TrimStart(s) <= b <= |s|
  {
    SkipSpaceBack(s, TrimStart(s), |s|)
  }

  /** Kotlin's `trim()`: the slice between the leading and the trailing
      whitespace. It has whitespace at neither end, and everything cut off
      is whitespace. */
  function Trim(s: String): (r: String)
    ensures r == [] || (!IsSpace(r[0]) && !IsSpace(r[|r| - 1]))
    ensures AllSpace(s[..TrimStart(s)]) && AllSpace(s[TrimEnd(s)..])
    ensures r == s[TrimStart(s)..TrimEnd(s)]
  {
    var a, b := TrimStart(s), TrimEnd(s);
    assert forall k :: 0 <= k < a ==> s[..a][k] == s[k];
    assert forall k :: 0 <= k < |s| - b ==> s[b..][k] == s[b + k];
    s[a..b]
  }

  /** `replace(Regex("\\s+"), " ")` run over s[i..end]: scanning from the
      left, a maximal whitespace run becomes one space and every other
      character is copied. The result is no longer than the range, starts
      with its first character (or a space for a leading run), and its only
      whitespace is plain spaces, never two in a row. */
  function CollapseIn(s: String, i: nat, end: nat): (r: String)
    requires i <= end <= |s|
    ensures |r| == 0 <==> i == end
    ensures |r| <= end - i
    ensures i < end ==> r[0] == (if IsSpace(s[i]) then ' ' else s[i])
    ensures forall k :: 0 <= k < |r| && IsSpace(r[k]) ==> r[k] == ' '
    ensures NoDoubleSpace(r)
    decreases end - i
  {
    if i == end then []
    else if IsSpace(s[i]) then
      var rest := CollapseIn(s, SkipSpace(s, i, end), end);
      assert rest == [] || !IsSpace(rest[0]);
      " " + rest
    else [s[i]] + CollapseIn(s, i + 1, end)
  }

  /** The cleaned description, `description.trim().replace(Regex("\\s+"), " ")`:
      the replacement run over the range that `trim()` keeps
      (`Trim(s) == s[TrimStart(s)..TrimEnd(s)]`). It is in normal form,
      empty exactly when the description is all whitespace, and it is the
      words of the description joined by single spaces. */
  function Clean(s: String): (r: String)
    ensures Normal(r)
    ensures r == [] <==> AllSpace(s)
    ensures r == JoinWith(Words(s), " ")
  {
    var a, b := TrimStart(s), TrimEnd(s);
    assert a < b ==> !IsSpace(s[a]) && !IsSpace(s[b - 1]) by {
      if a < b { assert Trim(s) == s[a..b]; assert Trim(s)[0] == s[a]; assert Trim(s)[b - a - 1] == s[b - 1]; }
    }
    CollapseWords(s, a, b);
    WordsShape(s, a, b);
    JoinedWordsNormal(WordsIn(s, a, b));
    TrimKeepsWords(s);
    TrimEmptyIff(s);
    CollapseIn(s, a, b)
  }

  /** The trimmed range is empty exactly when the text is all whitespace. */
  lemma TrimEmptyIff(s: String)
    ensures TrimStart(s) == TrimEnd(s) <==> AllSpace(s)
  {
    var a := TrimStart(s);
    if a < |s| {
      assert !IsSpace(s[a]);
      assert SkipSpaceBack(s, a, |s|) > a;
    }
  }

  // ---------------------------------------------------------------------
  // Words: the reference the cleaning step is measured against
  // ---------------------------------------------------------------------

  /** The maximal whitespace-free runs of s[i..end], in order. */
  function WordsIn(s: String, i: nat, end: nat): seq<String>
    requires i <= end <= |s|
    decreases end - i
  {
    var j := SkipSpace(s, i, end);
    if j == end then []
    else
      var e := WordEnd(s, j, end);
      [s[j..e]] + WordsIn(s, e, end)
  }

  /** The words of a text. */
  function Words(s: String): seq<String> {
    WordsIn(s, 0, |s|)
  }

  /** Kotlin's `joinToString(sep)`: the elements in order with `sep`
      between neighbours (JoinWithPrefix, JoinWithSuffix, JoinWithLength). */
  function JoinWith(xs: seq<String>, sep: String): String {
    if xs == [] then []
    else if |xs| == 1 then xs[0]
    else xs[0] + sep + JoinWith(xs[1..], sep)
  }

  /** The number of characters in all the elements together. */
  function TotalLength(xs: seq<String>): nat {
    if xs == [] then 0 else |xs[0]| + TotalLength(xs[1..])
  }

  /** A join starts with the first element. */
  lemma {:induction false} JoinWithPrefix(xs: seq<String>, sep: String)
    requires xs != []
    ensures xs[0] <= JoinWith(xs, sep)
  {
    if |xs| > 1 {
      assert JoinWith(xs, sep) == xs[0] + (sep + JoinWith(xs[1..], sep));
    }
  }

  /** A join ends with the last element. */
  lemma {:induction false} JoinWithSuffix(xs: seq<String>, sep: String)
    requires xs != []
    ensures |xs[|xs| - 1]| <= |JoinWith(xs, sep)|
    ensures JoinWith(xs, sep)[|JoinWith(xs, sep)| - |xs[|xs| - 1]|..] == xs[|xs| - 1]
    decreases |xs|
  {
    if |xs| > 1 {
      var tail := xs[1..];
      var last := xs[|xs| - 1];
      JoinWithSuffix(tail, sep);
      assert tail[|tail| - 1] == last;
      assert JoinWith(xs, sep) == (xs[0] + sep) + JoinWith(tail, sep);
      SuffixOfAppend(xs[0] + sep, JoinWith(tail, sep), |last|);
    }
  }

  /** A join is longer than its elements together by exactly one separator
      per gap between neighbours. */
  lemma {:induction false} JoinWithLength(xs: seq<String>, sep: String)
    ensures xs == [] ==> JoinWith(xs, sep) == []
    ensures xs != [] ==> |JoinWith(xs, sep)| == TotalLength(xs) + |sep| * (|xs| - 1)
    decreases |xs|
  {
    if |xs| > 1 {
      var tail := xs[1..];
      JoinWithLength(tail, sep);
      assert |JoinWith(xs, sep)| == |xs[0]| + |sep| + |JoinWith(tail, sep)|;
      assert TotalLength(xs) == |xs[0]| + TotalLength(tail);
      assert |sep| * (|xs| - 1) == |sep| + |sep| * (|tail| - 1);
    }
  }

  /** Joining a list with at least two elements puts the separator after
      the first one. */
  lemma JoinWithCons(x: String, xs: seq<String>, sep: String)
    requires xs != []
    ensures JoinWith([x] + xs, sep) == x + sep + JoinWith(xs, sep)
  {
    assert ([x] + xs)[1..] == xs;
  }

  /** Every word is non-empty and free of whitespace. */
  lemma {:induction false} WordsShape(s: String, i: nat, end: nat)
    requires i <= end <= |s|
    ensures forall k :: 0 <= k < |WordsIn(s, i, end)| ==>
              WordsIn(s, i, end)[k] != [] && SpaceFree(WordsIn(s, i, end)[k])
    decreases end - i
  {
    var j := SkipSpace(s, i, end);
    if j < end {
      var e := WordEnd(s, j, end);
      WordsShape(s, e, end);
      var w := s[j..e];
      assert w[0] == s[j];
      assert forall k :: 0 <= k < |w| ==> w[k] == s[j + k];
    }
  }

  /** Trailing whitespace after index b adds no word. */
  lemma {:induction false} WordsTrailing(s: String, i: nat, b: nat)
    requires i <= b <= |s| && AllSpace(s[b..])
    ensures WordsIn(s, i, |s|) == WordsIn(s, i, b)
    decreases b - i
  {
    var j, j' := SkipSpace(s, i, |s|), SkipSpace(s, i, b);
    assert forall k :: b <= k < |s| ==> IsSpace(s[k]) by {
      forall k | b <= k < |s| ensures IsSpace(s[k]) { assert s[b..][k - b] == s[k]; }
    }
    if j' < b {
      assert !IsSpace(s[j']);
      assert j <= j';
      assert j == j';
      var e, e' := WordEnd(s, j, |s|), WordEnd(s, j, b);
      assert e <= e' by {
        if e' < b || b < |s| {
          assert IsSpace(s[e']);
        }
      }
      assert e == e';
      WordsTrailing(s, e, b);
    } else {
      assert j == |s|;
    }
  }

  /** Trimming keeps the words of a text: the whitespace it cuts off holds
      none. */
  lemma TrimKeepsWords(s: String)
    ensures WordsIn(s, TrimStart(s), TrimEnd(s)) == Words(s)
  {
    var a, b := TrimStart(s), TrimEnd(s);
    assert AllSpace(s[b..]) by { assert Trim(s) == s[a..b]; }
    WordsTrailing(s, a, b);
    assert SkipSpace(s, a, |s|) == a;
  }

  /** Scanning a slice for a non-whitespace character finds the same place
      as scanning the whole text, shifted by the slice's start. */
  lemma {:induction false} SkipSpaceShift(s: String, lo: nat, i: nat, end: nat)
    requires lo <= i <= end <= |s|
    ensures SkipSpace(s[lo..end], i - lo, end - lo) == SkipSpace(s, i, end) - lo
    decreases end - i
  {
    if i < end {
      assert s[lo..end][i - lo] == s[i];
      SkipSpaceShift(s, lo, i + 1, end);
    }
  }

  /** The replacement run over a slice writes what it writes over the same
      range of the whole text. */
  lemma {:induction false} CollapseShift(s: String, lo: nat, i: nat, end: nat)
    requires lo <= i <= end <= |s|
    ensures CollapseIn(s[lo..end], i - lo, end - lo) == CollapseIn(s, i, end)
    decreases end - i
  {
    if i < end {
      assert s[lo..end][i - lo] == s[i];
      if IsSpace(s[i]) {
        SkipSpaceShift(s, lo, i, end);
        CollapseShift(s, lo, SkipSpace(s, i, end), end);
      } else {
        CollapseShift(s, lo, i + 1, end);
      }
    }
  }

  /** `Clean` is literally `trim()` followed by the replacement: running
      the replacement over the range that `trim()` keeps is the same as
      running it over the trimmed copy. */
  lemma CleanIsTrimThenReplace(s: String)
    ensures Clean(s) == CollapseIn(Trim(s), 0, |Trim(s)|)
  {
    CollapseShift(s, TrimStart(s), TrimStart(s), TrimEnd(s));
  }

  /** At a non-whitespace character the replacement copies it and goes on
      with the next one, inside the same word. */
  lemma CopyStep(s: String, i: nat, end: nat)
    requires i < end <= |s| && !IsSpace(s[i])
    ensures CollapseIn(s, i, end) == [s[i]] + CollapseIn(s, i + 1, end)
    ensures WordEnd(s, i, end) == WordEnd(s, i + 1, end)
  {
  }

  /** The replacement copies a word unchanged. */
  lemma {:induction false} CollapseWord(s: String, i: nat, end: nat)
    requires i <= end <= |s|
    ensures CollapseIn(s, i, end) == s[i..WordEnd(s, i, end)] + CollapseIn(s, WordEnd(s, i, end), end)
    decreases end - i
  {
    var e := WordEnd(s, i, end);
    if i < e {
      CopyStep(s, i, end);
      CollapseWord(s, i + 1, end);
      var rest := CollapseIn(s, e, end);
      ConsAppend(s[i], s[i + 1..e], rest);
      SliceCons(s, i, e);
    } else {
      assert s[i..e] == [];
    }
  }

  /** On a range that neither starts nor ends with whitespace, the
      replacement writes the words joined by single spaces. */
  lemma {:induction false} CollapseWords(s: String, i: nat, end: nat)
    requires i <= end <= |s|
    requires i == end || (!IsSpace(s[i]) && !IsSpace(s[end - 1]))
    ensures CollapseIn(s, i, end) == JoinWith(WordsIn(s, i, end), " ")
    decreases end - i
  {
    if i < end {
      var e := WordEnd(s, i, end);
      CollapseWord(s, i, end);
      assert WordsIn(s, i, end) == [s[i..e]] + WordsIn(s, e, end);
      if e < end {
        var j := SkipSpace(s, e, end);
        assert j < end;
        assert SkipSpace(s, j, end) == j;
        assert WordsIn(s, e, end) == WordsIn(s, j, end);
        assert CollapseIn(s, e, end) == " " + CollapseIn(s, j, end);
        CollapseWords(s, j, end);
        assert WordsIn(s, j, end) != [];
        JoinWithCons(s[i..e], WordsIn(s, j, end), " ");
      }
    }
  }

  /** Joined words are in normal form, and a non-empty join starts and ends
      on a word character. */
  lemma {:induction false} JoinedWordsNormal(ws: seq<String>)
    requires forall k :: 0 <= k < |ws| ==> ws[k] != [] && SpaceFree(ws[k])
    ensures Normal(JoinWith(ws, " "))
    ensures ws != [] ==> JoinWith(ws, " ") != []
                         && !IsSpace(JoinWith(ws, " ")[0])
                         && !IsSpace(JoinWith(ws, " ")[|JoinWith(ws, " ")| - 1])
  {
    if |ws| == 1 {
      assert SpaceFree(ws[0]);
    } else if |ws| > 1 {
      var w, rest := ws[0], JoinWith(ws[1..], " ");
      JoinedWordsNormal(ws[1..]);
      var r := JoinWith(ws, " ");
      assert r == w + " " + rest;
      assert SpaceFree(w);
      forall i | 0 <= i < |r| && IsSpace(r[i]) ensures r[i] == ' ' && 0 < i < |r| - 1 {
        if i > |w| { assert r[i] == rest[i - |w| - 1]; }
      }
      forall i, j | 0 <= i && j == i + 1 && j < |r| && IsSpace(r[i]) ensures !IsSpace(r[j]) {
        if i == |w| {
          assert r[j] == rest[0];
        } else {
          assert r[i] == rest[i - |w| - 1] && r[j] == rest[j - |w| - 1];
        }
      }
      assert r[|r| - 1] == rest[|rest| - 1];
    }
  }

  /** On normal text the replacement is the identity. */
  lemma {:induction false} CollapseNormal(c: String, i: nat)
    requires Normal(c) && i <= |c|
    ensures CollapseIn(c, i, |c|) == c[i..]
    decreases |c| - i
  {
    if i < |c| {
      if IsSpace(c[i]) {
        assert c[i] == ' ' && i + 1 < |c| && !IsSpace(c[i + 1]);
        assert SkipSpace(c, i, |c|) == i + 1;
        CollapseNormal(c, i + 1);
      } else {
        CollapseNormal(c, i + 1);
      }
      assert c[i..] == [c[i]] + c[i + 1..];
    }
  }

  /** Text already in normal form is its own cleaning. */
  lemma CleanOfNormal(c: String)
    requires Normal(c)
    ensures Clean(c) == c
  {
    assert TrimStart(c) == 0;
    if c != [] {
      assert !IsSpace(c[|c| - 1]);
    }
    assert TrimEnd(c) == |c|;
    CollapseNormal(c, 0);
  }

  /** Cleaning is idempotent. */
  lemma CleanIdempotent(s: String)
    ensures Clean(Clean(s)) == Clean(s)
  {
    CleanOfNormal(Clean(s));
  }
}
