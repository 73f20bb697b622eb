/** The second step of the description formatter:
    `split(Regex("(?<=[.!?])\\s+")).filter { it.isNotEmpty() }`. A match of
    the separator starts at a whitespace character whose left neighbour is
    `.`, `!` or `?` and takes the whole whitespace run; the text between
    matches is a fragment. The regular expression is modelled as a scanner
    that looks for the next such position. */
module SentenceSplit {
  import opened Sequences
  import opened Cleaning

  /** The sentence terminators of the look-behind `[.!?]`. */
  predicate IsTerminator(c: char) {
    c == '.' || c == '!' || c == '?'
  }

  /** A match of the separator can start at index p: s[p] is whitespace and
      the character just before it is a terminator. */
  predicate CutAt(s: String, p: int) {
    0 < p < |s| && IsSpace(s[p]) && IsTerminator(s[p - 1])
  }

  /** No separator match can start anywhere inside `f`. */
  predicate NoCut(f: String) {
    forall p :: 0 <= p < |f| ==> !CutAt(f, p)
  }

  /** The first index at or after i where a separator match starts, or |s|. */
  function NextCut(s: String, i: nat): (p: nat)
    requires i <= |s|
    ensures i <= p <= |s|
    ensures p == |s| || CutAt(s, p)
    ensures forall k :: i <= k < p ==> !CutAt(s, k)
    decreases |s| - i
  {
    if i == |s| || CutAt(s, i) then i else NextCut(s, i + 1)
  }

  /** Kotlin's `split` from index i on: the text up to the next match is a
      fragment, the match itself (the whole whitespace run) is dropped, and
      the search resumes after it. With no further match the rest of the
      text is the last fragment, so the result is never empty. */
  function SplitFrom(s: String, i: nat): (r: seq<String>)
    requires i <= |s|
    ensures |r| >= 1
    decreases |s| - i
  {
    var p := NextCut(s, i);
    if p == |s| then [s[i..]]
    else [s[i..p]] + SplitFrom(s, SkipSpace(s, p, |s|))
  }

  /** `split(Regex("(?<=[.!?])\\s+"))`. */
  function Split(s: String): seq<String> {
    SplitFrom(s, 0)
  }

  /** `filter { it.isNotEmpty() }`: the non-empty fragments, in order. */
  function NonEmptyOnly(xs: seq<String>): (r: seq<String>)
    ensures forall k :: 0 <= k < |r| ==> r[k] != []
    ensures forall x :: x in r <==> x in xs && x != []
    ensures (forall k :: 0 <= k < |xs| ==> xs[k] != []) ==> r == xs
  {
    if xs == [] then []
    else
      var rest := NonEmptyOnly(xs[1..]);
      assert forall x :: x in xs <==> x == xs[0] || x in xs[1..];
      if xs[0] == [] then rest else [xs[0]] + rest
  }

  /** The filter keeps every non-empty fragment as often as it occurs and
      drops every empty one. */
  lemma {:induction false} NonEmptyOnlyCounts(xs: seq<String>)
    ensures multiset(NonEmptyOnly(xs)) == multiset(xs)[[] := 0]
    decreases |xs|
  {
    if xs != [] {
      NonEmptyOnlyCounts(xs[1..]);
      assert xs == [xs[0]] + xs[1..];
      assert multiset(xs) == multiset{xs[0]} + multiset(xs[1..]);
    }
  }

  /** The filter works fragment by fragment: filtering a concatenation
      concatenates the filtered parts, so the kept fragments stay in their
      order. */
  lemma {:induction false} NonEmptyOnlyAppend(a: seq<String>, b: seq<String>)
    ensures NonEmptyOnly(a + b) == NonEmptyOnly(a) + NonEmptyOnly(b)
    decreases |a|
  {
    if a == [] {
      assert a + b == b;
    } else {
      assert (a + b)[0] == a[0] && (a + b)[1..] == a[1..] + b;
      NonEmptyOnlyAppend(a[1..], b);
    }
  }

  /** The sentence list of a cleaned description: the non-empty fragments
      of its split. No sentence is empty or has a place inside it where
      whitespace follows a terminator, and every sentence is one of the
      fragments. */
  function Sentences(c: String): (r: seq<String>)
    ensures forall k :: 0 <= k < |r| ==> r[k] != [] && NoCut(r[k]) && r[k] in Split(c)
  {
    SplitCuts(c, 0);
    NonEmptyOnly(Split(c))
  }

  /** The text from i up to the next match has no match inside it. */
  lemma FragmentNoCut(s: String, i: nat)
    requires i <= |s|
    ensures NoCut(s[i..NextCut(s, i)])
  {
    var p := NextCut(s, i);
    var f := s[i..p];
    forall q | 0 <= q < |f| ensures !CutAt(f, q) {
      if 0 < q {
        assert f[q] == s[i + q] && f[q - 1] == s[i + q - 1];
        assert !CutAt(s, i + q);
      }
    }
  }

  /** Where the split cuts, for any text: no fragment contains a place where
      whitespace follows a terminator (so a terminator not followed by
      whitespace, as in "?!" or "3.5", never cuts), and every fragment but the
      last is non-empty and ends with the terminator that caused the cut. */
  lemma {:induction false} SplitCuts(s: String, i: nat)
    requires i <= |s|
    requires i == 0 || IsSpace(s[i - 1])
    ensures forall k :: 0 <= k < |SplitFrom(s, i)| ==> NoCut(SplitFrom(s, i)[k])
    ensures forall k :: 0 <= k < |SplitFrom(s, i)| - 1 ==>
              SplitFrom(s, i)[k] != [] && IsTerminator(SplitFrom(s, i)[k][|SplitFrom(s, i)[k]| - 1])
    decreases |s| - i
  {
    var p := NextCut(s, i);
    var f := s[i..p];
    FragmentNoCut(s, i);
    if p < |s| {
      var j := SkipSpace(s, p, |s|);
      assert IsSpace(s[j - 1]);
      SplitCuts(s, j);
      assert p != i;
      assert f[|f| - 1] == s[p - 1];
      var r, rest := SplitFrom(s, i), SplitFrom(s, j);
      assert r == [f] + rest;
      forall k | 0 <= k < |r|
        ensures NoCut(r[k])
        ensures k < |r| - 1 ==> r[k] != [] && IsTerminator(r[k][|r[k]| - 1])
      {
        if k > 0 {
          assert r[k] == rest[k - 1];
        }
      }
    } else {
      assert s[i..] == f;
    }
  }

  /** In cleaned text a match is one plain space followed by a word. */
  lemma CutInNormal(c: String, p: nat)
    requires Normal(c) && CutAt(c, p)
    ensures c[p] == ' ' && p + 1 < |c| && !IsSpace(c[p + 1])
    ensures SkipSpace(c, p, |c|) == p + 1
  {
    assert NoDoubleSpace(c);
    assert IsSpace(c[p]);
  }

  /** On cleaned (normal) text that starts, at index i, on a non-whitespace
      character, every fragment is non-empty and joining the fragments with
      single spaces gives back exactly the text from i on. */
  lemma {:induction false} SplitNormal(c: String, i: nat)
    requires Normal(c) && i < |c| && !IsSpace(c[i])
    ensures forall k :: 0 <= k < |SplitFrom(c, i)| ==> SplitFrom(c, i)[k] != []
    ensures JoinWith(SplitFrom(c, i), " ") == c[i..]
    decreases |c| - i
  {
    var p := NextCut(c, i);
    if p < |c| {
      CutInNormal(c, p);
      SplitNormal(c, p + 1);
      var r, rest := SplitFrom(c, i), SplitFrom(c, p + 1);
      assert r == [c[i..p]] + rest;
      assert forall k :: 0 < k < |r| ==> r[k] == rest[k - 1];
      JoinWithCons(c[i..p], rest, " ");
      SliceAround(c, i, p);
    }
  }

  /** The sentences of a cleaned description: none for the empty text;
      otherwise the fragments of the split, none of them empty (the filter
      removes nothing), which joined by single spaces give back the text. */
  lemma SentencesOfClean(c: String)
    requires Normal(c)
    ensures c == [] ==> Sentences(c) == []
    ensures c != [] ==> Sentences(c) == Split(c)
    ensures c != [] ==> JoinWith(Sentences(c), " ") == c
    ensures forall k :: 0 <= k < |Sentences(c)| ==> Sentences(c)[k] != [] && NoCut(Sentences(c)[k])
  {
    if c == [] {
      assert Split(c) == [[]];
    } else {
      SplitNormal(c, 0);
      assert c[0..] == c;
    }
    SplitCuts(c, 0);
  }

  /** A cleaned description in which whitespace never follows a terminator
      is a single sentence. */
  lemma SingleSentence(c: String)
    requires Normal(c) && c != []
    requires NoCut(c)
    ensures Sentences(c) == [c]
  {
    assert NextCut(c, 0) == |c|;
    assert c[0..] == c;
  }
}
