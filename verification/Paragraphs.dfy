/** The description formatter `formatIntoReadableParagraphs`: clean the
    text, split it into sentences, and group the sentences three at a time
    into paragraphs, each joined with single spaces. When no paragraph was
    built but the cleaned text is not empty, the cleaned text is returned on
    its own; that fallback is proved never to fire. */
module ParagraphFormatter {
  import opened Sequences
  import opened Cleaning
  import opened SentenceSplit

  /** `paragraphSize`: the number of sentences in a full paragraph. */
  const ParagraphSize: nat := 3

  /** Kotlin's `minOf`. */
  function Min(a: int, b: int): int {
    if a <= b then a else b
  }

  // ---------------------------------------------------------------------
  // Specification of the grouping
  // ---------------------------------------------------------------------

  /** The sentence list cut into consecutive groups of ParagraphSize; the
      last group holds what is left (ChunksShape). */
  function Chunks(xs: seq<String>): seq<seq<String>>
    decreases |xs|
  {
    if |xs| <= ParagraphSize then (if xs == [] then [] else [xs])
    else [xs[..ParagraphSize]] + Chunks(xs[ParagraphSize..])
  }

  /** n sentences form ceil(n / ParagraphSize) groups; every group holds
      between one and ParagraphSize sentences, and every group but the last
      exactly ParagraphSize. */
  lemma {:induction false} ChunksShape(xs: seq<String>)
    ensures |Chunks(xs)| == (|xs| + ParagraphSize - 1) / ParagraphSize
    ensures forall k :: 0 <= k < |Chunks(xs)| ==> 1 <= |Chunks(xs)[k]| <= ParagraphSize
    ensures forall k :: 0 <= k < |Chunks(xs)| - 1 ==> |Chunks(xs)[k]| == ParagraphSize
    decreases |xs|
  {
    if |xs| > ParagraphSize {
      var rest := xs[ParagraphSize..];
      ChunksShape(rest);
      var cs := Chunks(xs);
      assert cs == [xs[..ParagraphSize]] + Chunks(rest);
      assert forall k :: 0 < k < |cs| ==> cs[k] == Chunks(rest)[k - 1];
    }
  }

  /** The groups laid end to end. */
  function Flatten(css: seq<seq<String>>): seq<String> {
    if css == [] then [] else css[0] + Flatten(css[1..])
  }

  /** Each group joined with single spaces. */
  function JoinEach(cs: seq<seq<String>>): seq<String> {
    seq(|cs|, k requires 0 <= k < |cs| => JoinWith(cs[k], " "))
  }

  /** The paragraphs built from a sentence list. */
  function Paragraphs(sentences: seq<String>): seq<String> {
    JoinEach(Chunks(sentences))
  }

  /** What the formatter returns for a description. */
  function Formatted(description: String): seq<String> {
    Paragraphs(Sentences(Clean(description)))
  }

  // ---------------------------------------------------------------------
  // The formatter
  // ---------------------------------------------------------------------

  /** The grouping loop of `formatIntoReadableParagraphs`: it walks the
      sentence indices in steps of ParagraphSize and appends to `paragraphs`
      the sentences from i up to min(i + ParagraphSize, n) joined with
      single spaces. */
  method GroupIntoParagraphs(sentences: seq<String>) returns (paragraphs: seq<String>)
    ensures paragraphs == Paragraphs(sentences)
  {
    paragraphs := [];
    var i := 0;
    while i < |sentences|
      invariant i % ParagraphSize == 0
      invariant i < |sentences| + ParagraphSize
      invariant paragraphs == Paragraphs(sentences[..Min(i, |sentences|)])
    {
      var endIdx := Min(i + ParagraphSize, |sentences|);
      var paragraph := JoinWith(sentences[i..endIdx], " ");
      ParagraphsStep(sentences, i, endIdx);
      paragraphs := paragraphs + [paragraph];
      i := i + ParagraphSize;
    }
    assert sentences[..|sentences|] == sentences;
  }

  /** `formatIntoReadableParagraphs`: clean, split, group, and fall back to
      the cleaned text on its own when no paragraph was built but the
      cleaned text is not empty. */
  method FormatIntoReadableParagraphs(description: String) returns (paragraphs: seq<String>)
    ensures paragraphs == Formatted(description)
    ensures paragraphs == [] <==> AllSpace(description)
    ensures JoinWith(paragraphs, " ") == Clean(description)
  {
    var cleanDescription := Clean(description);
    var sentences := Sentences(cleanDescription);
    paragraphs := GroupIntoParagraphs(sentences);
    SentencesOfClean(cleanDescription);
    if paragraphs == [] && cleanDescription != [] {
      paragraphs := paragraphs + [cleanDescription];
    }
    ParagraphsJoin(sentences);
  }

  // ---------------------------------------------------------------------
  // Lemmas about the grouping
  // ---------------------------------------------------------------------

  /** Grouping a list whose length is a multiple of ParagraphSize, followed
      by more sentences, groups the two parts separately. */
  lemma {:induction false} ChunksAppend(a: seq<String>, b: seq<String>)
    requires |a| % ParagraphSize == 0
    ensures Chunks(a + b) == Chunks(a) + Chunks(b)
    decreases |a|
  {
    if a == [] {
      assert a + b == b;
    } else if b == [] && |a| == ParagraphSize {
      assert a + b == a;
    } else {
      assert (a + b)[..ParagraphSize] == a[..ParagraphSize];
      assert (a + b)[ParagraphSize..] == a[ParagraphSize..] + b;
      ChunksAppend(a[ParagraphSize..], b);
      if |a| == ParagraphSize {
        assert a[..ParagraphSize] == a && a[ParagraphSize..] == [];
        assert Chunks(a) == [a];
      }
    }
  }

  /** One loop step: the paragraphs of the first `e` sentences are those of
      the first `i` followed by sentences i to e joined. */
  lemma ParagraphsStep(xs: seq<String>, i: nat, e: nat)
    requires i % ParagraphSize == 0 && i < e <= i + ParagraphSize && e <= |xs|
    ensures Paragraphs(xs[..e]) == Paragraphs(xs[..i]) + [JoinWith(xs[i..e], " ")]
  {
    assert xs[..e] == xs[..i] + xs[i..e];
    ChunksAppend(xs[..i], xs[i..e]);
    assert Chunks(xs[i..e]) == [xs[i..e]];
    var ca, cb := Chunks(xs[..i]), Chunks(xs[i..e]);
    assert JoinEach(ca + cb) == JoinEach(ca) + JoinEach(cb);
  }

  /** Paragraph k is exactly sentences ParagraphSize*k up to
      ParagraphSize*(k+1) (or to the end), in order. */
  lemma {:induction false} ChunkAt(xs: seq<String>, k: nat)
    requires k < |Chunks(xs)|
    ensures ParagraphSize * k < |xs|
    ensures Chunks(xs)[k] == xs[ParagraphSize * k..Min(ParagraphSize * k + ParagraphSize, |xs|)]
    decreases k
  {
    if k > 0 {
      var rest := xs[ParagraphSize..];
      assert Chunks(xs)[k] == Chunks(rest)[k - 1];
      ChunkAt(rest, k - 1);
      var lo := ParagraphSize * (k - 1);
      var hi := Min(lo + ParagraphSize, |rest|);
      assert ParagraphSize * k == lo + ParagraphSize;
      SliceOfDrop(xs, ParagraphSize, lo, hi);
    }
  }


  /** Laid end to end, the groups are the sentence list itself: nothing is
      dropped, duplicated or reordered. */
  lemma {:induction false} ChunksFlatten(xs: seq<String>)
    ensures Flatten(Chunks(xs)) == xs
    decreases |xs|
  {
    if |xs| <= ParagraphSize {
      if xs != [] {
        assert Flatten([xs]) == xs + Flatten([]);
      }
    } else {
      ChunksFlatten(xs[ParagraphSize..]);
      var cs := Chunks(xs);
      assert cs[1..] == Chunks(xs[ParagraphSize..]);
      assert xs == xs[..ParagraphSize] + xs[ParagraphSize..];
    }
  }

  /** Joining two non-empty lists with a separator joins the two joins. */
  lemma {:induction false} JoinWithAppend(a: seq<String>, b: seq<String>, sep: String)
    requires a != [] && b != []
    ensures JoinWith(a + b, sep) == JoinWith(a, sep) + sep + JoinWith(b, sep)
    decreases |a|
  {
    if |a| == 1 {
      JoinWithCons(a[0], b, sep);
      assert a + b == [a[0]] + b;
    } else {
      JoinWithAppend(a[1..], b, sep);
      assert a + b == [a[0]] + (a[1..] + b);
      JoinWithCons(a[0], a[1..] + b, sep);
      JoinWithCons(a[0], a[1..], sep);
      assert a == [a[0]] + a[1..];
    }
  }

  /** Joining each group of a list that starts with group c. */
  lemma JoinEachCons(c: seq<String>, cs: seq<seq<String>>)
    ensures JoinEach([c] + cs) == [JoinWith(c, " ")] + JoinEach(cs)
  {
  }

  /** Joining the paragraphs with a space gives the sentences joined with a
      space: the grouping neither loses nor adds text. */
  lemma {:induction false} ParagraphsJoin(xs: seq<String>)
    ensures JoinWith(Paragraphs(xs), " ") == JoinWith(xs, " ")
    decreases |xs|
  {
    if |xs| > ParagraphSize {
      var head, tail := xs[..ParagraphSize], xs[ParagraphSize..];
      ParagraphsJoin(tail);
      assert Chunks(xs) == [head] + Chunks(tail);
      JoinEachCons(head, Chunks(tail));
      JoinWithCons(JoinWith(head, " "), Paragraphs(tail), " ");
      TakeDrop(xs, ParagraphSize);
      JoinWithAppend(head, tail, " ");
    } else if xs != [] {
      assert Paragraphs(xs) == [JoinWith(xs, " ")];
    }
  }

  // ---------------------------------------------------------------------
  // Lemmas about the formatter
  // ---------------------------------------------------------------------

  /** The fallback `paragraphs.add(cleanDescription)` never fires: a
      non-empty cleaned text always yields at least one sentence and so at
      least one paragraph. Had it fired for a single sentence, it would have
      returned what the loop returns. */
  lemma FallbackNeverFires(description: String)
    ensures Clean(description) != [] ==> Formatted(description) != []
    ensures |Sentences(Clean(description))| == 1 ==> Formatted(description) == [Clean(description)]
  {
    var c := Clean(description);
    SentencesOfClean(c);
    if |Sentences(c)| == 1 {
      var xs := Sentences(c);
      assert Chunks(xs) == [xs];
      assert JoinWith(xs, " ") == xs[0];
    }
  }

  /** Empty or all-whitespace input gives no paragraph; anything else gives
      ceil(n / 3) paragraphs for its n sentences, and n is at least one. */
  lemma FormattedCount(description: String)
    ensures AllSpace(description) ==> Formatted(description) == []
    ensures !AllSpace(description) ==> |Sentences(Clean(description))| >= 1
    ensures |Formatted(description)| == (|Sentences(Clean(description))| + ParagraphSize - 1) / ParagraphSize
  {
    SentencesOfClean(Clean(description));
    ChunksShape(Sentences(Clean(description)));
  }

  /** Paragraph k joins sentences 3k, 3k+1 and 3k+2 (fewer only for the last
      paragraph) with single spaces. */
  lemma FormattedParagraph(description: String, k: nat)
    requires k < |Formatted(description)|
    ensures ParagraphSize * k < |Sentences(Clean(description))|
    ensures var xs := Sentences(Clean(description));
            Formatted(description)[k]
              == JoinWith(xs[ParagraphSize * k..Min(ParagraphSize * k + ParagraphSize, |xs|)], " ")
    ensures var xs := Sentences(Clean(description));
            k < |Formatted(description)| - 1 ==> ParagraphSize * k + ParagraphSize <= |xs|
  {
    ChunkAt(Sentences(Clean(description)), k);
    ChunksShape(Sentences(Clean(description)));
  }

  /** No text is lost: the paragraphs joined with a space give back the
      cleaned text (both are empty for an all-whitespace description). */
  lemma FormattedRoundTrip(description: String)
    ensures JoinWith(Formatted(description), " ") == Clean(description)
  {
    var c := Clean(description);
    SentencesOfClean(c);
    ParagraphsJoin(Sentences(c));
  }

  /** Descriptions with the same words, however much whitespace separates
      or surrounds them, are formatted alike. */
  lemma SameWordsSameParagraphs(a: String, b: String)
    requires Words(a) == Words(b)
    ensures Formatted(a) == Formatted(b)
  {
  }
}
