/** Worked examples of the split and the grouping on concrete text. */
module Examples {
  import opened Cleaning
  import opened SentenceSplit
  import opened ParagraphFormatter

  /** "?!" and "3.5" do not cut: only the space after "?!" separates the
      two sentences. */
  lemma SplitKeepsDecimalsAndRuns()
    ensures Split("Pi 3.5?! Ok.") == ["Pi 3.5?!", "Ok."]
  {
    var s := "Pi 3.5?! Ok.";
    assert !CutAt(s, 0) && !CutAt(s, 1) && !CutAt(s, 2) && !CutAt(s, 3)
        && !CutAt(s, 4) && !CutAt(s, 5) && !CutAt(s, 6) && !CutAt(s, 7);
    assert CutAt(s, 8);
    assert NextCut(s, 0) == 8;
    assert SkipSpace(s, 8, 12) == 9;
    assert !CutAt(s, 9) && !CutAt(s, 10) && !CutAt(s, 11);
    assert NextCut(s, 9) == 12;
    assert SplitFrom(s, 0) == [s[..8]] + SplitFrom(s, 9);
    assert s[..8] == "Pi 3.5?!" && s[9..] == "Ok.";
  }

  /** Five sentences give a paragraph of three and a paragraph of two. */
  lemma FiveSentencesTwoParagraphs()
    ensures Paragraphs(["A.", "B!", "C?", "D.", "E."]) == ["A. B! C?", "D. E."]
  {
    var xs := ["A.", "B!", "C?", "D.", "E."];
    var a, b := ["A.", "B!", "C?"], ["D.", "E."];
    assert xs[..3] == a && xs[3..] == b;
    assert Chunks(xs) == [a, b];
    assert JoinWith(a, " ") == "A." + " " + ("B!" + " " + "C?");
    assert JoinWith(b, " ") == "D." + " " + "E.";
    assert JoinEach([a, b]) == [JoinWith(a, " "), JoinWith(b, " ")];
    assert "A." + " " + ("B!" + " " + "C?") == "A. B! C?";
    assert "D." + " " + "E." == "D. E.";
  }
}
