/** Concrete cells of the "Slides" column, as a reader of the script would
    try them by hand. */
module ParserScenarios {
  import opened Results
  import opened Text
  import opened RangeParser

  /** "7" names slide 7 only. */
  lemma SingleNumberCell()
    ensures ParseSlideRanges("7") == Success([7])
  {
    assert Show(7) == "7";
    ParseShownNumber(7);
  }

  /** "1\x1c-3" raises: the file separator after "1" survives `strip()` and
      `int()` rejects it. */
  lemma SeparatorRangeCell()
    ensures ParseSlideRanges("1\U{1C}-3") == Failure(MalformedRange("1\U{1C}-3"))
  {
    assert "1\U{1C}-3" == "1" + ['\U{1C}'] + "-" + "3";
    SeparatorCell("1", '\U{1C}', "3");
  }
}

/** Concrete cases of slide selection, section keys and navigation. */
module Scenarios {
  import opened Results
  import opened Records
  import opened SectionBuilder
  import opened Text
  import opened Navigation
  import opened DocumentAssembler

  /** Slide number 0 selects the last slide and a number past the end
      selects nothing, as `slides[i - 1]` does. */
  lemma SlideZeroIsLast()
    ensures Position(0, 5) == Some(4)
    ensures Position(5, 5) == Some(4)
    ensures Position(6, 5) == None
    ensures Position(1, 0) == None
  {
  }

  /** A Heading 1 cell wins over a Heading 2 cell. */
  lemma KeyPrefersHeading1()
    ensures SectionKey(Row("Intro", "Ignored", Some("1"))) == "Heading 1: Intro"
    ensures SectionKey(Row("", "Setup", Some("2"))) == "Heading 2: Setup"
  {
  }

  /** Three presses of "Next Slide" over two slides stop on the second. */
  lemma NextStopsAtLast()
    ensures Navigate(0, [Forward, Forward, Forward], 2) == 1
    ensures Navigate(1, [Back, Back], 2) == 0
  {
  }

  /** Every occurrence of the prefix is removed from a heading, not only the
      leading one. */
  lemma HeadingDropsInnerPrefix()
    ensures HeadingText("Heading 1: A Heading 1: B") == "A B"
  {
    var key := Heading1Prefix + ("A" + (" " + (Heading1Prefix + "B")));
    KeyShape();
    InnerPrefixRemoved();
    assert HeadingText(key) == Strip("A B");
    StripNoEnds("A B");
  }

  lemma KeyShape()
    ensures "Heading 1: A Heading 1: B" == Heading1Prefix + ("A" + (" " + (Heading1Prefix + "B")))
    ensures IsTop(Heading1Prefix + ("A" + (" " + (Heading1Prefix + "B"))))
  {
  }

  lemma InnerPrefixRemoved()
    ensures RemoveAll(Heading1Prefix + ("A" + (" " + (Heading1Prefix + "B"))), Heading1Prefix) == "A B"
  {
    var pre := Heading1Prefix;
    RemoveAllLeading(pre, "A" + (" " + (pre + "B")));
    RemoveAllKeeps('A', " " + (pre + "B"), pre);
    RemoveAllKeeps(' ', pre + "B", pre);
    RemoveAllLeading(pre, "B");
    RemoveAllKeeps('B', "", pre);
    assert RemoveAll("", pre) == "";
  }
}
