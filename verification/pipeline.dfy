/** The "Generate Report" action end to end: the report is built from the
    table rows, then written out as a document over the slides the loop left
    behind. */
module Pipeline {
  import opened Results
  import opened Text
  import opened Records
  import opened Prompt
  import opened ReportMap
  import opened SectionBuilder
  import opened DocumentAssembler

  /** Build the report, then the document. Any exception in the loop aborts
      the action before a document is written. */
  function GenerateReport(w: Wording, rows: seq<Row>, store: seq<Slide>, ctx: string, gen: string -> Option<string>): (r: Result<seq<Element>>)
    ensures r.Success? <==> Run(w, rows, store, ctx, gen).Success?
    ensures r.Failure? ==> r.error == Run(w, rows, store, ctx, gen).error
  {
    var built :- BuildReport(w, rows, store, ctx, gen);
    Success(Assemble(built.report, built.store))
  }

  // ---------------------------------------------------------------------
  // Headings from table cells
  // ---------------------------------------------------------------------

  /** Removing every occurrence of a prefix from the prefixed string is
      removing it from the rest. */
  lemma RemovePrefix(pat: string, h: string)
    requires pat != []
    ensures RemoveAll(pat + h, pat) == RemoveAll(h, pat)
  {
    var s := pat + h;
    assert s[..|pat|] == pat;
    assert s[|pat|..] == h;
  }

  /** A row with a Heading 1 cell gives a level-1 heading reading as that
      cell stripped, as long as the cell does not itself contain the
      "Heading 1: " marker. */
  lemma TopHeading(row: Row)
    requires row.heading1 != "" && !Occurs(Heading1Prefix, row.heading1)
    ensures IsTop(SectionKey(row)) && Level(SectionKey(row)) == 1
    ensures HeadingText(SectionKey(row)) == Strip(row.heading1)
  {
    var key := SectionKey(row);
    assert key == Heading1Prefix + row.heading1;
    RemovePrefix(Heading1Prefix, row.heading1);
    RemoveAllAbsent(row.heading1, Heading1Prefix);
  }

  /** A row without a Heading 1 cell gives a level-2 heading reading as its
      Heading 2 cell stripped, as long as that cell does not itself contain
      the "Heading 2: " marker. */
  lemma SubHeading(row: Row)
    requires row.heading1 == "" && !Occurs(Heading2Prefix, row.heading2)
    ensures !IsTop(SectionKey(row)) && Level(SectionKey(row)) == 2
    ensures HeadingText(SectionKey(row)) == Strip(row.heading2)
  {
    var key := SectionKey(row);
    assert key == Heading2Prefix + row.heading2;
    RemovePrefix(Heading2Prefix, row.heading2);
    RemoveAllAbsent(row.heading2, Heading2Prefix);
  }

  // ---------------------------------------------------------------------
  // Paragraphs come from the descriptions
  // ---------------------------------------------------------------------

  /** A slide that is a member of some entry has a last entry it is a
      member of. */
  lemma {:induction false} LastCoverExists(trace: seq<Entry>, p: nat, k: nat) returns (j: nat)
    requires k < |trace| && p in trace[k].members
    ensures LastCover(trace, p, j) && k <= j
    decreases |trace| - k
  {
    if LastCover(trace, p, k) {
      j := k;
    } else {
      var k' :| k < k' < |trace| && p in trace[k'].members;
      j := LastCoverExists(trace, p, k');
    }
  }

  /** Every position in the report order is a member of some entry. */
  lemma {:induction false} ReportOrderMember(report: seq<Entry>, i: nat)
    requires i < |ReportOrder(report)|
    ensures exists m :: 0 <= m < |report| && ReportOrder(report)[i] in report[m].members
  {
    var ms := report[0].members;
    if i < |ms| {
      assert ReportOrder(report)[i] == ms[i];
    } else {
      ReportOrderMember(report[1..], i - |ms|);
      var m :| 0 <= m < |report[1..]| && ReportOrder(report[1..])[i - |ms|] in report[1..][m].members;
      assert report[1..][m] == report[m + 1];
    }
  }

  /** Slide `p` of `final` holds the text of the last entry it belongs to. */
  ghost predicate HoldsLastText(trace: seq<Entry>, final: seq<Slide>, p: nat) {
    p < |final| && exists j: nat :: LastCover(trace, p, j) && final[p].text == trace[j].text
  }

  /** `para` is the cleaned text of the last entry slide `p` belongs to. */
  ghost predicate CleanedLastText(trace: seq<Entry>, p: nat, para: string) {
    exists j: nat :: LastCover(trace, p, j) && para == Collapse(Sanitize(trace[j].text))
  }

  /** Over any loop outcome in which each slide holds the text of the last
      entry it belongs to, every member slide of a report made of the trace's
      entries holds the text of the last entry it belongs to. */
  lemma MemberTexts(trace: seq<Entry>, report: seq<Entry>, store: seq<Slide>, final: seq<Slide>)
    requires |final| == |store|
    requires MembersWithin(report, |final|)
    requires forall m :: 0 <= m < |report| ==> exists k :: 0 <= k < |trace| && report[m] == trace[k]
    requires forall p, j :: 0 <= p < |store| && 0 <= j && LastCover(trace, p, j) ==>
      final[p] == store[p].(text := trace[j].text)
    ensures forall i :: 0 <= i < |ReportOrder(report)| ==> HoldsLastText(trace, final, ReportOrder(report)[i])
  {
    var order := ReportOrder(report);
    forall i | 0 <= i < |order|
      ensures HoldsLastText(trace, final, order[i])
    {
      var p := order[i];
      ReportOrderMember(report, i);
      var m :| 0 <= m < |report| && p in report[m].members;
      var k :| 0 <= k < |trace| && report[m] == trace[k];
      var j := LastCoverExists(trace, p, k);
      assert final[p] == store[p].(text := trace[j].text);
    }
  }

  /** A paragraph rendered from a slide holding the text of its last entry
      is that text, cleaned. */
  lemma ParagraphOfText(trace: seq<Entry>, final: seq<Slide>, p: nat, para: string)
    requires HoldsLastText(trace, final, p) && para == ParaText(final[p])
    ensures CleanedLastText(trace, p, para)
  {
    var j: nat :| LastCover(trace, p, j) && final[p].text == trace[j].text;
    assert para == Collapse(Sanitize(trace[j].text));
  }

  /** Over any loop outcome in which each slide holds the text of the last
      entry it belongs to, every body paragraph of the document is the
      cleaned text of the last entry its slide belongs to. */
  lemma ParagraphsFromTrace(trace: seq<Entry>, store: seq<Slide>, final: seq<Slide>, doc: seq<Element>)
    requires |final| == |store|
    requires MembersWithin(Collect(trace), |final|)
    requires forall p, j :: 0 <= p < |store| && 0 <= j && LastCover(trace, p, j) ==>
      final[p] == store[p].(text := trace[j].text)
    requires doc == Assemble(Collect(trace), final)
    ensures |Paras(doc)| == |ReportOrder(Collect(trace))|
    ensures forall i :: 0 <= i < |ReportOrder(Collect(trace))| ==>
      CleanedLastText(trace, ReportOrder(Collect(trace))[i], Paras(doc)[i])
  {
    var order := ReportOrder(Collect(trace));
    AssembleParagraphs(Collect(trace), final);
    CollectedFromTrace(trace);
    MemberTexts(trace, Collect(trace), store, final);
    forall i | 0 <= i < |order|
      ensures CleanedLastText(trace, order[i], Paras(doc)[i])
    {
      ParagraphOfText(trace, final, order[i], Paras(doc)[i]);
    }
  }

  /** In the generated document each body paragraph is the cleaned
      description of the last section its slide was placed in, whichever
      section the paragraph is printed under. */
  lemma GeneratedParagraphs(w: Wording, rows: seq<Row>, store: seq<Slide>, ctx: string, gen: string -> Option<string>,
                            pass: Pass, doc: seq<Element>)
    requires Run(w, rows, store, ctx, gen) == Success(pass)
    requires GenerateReport(w, rows, store, ctx, gen) == Success(doc)
    ensures |Paras(doc)| == |ReportOrder(Collect(pass.trace))|
    ensures forall i :: 0 <= i < |ReportOrder(Collect(pass.trace))| ==>
      CleanedLastText(pass.trace, ReportOrder(Collect(pass.trace))[i], Paras(doc)[i])
  {
    var built := BuildReport(w, rows, store, ctx, gen).value;
    assert built == Built(Collect(pass.trace), pass.store);
    RunLastWriteWins(w, rows, store, ctx, gen);
    ParagraphsFromTrace(pass.trace, store, pass.store, doc);
  }
}
