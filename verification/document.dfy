/** `create_word_report` and `add_caption`: the report becomes a flat list of
    document elements. Each section contributes an optional page break and a
    heading, then each member slide contributes a paragraph and, if it has a
    screenshot, a picture, a numbered caption and a spacer. */
module DocumentAssembler {
  import opened Text
  import opened Records

  /** One element appended to the Word document. `Picture(p)` is the
      screenshot of slide `p`; `Caption(n, title)` is the caption paragraph
      whose visible text is `CaptionText(n, title)`; `Spacer` is the paragraph
      holding two line breaks. */
  datatype Element =
    | PageBreak
    | Heading(level: nat, text: string)
    | Para(text: string)
    | Picture(slide: nat)
    | Caption(number: nat, title: string)
    | Spacer

  /** A key of a top-level section. */
  predicate IsTop(key: string) {
    StartsWith(key, Heading1Prefix)
  }

  /** The heading level a key is rendered at. */
  function Level(key: string): nat {
    if IsTop(key) then 1 else 2
  }

  /** The heading text of a key: every occurrence of the key's prefix removed,
      then surrounding whitespace stripped. */
  function HeadingText(key: string): string {
    Strip(RemoveAll(key, if IsTop(key) then Heading1Prefix else Heading2Prefix))
  }

  /** The paragraph of a slide: its text sanitised, then its whitespace runs
      collapsed to single spaces. */
  function ParaText(s: Slide): string {
    Collapse(Sanitize(s.text))
  }

  /** The caption title of a slide: sanitised and stripped by the caller, and
      sanitised again inside `add_caption`. */
  function CaptionTitle(title: string): string {
    Sanitize(Strip(Sanitize(title)))
  }

  /** The visible text of a caption run. */
  function CaptionText(n: nat, title: string): string {
    " Figure " + Show(n) + ": " + title
  }

  // ---------------------------------------------------------------------
  // The assembly
  // ---------------------------------------------------------------------

  /** What one slide contributes to the document once its strings are
      cleaned: the paragraph text, the caption title, and whether its
      screenshot file exists. */
  datatype Shown = Shown(para: string, title: string, hasImage: bool)

  /** The cleaned form of one slide. */
  function Render(s: Slide): Shown {
    Shown(ParaText(s), CaptionTitle(s.title), s.hasImage)
  }

  /** The cleaned form of every slide, position by position. */
  function RenderAll(store: seq<Slide>): (shown: seq<Shown>)
    ensures |shown| == |store|
  {
    seq(|store|, p requires 0 <= p < |store| => Render(store[p]))
  }

  /** The elements of member slide `p`, its figure numbered `next` if it has a
      screenshot. */
  function SlideBlock(shown: seq<Shown>, p: nat, next: nat): seq<Element>
    requires p < |shown|
  {
    var s := shown[p];
    if s.hasImage then [Para(s.para), Picture(p), Caption(next, s.title), Spacer]
    else [Para(s.para)]
  }

  /** One more figure number is used iff the slide at `p` has a screenshot. */
  function Bump(shown: seq<Shown>, p: nat, next: nat): nat
    requires p < |shown|
  {
    if shown[p].hasImage then next + 1 else next
  }

  /** The elements of a section's member slides, figures numbered from `next`. */
  function MemberBlocks(shown: seq<Shown>, ms: seq<nat>, next: nat): seq<Element>
    requires Within(ms, |shown|)
  {
    if ms == [] then []
    else SlideBlock(shown, ms[0], next) + MemberBlocks(shown, ms[1..], Bump(shown, ms[0], next))
  }

  /** A report entry once its key is rendered: whether it is top-level, its
      heading text, and its member slides. */
  datatype Part = Part(top: bool, heading: string, members: seq<nat>)

  /** The rendered form of one entry. */
  function RenderEntry(e: Entry): Part {
    Part(IsTop(e.key), HeadingText(e.key), e.members)
  }

  /** The rendered form of every entry, in report order. */
  function RenderReport(report: seq<Entry>): (parts: seq<Part>)
    ensures |parts| == |report|
  {
    seq(|report|, i requires 0 <= i < |report| => RenderEntry(report[i]))
  }

  /** The page break, if any, and the heading that open a section. A
      top-level section gets a page break exactly when a top-level section was
      emitted before it. */
  function SectionHead(part: Part, seenTop: bool): seq<Element> {
    (if part.top && seenTop then [PageBreak] else []) + [Heading(if part.top then 1 else 2, part.heading)]
  }

  /** The elements of one section. */
  function SectionBlocks(part: Part, shown: seq<Shown>, next: nat, seenTop: bool): seq<Element>
    requires Within(part.members, |shown|)
  {
    SectionHead(part, seenTop) + MemberBlocks(shown, part.members, next)
  }

  /** The sections from `ps` on, the figure counter at `next`, `seenTop`
      recording whether a top-level section was already emitted. */
  function AssembleFrom(ps: seq<Part>, shown: seq<Shown>, next: nat, seenTop: bool): seq<Element>
    requires PartsWithin(ps, |shown|)
    decreases |ps|
  {
    if ps == [] then []
    else
      TailWithin(ps, |shown|);
      SectionBlocks(ps[0], shown, next, seenTop)
      + AssembleFrom(ps[1..], shown, next + |Illustrated(shown, ps[0].members)|, seenTop || ps[0].top)
  }

  /** The document of a report over the final slide list: figures numbered
      from 1, no top-level section emitted yet. */
  function Assemble(report: seq<Entry>, store: seq<Slide>): seq<Element>
    requires MembersWithin(report, |store|)
  {
    RenderedWithin(report, |store|);
    AssembleFrom(RenderReport(report), RenderAll(store), 1, false)
  }

  // ---------------------------------------------------------------------
  // Member positions
  // ---------------------------------------------------------------------

  predicate Within(ms: seq<nat>, n: nat) {
    forall k :: 0 <= k < |ms| ==> ms[k] < n
  }

  lemma WithinConcat(a: seq<nat>, b: seq<nat>, n: nat)
    requires Within(a, n) && Within(b, n)
    ensures Within(a + b, n)
  {
    assert forall k :: |a| <= k < |a + b| ==> (a + b)[k] == b[k - |a|];
  }

  lemma WithinTail(ms: seq<nat>, n: nat)
    requires ms != [] && Within(ms, n)
    ensures ms[0] < n && Within(ms[1..], n)
  {
    assert forall k :: 0 <= k < |ms| - 1 ==> ms[1..][k] == ms[k + 1];
  }

  /** Every member position of every part is below `n`. */
  predicate PartsWithin(ps: seq<Part>, n: nat) {
    forall i :: 0 <= i < |ps| ==> Within(ps[i].members, n)
  }

  lemma RenderedWithin(report: seq<Entry>, n: nat)
    requires MembersWithin(report, n)
    ensures PartsWithin(RenderReport(report), n)
  {
    forall i | 0 <= i < |report|
      ensures Within(RenderReport(report)[i].members, n)
    {
      assert RenderReport(report)[i].members == report[i].members;
    }
  }

  lemma TailWithin(ps: seq<Part>, n: nat)
    requires ps != [] && PartsWithin(ps, n)
    ensures PartsWithin(ps[1..], n)
    ensures Within(ps[0].members, n)
  {
    assert forall i :: 0 <= i < |ps| - 1 ==> ps[1..][i] == ps[i + 1];
  }

  /** The member positions of all sections, in report order. */
  function AllMembers(ps: seq<Part>): seq<nat> {
    if ps == [] then [] else ps[0].members + AllMembers(ps[1..])
  }

  lemma {:induction false} AllMembersWithin(ps: seq<Part>, n: nat)
    requires PartsWithin(ps, n)
    ensures Within(AllMembers(ps), n)
  {
    if ps != [] {
      TailWithin(ps, n);
      AllMembersWithin(ps[1..], n);
      WithinConcat(ps[0].members, AllMembers(ps[1..]), n);
    }
  }

  /** The member positions, in order, whose slide has a screenshot. */
  function Illustrated(shown: seq<Shown>, ms: seq<nat>): (ps: seq<nat>)
    requires Within(ms, |shown|)
    ensures Within(ps, |shown|) && |ps| <= |ms|
  {
    if ms == [] then []
    else (if shown[ms[0]].hasImage then [ms[0]] else []) + Illustrated(shown, ms[1..])
  }

  lemma {:induction false} IllustratedConcat(shown: seq<Shown>, a: seq<nat>, b: seq<nat>)
    requires Within(a, |shown|) && Within(b, |shown|)
    ensures Within(a + b, |shown|)
    ensures Illustrated(shown, a + b) == Illustrated(shown, a) + Illustrated(shown, b)
  {
    WithinConcat(a, b, |shown|);
    if a != [] {
      var h := if shown[a[0]].hasImage then [a[0]] else [];
      assert (a + b)[1..] == a[1..] + b;
      IllustratedConcat(shown, a[1..], b);
      assert Illustrated(shown, a + b) == h + (Illustrated(shown, a[1..]) + Illustrated(shown, b));
      assert Illustrated(shown, a) == h + Illustrated(shown, a[1..]);
    } else {
      assert a + b == b;
    }
  }

  // ---------------------------------------------------------------------
  // What the document shows, read back from the element list
  // ---------------------------------------------------------------------

  /** A caption as the reader sees it: its figure number and its title. */
  datatype Figure = Figure(number: nat, title: string)

  /** The slides whose screenshots appear, in document order. */
  function Pictures(doc: seq<Element>): seq<nat> {
    if doc == [] then []
    else (if doc[0].Picture? then [doc[0].slide] else []) + Pictures(doc[1..])
  }

  /** The captions, in document order. */
  function Captions(doc: seq<Element>): seq<Figure> {
    if doc == [] then []
    else (if doc[0].Caption? then [Figure(doc[0].number, doc[0].title)] else []) + Captions(doc[1..])
  }

  /** The body paragraphs, in document order (captions and spacers are not
      among them). */
  function Paras(doc: seq<Element>): seq<string> {
    if doc == [] then []
    else (if doc[0].Para? then [doc[0].text] else []) + Paras(doc[1..])
  }

  /** A heading as it appears in the outline: its level, its text, and whether
      a page break comes right before it. */
  datatype Mark = Mark(broken: bool, level: nat, text: string)

  /** The headings of a document, in order. */
  function Outline(doc: seq<Element>): seq<Mark>
    decreases |doc|
  {
    if doc == [] then []
    else if doc[0].PageBreak? && |doc| > 1 && doc[1].Heading? then
      [Mark(true, doc[1].level, doc[1].text)] + Outline(doc[2..])
    else if doc[0].Heading? then [Mark(false, doc[0].level, doc[0].text)] + Outline(doc[1..])
    else Outline(doc[1..])
  }

  /** Neither a page break nor a heading. */
  predicate Plain(doc: seq<Element>) {
    forall i :: 0 <= i < |doc| ==> !doc[i].PageBreak? && !doc[i].Heading?
  }

  /** Every page break is followed by a top-level heading. */
  predicate BreaksBeforeTop(doc: seq<Element>) {
    forall i :: 0 <= i < |doc| && doc[i].PageBreak? ==>
      i + 1 < |doc| && doc[i + 1].Heading? && doc[i + 1].level == 1
  }

  /** Every screenshot comes right after a paragraph and right before a
      caption and a spacer, in that order, and every caption and every spacer
      belongs to such a screenshot: the spacer two places after it, the
      caption one place after it. So captions and spacers are exactly as many
      as screenshots. */
  predicate FiguresFramed(doc: seq<Element>) {
    && (forall i :: 0 <= i < |doc| && doc[i].Picture? ==>
          0 < i && i + 2 < |doc| && doc[i - 1].Para? && doc[i + 1].Caption? && doc[i + 2].Spacer?)
    && (forall i :: 0 <= i < |doc| && doc[i].Caption? ==> 0 < i && doc[i - 1].Picture?)
    && (forall i :: 0 <= i < |doc| && doc[i].Spacer? ==> 1 < i && doc[i - 2].Picture?)
  }

  lemma {:induction false} PicturesConcat(a: seq<Element>, b: seq<Element>)
    ensures Pictures(a + b) == Pictures(a) + Pictures(b)
  {
    if a == [] {
      assert a + b == b;
    } else {
      var h := if a[0].Picture? then [a[0].slide] else [];
      assert (a + b)[0] == a[0] && (a + b)[1..] == a[1..] + b;
      assert Pictures(a + b) == h + Pictures(a[1..] + b);
      PicturesConcat(a[1..], b);
      assert h + (Pictures(a[1..]) + Pictures(b)) == (h + Pictures(a[1..])) + Pictures(b);
    }
  }

  lemma {:induction false} CaptionsConcat(a: seq<Element>, b: seq<Element>)
    ensures Captions(a + b) == Captions(a) + Captions(b)
  {
    if a == [] {
      assert a + b == b;
    } else {
      var h := if a[0].Caption? then [Figure(a[0].number, a[0].title)] else [];
      assert (a + b)[0] == a[0] && (a + b)[1..] == a[1..] + b;
      assert Captions(a + b) == h + Captions(a[1..] + b);
      CaptionsConcat(a[1..], b);
      assert h + (Captions(a[1..]) + Captions(b)) == (h + Captions(a[1..])) + Captions(b);
    }
  }

  lemma {:induction false} ParasConcat(a: seq<Element>, b: seq<Element>)
    ensures Paras(a + b) == Paras(a) + Paras(b)
  {
    if a == [] {
      assert a + b == b;
    } else {
      var h := if a[0].Para? then [a[0].text] else [];
      assert (a + b)[0] == a[0] && (a + b)[1..] == a[1..] + b;
      assert Paras(a + b) == h + Paras(a[1..] + b);
      ParasConcat(a[1..], b);
      assert h + (Paras(a[1..]) + Paras(b)) == (h + Paras(a[1..])) + Paras(b);
    }
  }

  /** Headings of a concatenation: the outline splits as long as `a` does not
      end in a page break whose heading would sit in `b`. */
  lemma {:induction false} OutlineConcat(a: seq<Element>, b: seq<Element>)
    requires a == [] || !a[|a| - 1].PageBreak?
    ensures Outline(a + b) == Outline(a) + Outline(b)
    decreases |a|
  {
    if a == [] {
      assert a + b == b;
    } else {
      var ab := a + b;
      assert ab[0] == a[0];
      if a[0].PageBreak? {
        assert |a| > 1;
        assert ab[1] == a[1];
      }
      if a[0].PageBreak? && a[1].Heading? {
        assert ab[2..] == a[2..] + b;
        OutlineConcat(a[2..], b);
      } else {
        assert ab[1..] == a[1..] + b;
        OutlineConcat(a[1..], b);
      }
    }
  }

  lemma {:induction false} PlainOutline(doc: seq<Element>)
    requires Plain(doc)
    ensures Outline(doc) == []
    decreases |doc|
  {
    if doc != [] {
      PlainOutline(doc[1..]);
    }
  }

  lemma PlainConcat(a: seq<Element>, b: seq<Element>)
    requires Plain(a) && Plain(b)
    ensures Plain(a + b)
  {
    assert forall i :: |a| <= i < |a + b| ==> (a + b)[i] == b[i - |a|];
  }

  lemma BreaksConcat(a: seq<Element>, b: seq<Element>)
    requires BreaksBeforeTop(a) && BreaksBeforeTop(b)
    requires a == [] || !a[|a| - 1].PageBreak?
    ensures BreaksBeforeTop(a + b)
  {
    assert forall i :: 0 <= i < |a| ==> (a + b)[i] == a[i];
    assert forall i :: |a| <= i < |a + b| ==> (a + b)[i] == b[i - |a|];
  }

  lemma FramedConcat(a: seq<Element>, b: seq<Element>)
    requires FiguresFramed(a) && FiguresFramed(b)
    ensures FiguresFramed(a + b)
  {
    assert forall i :: 0 <= i < |a| ==> (a + b)[i] == a[i];
    assert forall i :: |a| <= i < |a + b| ==> (a + b)[i] == b[i - |a|];
  }

  // ---------------------------------------------------------------------
  // Member slides
  // ---------------------------------------------------------------------

  /** What one member slide shows: its paragraph, and its screenshot with a
      caption numbered `next` when it has one; no heading, no page break. */
  lemma SlideViews(shown: seq<Shown>, p: nat, next: nat)
    requires p < |shown|
    ensures Plain(SlideBlock(shown, p, next))
    ensures Paras(SlideBlock(shown, p, next)) == [shown[p].para]
    ensures Pictures(SlideBlock(shown, p, next)) == if shown[p].hasImage then [p] else []
    ensures Captions(SlideBlock(shown, p, next)) ==
      if shown[p].hasImage then [Figure(next, shown[p].title)] else []
  {
    var d := SlideBlock(shown, p, next);
    if shown[p].hasImage {
      var a, b := [d[0], d[1]], [d[2], d[3]];
      assert d == a + b;
      PlainConcat(a, b);
      ParasConcat(a, b);
      PicturesConcat(a, b);
      CaptionsConcat(a, b);
      assert a[1..][1..] == [] && b[1..][1..] == [];
    } else {
      assert d[1..] == [];
    }
  }

  /** One member slide opens with its paragraph, and its screenshot, if any,
      is framed: paragraph, picture, caption, spacer. */
  lemma SlideFramed(shown: seq<Shown>, p: nat, next: nat)
    requires p < |shown|
    ensures SlideBlock(shown, p, next)[0] == Para(shown[p].para)
    ensures FiguresFramed(SlideBlock(shown, p, next))
  {
  }

  /** Member slides contribute neither page breaks nor headings. */
  lemma {:induction false} MemberPlain(shown: seq<Shown>, ms: seq<nat>, next: nat)
    requires Within(ms, |shown|)
    ensures Plain(MemberBlocks(shown, ms, next))
  {
    if ms != [] {
      WithinTail(ms, |shown|);
      SlideViews(shown, ms[0], next);
      var n' := Bump(shown, ms[0], next);
      MemberPlain(shown, ms[1..], n');
      PlainConcat(SlideBlock(shown, ms[0], next), MemberBlocks(shown, ms[1..], n'));
    }
  }

  /** Member slides keep each screenshot framed by its paragraph, caption
      and spacer. */
  lemma {:induction false} MemberFramed(shown: seq<Shown>, ms: seq<nat>, next: nat)
    requires Within(ms, |shown|)
    ensures FiguresFramed(MemberBlocks(shown, ms, next))
  {
    if ms != [] {
      WithinTail(ms, |shown|);
      SlideFramed(shown, ms[0], next);
      var n' := Bump(shown, ms[0], next);
      MemberFramed(shown, ms[1..], n');
      FramedConcat(SlideBlock(shown, ms[0], next), MemberBlocks(shown, ms[1..], n'));
    }
  }

  /** The figures are numbered consecutively: `first`, `first + 1`, ... for
      the screenshots of the slides at `ps`, in order. */
  function Numbered(shown: seq<Shown>, ps: seq<nat>, first: nat): seq<Figure>
    requires Within(ps, |shown|)
  {
    if ps == [] then []
    else [Figure(first, shown[ps[0]].title)] + Numbered(shown, ps[1..], first + 1)
  }

  lemma {:induction false} NumberedAt(shown: seq<Shown>, ps: seq<nat>, first: nat)
    requires Within(ps, |shown|)
    ensures |Numbered(shown, ps, first)| == |ps|
    ensures forall i :: 0 <= i < |ps| ==>
      Numbered(shown, ps, first)[i] == Figure(first + i, shown[ps[i]].title)
  {
    if ps != [] {
      NumberedAt(shown, ps[1..], first + 1);
    }
  }

  lemma {:induction false} NumberedConcat(shown: seq<Shown>, a: seq<nat>, b: seq<nat>, first: nat)
    requires Within(a, |shown|) && Within(b, |shown|)
    ensures Within(a + b, |shown|)
    ensures Numbered(shown, a + b, first) == Numbered(shown, a, first) + Numbered(shown, b, first + |a|)
  {
    WithinConcat(a, b, |shown|);
    if a != [] {
      assert (a + b)[1..] == a[1..] + b;
      NumberedConcat(shown, a[1..], b, first + 1);
    } else {
      assert a + b == b;
    }
  }

  /** The screenshots of member slides appear in member order, and exactly
      those whose slide has one. */
  lemma {:induction false} MemberPictures(shown: seq<Shown>, ms: seq<nat>, next: nat)
    requires Within(ms, |shown|)
    ensures Pictures(MemberBlocks(shown, ms, next)) == Illustrated(shown, ms)
  {
    if ms != [] {
      WithinTail(ms, |shown|);
      SlideViews(shown, ms[0], next);
      var n' := Bump(shown, ms[0], next);
      MemberPictures(shown, ms[1..], n');
      PicturesConcat(SlideBlock(shown, ms[0], next), MemberBlocks(shown, ms[1..], n'));
    }
  }

  /** The captions of member slides number their screenshots consecutively
      from `next`. */
  lemma {:induction false} MemberCaptions(shown: seq<Shown>, ms: seq<nat>, next: nat)
    requires Within(ms, |shown|)
    ensures Captions(MemberBlocks(shown, ms, next)) == Numbered(shown, Illustrated(shown, ms), next)
  {
    if ms != [] {
      WithinTail(ms, |shown|);
      SlideViews(shown, ms[0], next);
      var s := shown[ms[0]];
      var n' := Bump(shown, ms[0], next);
      MemberCaptions(shown, ms[1..], n');
      CaptionsConcat(SlideBlock(shown, ms[0], next), MemberBlocks(shown, ms[1..], n'));
      var h := if s.hasImage then [ms[0]] else [];
      NumberedConcat(shown, h, Illustrated(shown, ms[1..]), next);
      assert Numbered(shown, h, next) == Captions(SlideBlock(shown, ms[0], next));
      assert Illustrated(shown, ms) == h + Illustrated(shown, ms[1..]);
      assert MemberBlocks(shown, ms, next) == SlideBlock(shown, ms[0], next) + MemberBlocks(shown, ms[1..], n');
    }
  }

  /** Paragraph texts of the slides at `ms`, in order. */
  function ParaTexts(shown: seq<Shown>, ms: seq<nat>): seq<string>
    requires Within(ms, |shown|)
  {
    if ms == [] then [] else [shown[ms[0]].para] + ParaTexts(shown, ms[1..])
  }

  lemma {:induction false} ParaTextsConcat(shown: seq<Shown>, a: seq<nat>, b: seq<nat>)
    requires Within(a, |shown|) && Within(b, |shown|)
    ensures Within(a + b, |shown|)
    ensures ParaTexts(shown, a + b) == ParaTexts(shown, a) + ParaTexts(shown, b)
  {
    WithinConcat(a, b, |shown|);
    if a != [] {
      assert (a + b)[1..] == a[1..] + b;
      ParaTextsConcat(shown, a[1..], b);
    } else {
      assert a + b == b;
    }
  }

  /** Every member slide contributes exactly one body paragraph: its text. */
  lemma {:induction false} MemberParas(shown: seq<Shown>, ms: seq<nat>, next: nat)
    requires Within(ms, |shown|)
    ensures Paras(MemberBlocks(shown, ms, next)) == ParaTexts(shown, ms)
  {
    if ms != [] {
      WithinTail(ms, |shown|);
      SlideViews(shown, ms[0], next);
      var n' := Bump(shown, ms[0], next);
      MemberParas(shown, ms[1..], n');
      ParasConcat(SlideBlock(shown, ms[0], next), MemberBlocks(shown, ms[1..], n'));
    }
  }

  lemma {:induction false} ParaTextsAt(shown: seq<Shown>, ms: seq<nat>)
    requires Within(ms, |shown|)
    ensures |ParaTexts(shown, ms)| == |ms|
    ensures forall i :: 0 <= i < |ms| ==> ParaTexts(shown, ms)[i] == shown[ms[i]].para
  {
    if ms != [] {
      WithinTail(ms, |shown|);
      ParaTextsAt(shown, ms[1..]);
    }
  }

  // ---------------------------------------------------------------------
  // Sections
  // ---------------------------------------------------------------------

  /** The headings a report's sections produce, in order, `seenTop` telling
      whether a top-level section came before them. */
  function Headings(ps: seq<Part>, seenTop: bool): seq<Mark> {
    if ps == [] then []
    else
      [Mark(ps[0].top && seenTop, if ps[0].top then 1 else 2, ps[0].heading)] + Headings(ps[1..], seenTop || ps[0].top)
  }

  /** Some part before position `i` is a top-level one. */
  ghost predicate TopBefore(ps: seq<Part>, i: nat) {
    exists j :: 0 <= j < i && j < |ps| && ps[j].top
  }

  /** The `i`-th heading is preceded by a page break exactly when it is
      top-level and a top-level heading came before it. */
  lemma {:induction false} HeadingsAt(ps: seq<Part>, seenTop: bool)
    ensures |Headings(ps, seenTop)| == |ps|
    ensures forall i :: 0 <= i < |ps| ==>
      Headings(ps, seenTop)[i] ==
        Mark(ps[i].top && (seenTop || TopBefore(ps, i)), if ps[i].top then 1 else 2, ps[i].heading)
  {
    if ps != [] {
      var seen' := seenTop || ps[0].top;
      HeadingsAt(ps[1..], seen');
      forall i | 0 <= i < |ps|
        ensures Headings(ps, seenTop)[i] ==
          Mark(ps[i].top && (seenTop || TopBefore(ps, i)), if ps[i].top then 1 else 2, ps[i].heading)
      {
        if i > 0 {
          assert ps[1..][i - 1] == ps[i];
          assert seen' || TopBefore(ps[1..], i - 1) <==> seenTop || TopBefore(ps, i) by {
            if TopBefore(ps[1..], i - 1) {
              var j :| 0 <= j < i - 1 && j < |ps| - 1 && ps[1..][j].top;
              assert ps[1..][j] == ps[j + 1];
            }
            if TopBefore(ps, i) {
              var j :| 0 <= j < i && j < |ps| && ps[j].top;
              if j > 0 {
                assert ps[1..][j - 1] == ps[j];
              }
            }
          }
        } else {
          assert !TopBefore(ps, 0);
        }
      }
    }
  }

  /** A section opens with its heading, preceded by a page break iff it is
      top-level and `seenTop`, and holds no other heading or break. */
  lemma SectionOutline(part: Part, shown: seq<Shown>, next: nat, seenTop: bool)
    requires Within(part.members, |shown|)
    ensures BreaksBeforeTop(SectionBlocks(part, shown, next, seenTop))
    ensures Outline(SectionBlocks(part, shown, next, seenTop)) ==
      [Mark(part.top && seenTop, if part.top then 1 else 2, part.heading)]
    ensures var d := SectionBlocks(part, shown, next, seenTop); d != [] && !d[|d| - 1].PageBreak?
  {
    var head := SectionHead(part, seenTop);
    var body := MemberBlocks(shown, part.members, next);
    MemberPlain(shown, part.members, next);
    PlainOutline(body);
    OutlineConcat(head, body);
    BreaksConcat(head, body);
    if part.top && seenTop {
      assert head[1..][1..] == [];
    } else {
      assert head[1..] == [];
    }
    var d := head + body;
    if body != [] {
      assert d[|d| - 1] == body[|body| - 1];
    }
  }

  /** After its heading, a section shows its members' paragraphs and
      screenshots, in member order. */
  lemma SectionContent(part: Part, shown: seq<Shown>, next: nat, seenTop: bool)
    requires Within(part.members, |shown|)
    ensures Pictures(SectionBlocks(part, shown, next, seenTop)) == Illustrated(shown, part.members)
    ensures Paras(SectionBlocks(part, shown, next, seenTop)) == ParaTexts(shown, part.members)
  {
    var head := SectionHead(part, seenTop);
    var body := MemberBlocks(shown, part.members, next);
    MemberPictures(shown, part.members, next);
    MemberParas(shown, part.members, next);
    PicturesConcat(head, body);
    ParasConcat(head, body);
    if part.top && seenTop {
      assert head[1..][1..] == [];
    } else {
      assert head[1..] == [];
    }
  }

  /** A section's captions number its screenshots consecutively from
      `next`. */
  lemma SectionCaptions(part: Part, shown: seq<Shown>, next: nat, seenTop: bool)
    requires Within(part.members, |shown|)
    ensures Captions(SectionBlocks(part, shown, next, seenTop)) ==
      Numbered(shown, Illustrated(shown, part.members), next)
  {
    var head := SectionHead(part, seenTop);
    var body := MemberBlocks(shown, part.members, next);
    MemberCaptions(shown, part.members, next);
    CaptionsConcat(head, body);
    if part.top && seenTop {
      assert head[1..][1..] == [];
    } else {
      assert head[1..] == [];
    }
  }

  lemma SectionFramed(part: Part, shown: seq<Shown>, next: nat, seenTop: bool)
    requires Within(part.members, |shown|)
    ensures FiguresFramed(SectionBlocks(part, shown, next, seenTop))
  {
    var head := SectionHead(part, seenTop);
    MemberFramed(shown, part.members, next);
    assert FiguresFramed(head);
    FramedConcat(head, MemberBlocks(shown, part.members, next));
  }

  // ---------------------------------------------------------------------
  // The whole document
  // ---------------------------------------------------------------------

  lemma {:induction false} FromOutline(ps: seq<Part>, shown: seq<Shown>, next: nat, seenTop: bool)
    requires PartsWithin(ps, |shown|)
    ensures BreaksBeforeTop(AssembleFrom(ps, shown, next, seenTop))
    ensures Outline(AssembleFrom(ps, shown, next, seenTop)) == Headings(ps, seenTop)
    decreases |ps|
  {
    if ps != [] {
      TailWithin(ps, |shown|);
      var next' := next + |Illustrated(shown, ps[0].members)|;
      var seen' := seenTop || ps[0].top;
      FromOutline(ps[1..], shown, next', seen');
      var a, b := SectionBlocks(ps[0], shown, next, seenTop), AssembleFrom(ps[1..], shown, next', seen');
      AssembleFromCons(ps, shown, next, seenTop);
      SectionOutline(ps[0], shown, next, seenTop);
      OutlineConcat(a, b);
      BreaksConcat(a, b);
    }
  }

  lemma {:induction false} FromPictures(ps: seq<Part>, shown: seq<Shown>, next: nat, seenTop: bool)
    requires PartsWithin(ps, |shown|)
    ensures Within(AllMembers(ps), |shown|)
    ensures Pictures(AssembleFrom(ps, shown, next, seenTop)) == Illustrated(shown, AllMembers(ps))
    decreases |ps|
  {
    AllMembersWithin(ps, |shown|);
    if ps != [] {
      TailWithin(ps, |shown|);
      var next' := next + |Illustrated(shown, ps[0].members)|;
      var seen' := seenTop || ps[0].top;
      FromPictures(ps[1..], shown, next', seen');
      var a, b := SectionBlocks(ps[0], shown, next, seenTop), AssembleFrom(ps[1..], shown, next', seen');
      AssembleFromCons(ps, shown, next, seenTop);
      SectionContent(ps[0], shown, next, seenTop);
      PicturesConcat(a, b);
      IllustratedConcat(shown, ps[0].members, AllMembers(ps[1..]));
    }
  }

  lemma {:induction false} FromFramed(ps: seq<Part>, shown: seq<Shown>, next: nat, seenTop: bool)
    requires PartsWithin(ps, |shown|)
    ensures FiguresFramed(AssembleFrom(ps, shown, next, seenTop))
    decreases |ps|
  {
    if ps != [] {
      TailWithin(ps, |shown|);
      var next' := next + |Illustrated(shown, ps[0].members)|;
      var seen' := seenTop || ps[0].top;
      FromFramed(ps[1..], shown, next', seen');
      AssembleFromCons(ps, shown, next, seenTop);
      SectionFramed(ps[0], shown, next, seenTop);
      FramedConcat(SectionBlocks(ps[0], shown, next, seenTop), AssembleFrom(ps[1..], shown, next', seen'));
    }
  }

  /** The elements of a list of blocks, one block after another. */
  function Flatten(bs: seq<seq<Element>>): seq<Element> {
    if bs == [] then [] else bs[0] + Flatten(bs[1..])
  }

  lemma FlattenCons(b: seq<Element>, bs: seq<seq<Element>>)
    ensures Flatten([b] + bs) == b + Flatten(bs)
  {
    assert ([b] + bs)[1..] == bs;
  }

  /** How many screenshots the sections before section `i` show. */
  function FiguresBefore(ps: seq<Part>, shown: seq<Shown>, i: nat): nat
    requires PartsWithin(ps, |shown|) && i <= |ps|
  {
    assert PartsWithin(ps[..i], |shown|);
    AllMembersWithin(ps[..i], |shown|);
    |Illustrated(shown, AllMembers(ps[..i]))|
  }

  /** The document cut into sections, each standing on its own: section `i`
      is the head of part `i`, with a page break iff it is top-level and a
      top-level section came before it (or `seenTop`), followed by the blocks
      of its own member slides, their figures numbered after all those of the
      earlier sections. */
  ghost function Sections(ps: seq<Part>, shown: seq<Shown>, next: nat, seenTop: bool): (bs: seq<seq<Element>>)
    requires PartsWithin(ps, |shown|)
    ensures |bs| == |ps|
  {
    seq(|ps|, i requires 0 <= i < |ps| =>
      SectionBlocks(ps[i], shown, next + FiguresBefore(ps, shown, i), seenTop || TopBefore(ps, i)))
  }

  /** The document is its sections one after another: nothing of a section
      lands under another section's heading. */
  lemma {:induction false} FromSections(ps: seq<Part>, shown: seq<Shown>, next: nat, seenTop: bool)
    requires PartsWithin(ps, |shown|)
    ensures AssembleFrom(ps, shown, next, seenTop) == Flatten(Sections(ps, shown, next, seenTop))
    decreases |ps|
  {
    if ps == [] {
      assert Sections(ps, shown, next, seenTop) == [];
    } else {
      var next' := next + |Illustrated(shown, ps[0].members)|;
      var seen' := seenTop || ps[0].top;
      AssembleFromCons(ps, shown, next, seenTop);
      SectionsCons(ps, shown, next, seenTop);
      FromSections(ps[1..], shown, next', seen');
      FlattenCons(SectionBlocks(ps[0], shown, next, seenTop), Sections(ps[1..], shown, next', seen'));
    }
  }

  /** The sections of `ps`: the first one's, then those of the rest, which
      start after its figures and know whether it was top-level. */
  lemma SectionsCons(ps: seq<Part>, shown: seq<Shown>, next: nat, seenTop: bool)
    requires ps != [] && PartsWithin(ps, |shown|)
    ensures PartsWithin(ps[1..], |shown|) && Within(ps[0].members, |shown|)
    ensures Sections(ps, shown, next, seenTop) ==
      [SectionBlocks(ps[0], shown, next, seenTop)] +
      Sections(ps[1..], shown, next + |Illustrated(shown, ps[0].members)|, seenTop || ps[0].top)
  {
    TailWithin(ps, |shown|);
    var next' := next + |Illustrated(shown, ps[0].members)|;
    var seen' := seenTop || ps[0].top;
    var a := Sections(ps, shown, next, seenTop);
    var rest := Sections(ps[1..], shown, next', seen');
    var b := [SectionBlocks(ps[0], shown, next, seenTop)] + rest;
    FirstSection(ps, shown, next, seenTop);
    forall i | 0 < i < |ps|
      ensures a[i] == rest[i - 1]
    {
      LaterSection(ps, shown, next, seenTop, i);
    }
    assert forall i :: 0 < i < |ps| ==> b[i] == rest[i - 1];
  }

  lemma FirstSection(ps: seq<Part>, shown: seq<Shown>, next: nat, seenTop: bool)
    requires ps != [] && PartsWithin(ps, |shown|)
    ensures Within(ps[0].members, |shown|)
    ensures Sections(ps, shown, next, seenTop)[0] == SectionBlocks(ps[0], shown, next, seenTop)
  {
    assert ps[..0] == [];
    assert !TopBefore(ps, 0);
  }

  lemma LaterSection(ps: seq<Part>, shown: seq<Shown>, next: nat, seenTop: bool, i: nat)
    requires PartsWithin(ps, |shown|) && 0 < i < |ps|
    ensures PartsWithin(ps[1..], |shown|) && Within(ps[0].members, |shown|)
    ensures Sections(ps, shown, next, seenTop)[i] ==
      Sections(ps[1..], shown, next + |Illustrated(shown, ps[0].members)|, seenTop || ps[0].top)[i - 1]
  {
    var next' := next + |Illustrated(shown, ps[0].members)|;
    var seen' := seenTop || ps[0].top;
    FiguresBeforeStep(ps, shown, i);
    TopBeforeStep(ps, i);
    var n1, t1 := next + FiguresBefore(ps, shown, i), seenTop || TopBefore(ps, i);
    var n2, t2 := next' + FiguresBefore(ps[1..], shown, i - 1), seen' || TopBefore(ps[1..], i - 1);
    assert n1 == n2 && t1 == t2;
    assert ps[1..][i - 1] == ps[i];
    assert Sections(ps, shown, next, seenTop)[i] == SectionBlocks(ps[i], shown, n1, t1);
    assert Sections(ps[1..], shown, next', seen')[i - 1] == SectionBlocks(ps[i], shown, n2, t2);
  }

  lemma FiguresBeforeStep(ps: seq<Part>, shown: seq<Shown>, i: nat)
    requires PartsWithin(ps, |shown|) && 0 < i <= |ps|
    ensures PartsWithin(ps[1..], |shown|) && Within(ps[0].members, |shown|)
    ensures FiguresBefore(ps, shown, i) ==
      |Illustrated(shown, ps[0].members)| + FiguresBefore(ps[1..], shown, i - 1)
  {
    TailWithin(ps, |shown|);
    var pre, rest := ps[..i], ps[1..][..i - 1];
    assert pre[0] == ps[0] && pre[1..] == rest;
    assert PartsWithin(rest, |shown|);
    AllMembersWithin(rest, |shown|);
    assert AllMembers(pre) == ps[0].members + AllMembers(rest);
    IllustratedConcat(shown, ps[0].members, AllMembers(rest));
  }

  lemma TopBeforeStep(ps: seq<Part>, i: nat)
    requires 0 < i <= |ps|
    ensures TopBefore(ps, i) <==> ps[0].top || TopBefore(ps[1..], i - 1)
  {
    if TopBefore(ps, i) && !ps[0].top {
      var j :| 0 <= j < i && j < |ps| && ps[j].top;
      assert ps[1..][j - 1].top;
    }
    if TopBefore(ps[1..], i - 1) {
      var j :| 0 <= j < i - 1 && j < |ps[1..]| && ps[1..][j].top;
      assert ps[j + 1].top;
    }
  }

  /** The blocks of the first section, then those of the rest. */
  lemma AssembleFromCons(ps: seq<Part>, shown: seq<Shown>, next: nat, seenTop: bool)
    requires ps != [] && PartsWithin(ps, |shown|)
    ensures PartsWithin(ps[1..], |shown|) && Within(ps[0].members, |shown|)
    ensures AssembleFrom(ps, shown, next, seenTop) ==
      SectionBlocks(ps[0], shown, next, seenTop) +
      AssembleFrom(ps[1..], shown, next + |Illustrated(shown, ps[0].members)|, seenTop || ps[0].top)
  {
    TailWithin(ps, |shown|);
  }

  /** The illustrated slides of all sections: those of the first section,
      then those of the rest. */
  lemma IllustratedCons(ps: seq<Part>, shown: seq<Shown>)
    requires ps != [] && PartsWithin(ps, |shown|)
    ensures Within(AllMembers(ps), |shown|) && Within(AllMembers(ps[1..]), |shown|) && Within(ps[0].members, |shown|)
    ensures Illustrated(shown, AllMembers(ps)) ==
      Illustrated(shown, ps[0].members) + Illustrated(shown, AllMembers(ps[1..]))
  {
    TailWithin(ps, |shown|);
    AllMembersWithin(ps[1..], |shown|);
    IllustratedConcat(shown, ps[0].members, AllMembers(ps[1..]));
    assert AllMembers(ps) == ps[0].members + AllMembers(ps[1..]);
  }

  /** The captions of a document: those of the first section, then those of
      the rest. */
  lemma CaptionsCons(ps: seq<Part>, shown: seq<Shown>, next: nat, seenTop: bool)
    requires ps != [] && PartsWithin(ps, |shown|)
    ensures Within(ps[0].members, |shown|) && PartsWithin(ps[1..], |shown|)
    ensures Captions(AssembleFrom(ps, shown, next, seenTop)) ==
      Numbered(shown, Illustrated(shown, ps[0].members), next) +
      Captions(AssembleFrom(ps[1..], shown, next + |Illustrated(shown, ps[0].members)|, seenTop || ps[0].top))
  {
    AssembleFromCons(ps, shown, next, seenTop);
    var a := SectionBlocks(ps[0], shown, next, seenTop);
    var b := AssembleFrom(ps[1..], shown, next + |Illustrated(shown, ps[0].members)|, seenTop || ps[0].top);
    SectionCaptions(ps[0], shown, next, seenTop);
    CaptionsConcat(a, b);
  }

  lemma {:induction false} FromCaptions(ps: seq<Part>, shown: seq<Shown>, next: nat, seenTop: bool)
    requires PartsWithin(ps, |shown|)
    ensures Within(AllMembers(ps), |shown|)
    ensures Captions(AssembleFrom(ps, shown, next, seenTop)) ==
      Numbered(shown, Illustrated(shown, AllMembers(ps)), next)
    decreases |ps|
  {
    AllMembersWithin(ps, |shown|);
    if ps != [] {
      TailWithin(ps, |shown|);
      var ill := Illustrated(shown, ps[0].members);
      var next' := next + |ill|;
      var seen' := seenTop || ps[0].top;
      FromCaptions(ps[1..], shown, next', seen');
      CaptionsCons(ps, shown, next, seenTop);
      IllustratedCons(ps, shown);
      NumberedConcat(shown, ill, Illustrated(shown, AllMembers(ps[1..])), next);
    }
  }

  lemma {:induction false} FromParas(ps: seq<Part>, shown: seq<Shown>, next: nat, seenTop: bool)
    requires PartsWithin(ps, |shown|)
    ensures Within(AllMembers(ps), |shown|)
    ensures Paras(AssembleFrom(ps, shown, next, seenTop)) == ParaTexts(shown, AllMembers(ps))
    decreases |ps|
  {
    AllMembersWithin(ps, |shown|);
    if ps != [] {
      TailWithin(ps, |shown|);
      var next' := next + |Illustrated(shown, ps[0].members)|;
      var seen' := seenTop || ps[0].top;
      FromParas(ps[1..], shown, next', seen');
      var a, b := SectionBlocks(ps[0], shown, next, seenTop), AssembleFrom(ps[1..], shown, next', seen');
      AssembleFromCons(ps, shown, next, seenTop);
      SectionContent(ps[0], shown, next, seenTop);
      ParasConcat(a, b);
      ParaTextsConcat(shown, ps[0].members, AllMembers(ps[1..]));
    }
  }

  // ---------------------------------------------------------------------
  // The document of a report
  // ---------------------------------------------------------------------

  /** The member positions of all entries, in report order. */
  function ReportOrder(report: seq<Entry>): seq<nat> {
    if report == [] then [] else report[0].members + ReportOrder(report[1..])
  }

  lemma RenderedOrder(report: seq<Entry>)
    ensures AllMembers(RenderReport(report)) == ReportOrder(report)
  {
    var ps := RenderReport(report);
    forall i | 0 <= i < |report|
      ensures ps[i].members == report[i].members
    {
    }
    SameMembersOrder(ps, report);
  }

  lemma {:induction false} SameMembersOrder(ps: seq<Part>, report: seq<Entry>)
    requires |ps| == |report|
    requires forall i :: 0 <= i < |ps| ==> ps[i].members == report[i].members
    ensures AllMembers(ps) == ReportOrder(report)
  {
    if ps != [] {
      assert forall i :: 0 <= i < |ps| - 1 ==> ps[1..][i] == ps[i + 1] && report[1..][i] == report[i + 1];
      SameMembersOrder(ps[1..], report[1..]);
    }
  }

  /** Some entry before position `i` has a top-level key. */
  ghost predicate EarlierTop(report: seq<Entry>, i: nat) {
    exists j :: 0 <= j < i && j < |report| && IsTop(report[j].key)
  }

  /** The outline of the document: one heading per entry, in report order,
      at level 1 for a top-level key and 2 otherwise, with the key's heading
      text; a page break comes right before it exactly when the key is
      top-level and an earlier key was too, and nowhere else. */
  lemma AssembleOutline(report: seq<Entry>, store: seq<Slide>)
    requires MembersWithin(report, |store|)
    ensures BreaksBeforeTop(Assemble(report, store))
    ensures |Outline(Assemble(report, store))| == |report|
    ensures forall i :: 0 <= i < |report| ==>
      Outline(Assemble(report, store))[i] ==
        Mark(IsTop(report[i].key) && EarlierTop(report, i), Level(report[i].key), HeadingText(report[i].key))
  {
    var ps := RenderReport(report);
    RenderedWithin(report, |store|);
    FromOutline(ps, RenderAll(store), 1, false);
    HeadingsAt(ps, false);
    forall i | 0 <= i < |report|
      ensures TopBefore(ps, i) <==> EarlierTop(report, i)
    {
      if TopBefore(ps, i) {
        var j :| 0 <= j < i && j < |ps| && ps[j].top;
        assert IsTop(report[j].key);
      }
      if EarlierTop(report, i) {
        var j :| 0 <= j < i && j < |report| && IsTop(report[j].key);
        assert ps[j].top;
      }
    }
  }

  /** Every position of a slide with a screenshot among `ms` is kept, in
      order, and nothing else. */
  lemma {:induction false} IllustratedMembers(shown: seq<Shown>, ms: seq<nat>)
    requires Within(ms, |shown|)
    ensures forall p :: p in Illustrated(shown, ms) <==> p in ms && shown[p].hasImage
  {
    if ms != [] {
      WithinTail(ms, |shown|);
      IllustratedMembers(shown, ms[1..]);
      assert forall p :: p in ms <==> p == ms[0] || p in ms[1..] by {
        assert ms == [ms[0]] + ms[1..];
      }
    }
  }

  /** The figures of the document: the screenshots of the member slides that
      have one, in report order, each followed by a caption numbered
      1, 2, 3, ... in that order and titled with its slide's cleaned title. */
  lemma AssembleFigures(report: seq<Entry>, store: seq<Slide>)
    requires MembersWithin(report, |store|)
    ensures Within(ReportOrder(report), |store|)
    ensures Pictures(Assemble(report, store)) == Illustrated(RenderAll(store), ReportOrder(report))
    ensures |Captions(Assemble(report, store))| == |Pictures(Assemble(report, store))|
    ensures forall i :: 0 <= i < |Pictures(Assemble(report, store))| ==>
      Pictures(Assemble(report, store))[i] < |store| &&
      Captions(Assemble(report, store))[i] ==
        Figure(i + 1, CaptionTitle(store[Pictures(Assemble(report, store))[i]].title))
  {
    var ps, shown := RenderReport(report), RenderAll(store);
    RenderedWithin(report, |store|);
    RenderedOrder(report);
    FromPictures(ps, shown, 1, false);
    FromCaptions(ps, shown, 1, false);
    var ill := Illustrated(shown, ReportOrder(report));
    NumberedAt(shown, ill, 1);
    forall i | 0 <= i < |ill|
      ensures shown[ill[i]].title == CaptionTitle(store[ill[i]].title)
    {
    }
  }

  /** The document of a report is its sections in report order, each made
      of its own heading (with its page break) and the blocks of its own
      member slides only; see `Sections`. */
  lemma AssembleSections(report: seq<Entry>, store: seq<Slide>)
    requires MembersWithin(report, |store|)
    ensures PartsWithin(RenderReport(report), |RenderAll(store)|)
    ensures Assemble(report, store) == Flatten(Sections(RenderReport(report), RenderAll(store), 1, false))
  {
    RenderedWithin(report, |store|);
    FromSections(RenderReport(report), RenderAll(store), 1, false);
  }

  /** In the whole document, every screenshot sits between its slide's
      paragraph and its caption, followed by one spacer, and no caption or
      spacer appears anywhere else. */
  lemma AssembleFramed(report: seq<Entry>, store: seq<Slide>)
    requires MembersWithin(report, |store|)
    ensures FiguresFramed(Assemble(report, store))
  {
    RenderedWithin(report, |store|);
    FromFramed(RenderReport(report), RenderAll(store), 1, false);
  }

  /** The body paragraphs of the document: one per member slide, in report
      order, holding that slide's cleaned text. */
  lemma AssembleParagraphs(report: seq<Entry>, store: seq<Slide>)
    requires MembersWithin(report, |store|)
    ensures Within(ReportOrder(report), |store|)
    ensures |Paras(Assemble(report, store))| == |ReportOrder(report)|
    ensures forall i :: 0 <= i < |ReportOrder(report)| ==>
      Paras(Assemble(report, store))[i] == ParaText(store[ReportOrder(report)[i]])
  {
    var ps, shown := RenderReport(report), RenderAll(store);
    RenderedWithin(report, |store|);
    RenderedOrder(report);
    FromParas(ps, shown, 1, false);
    ParaTextsAt(shown, ReportOrder(report));
  }

  // ---------------------------------------------------------------------
  // The cleaned strings
  // ---------------------------------------------------------------------

  /** A paragraph has no whitespace at its ends, no whitespace but single
      plain spaces inside, and collapsing it again changes nothing. */
  lemma ParaTextClean(s: Slide)
    ensures WellSpaced(ParaText(s))
    ensures Collapse(ParaText(s)) == ParaText(s)
  {
    CollapseIdempotent(Sanitize(s.text));
  }

  /** The second sanitising in `add_caption` changes nothing: a caption title
      is the sanitised title stripped, printable throughout and without
      whitespace at either end. */
  lemma CaptionTitleClean(t: string)
    ensures CaptionTitle(t) == Strip(Sanitize(t))
    ensures AllPrintable(CaptionTitle(t))
    ensures CaptionTitle(t) == [] || (!IsSpace(CaptionTitle(t)[0]) && !IsSpace(CaptionTitle(t)[|CaptionTitle(t)| - 1]))
  {
    var x := Sanitize(t);
    var y := Strip(x);
    StripSubset(x);
    forall i | 0 <= i < |y|
      ensures IsPrintable(y[i])
    {
      assert y[i] in y;
    }
    SanitizePrintable(y);
  }

  /** The caption text reads back: after " Figure " come the decimal digits
      of the figure number, then ": ", then the title. */
  lemma CaptionTextReadsBack(n: nat, t: string)
    ensures StartsWith(CaptionText(n, t), " Figure ")
    ensures var d := |Show(n)|;
      && |CaptionText(n, t)| == 10 + d + |t|
      && CaptionText(n, t)[8..8 + d] == Show(n)
      && DigitsValue(CaptionText(n, t)[8..8 + d]) == n
      && CaptionText(n, t)[8 + d..10 + d] == ": "
      && CaptionText(n, t)[10 + d..] == t
  {
    ShowReadsBack(n);
  }
}
