/** The request sent to the text generator for one section: a fixed
    instruction around the member slides' titles and texts, optionally followed
    by an example report that sets the style. */
module Prompt {
  import opened Results
  import opened Text
  import opened Records

  /** The fixed sentences of the prompt. They are a parameter of the
      functions below so that proofs about the prompt's layout never unfold
      several hundred characters of literal text; `SourceWording` is the
      wording the script uses. */
  datatype Wording = Wording(opening: string, instruction: string, closing: string, styleLead: string)

  const SourceWording: Wording := Wording(
    "Using the context of '",
    "'" + ", write a technical description that summarizes the content of the following slides. "
    + "The description should be clear, concise, and fit for inclusion in a professional report by an engineering consultancy. "
    + "It should be written in way that the paragraph text refers to the figures to illustrate the main technical points. "
    + "Each slide contains technical data, and your task is to highlight key points and any notable differences or observations.\n\n",
    "\n\nGenerate the description based on this content, ensuring it is suitable for a technical audience.",
    "\n\nHere is an example of a report that illustrates the style and quality expected:\n\n")

  /** The instruction that opens every prompt, quoting the presentation
      context. */
  function Preamble(w: Wording, ctx: string): string {
    w.opening + ctx + w.instruction
  }

  const TitlesLabel: string := "Titles: "
  const TextLabel: string := "\n\nText: "
  const TitleSep: string := " "
  const TextSep: string := "\n\n"

  /** The sanitised titles of the members, in member order. */
  function Titles(members: seq<Slide>): (ts: seq<string>)
    ensures |ts| == |members|
    ensures forall k :: 0 <= k < |members| ==> ts[k] == Sanitize(members[k].title)
  {
    seq(|members|, k requires 0 <= k < |members| => Sanitize(members[k].title))
  }

  /** The sanitised texts of the members, in member order. */
  function Texts(members: seq<Slide>): (ts: seq<string>)
    ensures |ts| == |members|
    ensures forall k :: 0 <= k < |members| ==> ts[k] == Sanitize(members[k].text)
  {
    seq(|members|, k requires 0 <= k < |members| => Sanitize(members[k].text))
  }

  /** Python truthiness of the optional example: absent and empty are false. */
  predicate Truthy(example: Option<string>) {
    example.Some? && example.value != ""
  }

  /** The prompt without the style example. */
  function BasePrompt(w: Wording, members: seq<Slide>, ctx: string): string {
    Preamble(w, ctx) + TitlesLabel + Join(Titles(members), TitleSep)
    + TextLabel + Join(Texts(members), TextSep) + w.closing
  }

  /** Where the joined titles start in the prompt. */
  function TitlesStart(w: Wording, ctx: string): nat {
    |Preamble(w, ctx) + TitlesLabel|
  }

  /** Where the joined texts start in the prompt. */
  function TextsStart(w: Wording, members: seq<Slide>, ctx: string): nat {
    |Preamble(w, ctx) + TitlesLabel + Join(Titles(members), TitleSep) + TextLabel|
  }

  /** `t` occurs in `s` at position `i`. */
  predicate SliceAt(s: string, i: nat, t: string) {
    i + |t| <= |s| && s[i..i + |t|] == t
  }

  /** The prompt `generate_section_text` builds. The `section` argument is
      accepted and never read. */
  function SectionPrompt(w: Wording, members: seq<Slide>, section: string, ctx: string, example: Option<string>): (p: string)
    ensures StartsWith(p, Preamble(w, ctx))
  {
    var base := BasePrompt(w, members, ctx);
    if Truthy(example) then base + w.styleLead + example.value else base
  }

  /** The style suffix is present exactly when the example is truthy, it is the
      last thing in the prompt, and the section name never matters. */
  lemma PromptSuffix(w: Wording, members: seq<Slide>, section: string, ctx: string, example: Option<string>)
    ensures StartsWith(SectionPrompt(w, members, section, ctx, example), BasePrompt(w, members, ctx))
    ensures |SectionPrompt(w, members, section, ctx, example)| > |BasePrompt(w, members, ctx)| <==> Truthy(example)
    ensures Truthy(example) ==>
      SectionPrompt(w, members, section, ctx, example)[|BasePrompt(w, members, ctx)|..] == w.styleLead + example.value
    ensures forall other :: SectionPrompt(w, members, other, ctx, example) == SectionPrompt(w, members, section, ctx, example)
  {
    var base := BasePrompt(w, members, ctx);
    if Truthy(example) {
      assert (base + w.styleLead + example.value)[..|base|] == base;
      assert (base + w.styleLead + example.value)[|base|..] == w.styleLead + example.value;
    }
  }

  /** The prompt opens with the preamble, the joined titles, and the joined
      texts, in that order, whatever follows them. */
  lemma PromptLayout(w: Wording, members: seq<Slide>, section: string, ctx: string, example: Option<string>)
    ensures StartsWith(SectionPrompt(w, members, section, ctx, example),
                       Preamble(w, ctx) + TitlesLabel + Join(Titles(members), TitleSep))
    ensures StartsWith(SectionPrompt(w, members, section, ctx, example),
                       Preamble(w, ctx) + TitlesLabel + Join(Titles(members), TitleSep) + TextLabel + Join(Texts(members), TextSep))
  {
    var head := Preamble(w, ctx) + TitlesLabel + Join(Titles(members), TitleSep);
    var both := head + TextLabel + Join(Texts(members), TextSep);
    var base := both + w.closing;
    PromptSuffix(w, members, section, ctx, example);
    assert base == BasePrompt(w, members, ctx);
    PrefixOfPrefix(SectionPrompt(w, members, section, ctx, example), base, both);
    PrefixOfPrefix(SectionPrompt(w, members, section, ctx, example), both, head);
  }

  lemma PrefixOfPrefix(p: string, a: string, b: string)
    requires StartsWith(p, a) && StartsWith(a, b)
    ensures StartsWith(p, b)
  {
    assert p[..|b|] == p[..|a|][..|b|];
  }

  /** Every member's sanitised title appears in the prompt, in member order:
      title `k` at its offset in the space-joined titles. */
  lemma PromptCarriesTitles(w: Wording, members: seq<Slide>, section: string, ctx: string, example: Option<string>)
    requires |members| > 0
    ensures forall k :: 0 <= k < |members| ==>
      SliceAt(SectionPrompt(w, members, section, ctx, example),
              TitlesStart(w, ctx) + Offset(Titles(members), TitleSep, k), Sanitize(members[k].title))
  {
    PromptLayout(w, members, section, ctx, example);
    JoinedAt(SectionPrompt(w, members, section, ctx, example), Preamble(w, ctx) + TitlesLabel, Titles(members), TitleSep);
  }

  /** Every member's sanitised text appears in the prompt, in member order:
      text `k` at its offset in the blank-line-joined texts. */
  lemma PromptCarriesTexts(w: Wording, members: seq<Slide>, section: string, ctx: string, example: Option<string>)
    requires |members| > 0
    ensures forall k :: 0 <= k < |members| ==>
      SliceAt(SectionPrompt(w, members, section, ctx, example),
              TextsStart(w, members, ctx) + Offset(Texts(members), TextSep, k), Sanitize(members[k].text))
  {
    var head := Preamble(w, ctx) + TitlesLabel + Join(Titles(members), TitleSep) + TextLabel;
    PromptLayout(w, members, section, ctx, example);
    JoinedAt(SectionPrompt(w, members, section, ctx, example), head, Texts(members), TextSep);
  }

  /** If `p` starts with `head` followed by the join of `xs`, then piece `k`
      of `xs` is in `p` at `|head|` plus its offset in the join. */
  lemma JoinedAt(p: string, head: string, xs: seq<string>, sep: string)
    requires |xs| > 0
    requires StartsWith(p, head + Join(xs, sep))
    ensures forall k :: 0 <= k < |xs| ==> SliceAt(p, |head| + Offset(xs, sep, k), xs[k])
  {
    forall k | 0 <= k < |xs|
      ensures SliceAt(p, |head| + Offset(xs, sep, k), xs[k])
    {
      JoinPiece(xs, sep, k);
      SliceWithin(p, head, Join(xs, sep), Offset(xs, sep, k), xs[k]);
    }
  }

  /** A piece of `mid` that sits at `o` is found in any string that starts with
      `head + mid`, at `|head| + o`. */
  lemma SliceWithin(p: string, head: string, mid: string, o: nat, t: string)
    requires StartsWith(p, head + mid)
    requires SliceAt(mid, o, t)
    ensures SliceAt(p, |head| + o, t)
  {
    var hm, i, j := head + mid, |head| + o, |head| + o + |t|;
    assert j <= |hm| <= |p|;
    assert p[i..j] == p[..|hm|][i..j] == hm[i..j];
    assert hm[i..j] == mid[o..o + |t|];
  }

  /** With the script's own wording, the prompt quotes the presentation context
      between the opening words and the instruction, and the joined titles
      follow the instruction. */
  lemma ScriptPrompt(members: seq<Slide>, section: string, ctx: string, example: Option<string>)
    ensures StartsWith(SectionPrompt(SourceWording, members, section, ctx, example),
                       "Using the context of '" + ctx + "'")
    ensures StartsWith(SectionPrompt(SourceWording, members, section, ctx, example),
                       Preamble(SourceWording, ctx) + "Titles: " + Join(Titles(members), " "))
  {
    var p := SectionPrompt(SourceWording, members, section, ctx, example);
    var lead := "Using the context of '" + ctx + "'";
    PromptLayout(SourceWording, members, section, ctx, example);
    assert SourceWording.instruction[0] == '\'';
    assert lead == (SourceWording.opening + ctx + SourceWording.instruction)[..|lead|];
    PrefixOfPrefix(p, Preamble(SourceWording, ctx), lead);
  }

  /** The description of one section: the generator is asked with the prompt
      built without a style example (the caller never supplies one), and its
      answer is stripped. `None` means the request failed. */
  function Describe(w: Wording, members: seq<Slide>, section: string, ctx: string, gen: string -> Option<string>): (d: Option<string>)
    ensures d.Some? <==> gen(BasePrompt(w, members, ctx)).Some?
    ensures d.Some? ==> d.value == Strip(gen(BasePrompt(w, members, ctx)).value)
    ensures d.Some? ==> d.value == [] || (!IsSpace(d.value[0]) && !IsSpace(d.value[|d.value| - 1]))
  {
    match gen(SectionPrompt(w, members, section, ctx, None))
    case None => None
    case Some(reply) => Some(Strip(reply))
  }
}
