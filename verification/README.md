# ppt2doc report pipeline, modelled in Dafny

`ppt2doc_app.py` turns the slides of a presentation into a Word report. The user fills a
table of sections. Each row has a Heading 1 cell, a Heading 2 cell and a Slides cell such as
`"1-3,5,7"`. "Generate Report" then does three things in order:

- It resolves every row to its member slides.
- It asks a language model for a description of each section and writes that description
  back into every member slide's text.
- It renders the resulting report as a document. The document has headings, page breaks,
  one paragraph per slide, and numbered figure captions for slides that have a screenshot.

This project models that pure core as immutable datatypes and total functions:

| module | file | models |
|---|---|---|
| `Results` | `results.dfy` | `Option`, `Result`, and the three exceptions that abort the action |
| `Text` | `text.dfy` | the Python `str` operations used: `str.isprintable`, `sanitize_text`, `strip`, `split()`, `split(c)`, `join`, `replace`, `str(n)` / `isdigit` |
| `Records` | `records.dfy` | slides, table rows, report entries |
| `RangeParser` | `range_parser.dfy` | `parse_slide_ranges`, including Python's `int()` literal syntax and the narrower whitespace `int()` skips |
| `Prompt` | `prompt.dfy` | the prompt of `generate_section_text`; the model call is the parameter `gen` |
| `ReportMap` | `report_map.dfy` | the insertion-ordered dict `report`, as a left fold of assignments |
| `SectionBuilder` | `section_builder.dfy` | the "Generate Report" loop: `dropna`, `slides[i - 1]`, the section key, the write-back of descriptions |
| `DocumentAssembler` | `document.dfy` | `create_word_report` and `add_caption`, producing a list of `PageBreak \| Heading \| Para \| Picture \| Caption \| Spacer` |
| `Pipeline` | `pipeline.dfy` | the loop followed by the rendering, end to end |
| `Navigation` | `navigation.dfy` | the Previous / Next slide buttons |
| `Scenarios`, `ParserScenarios` | `scenarios.dfy` | concrete instances of the promises above |

Decisions worth knowing when reading the model:

- **Aliasing.** In the script, a report entry holds references to the slide dictionaries, so
  a later row that overwrites a slide's text also changes what earlier sections render. The
  model keeps one slide store (`seq<Slide>`). Each `Entry` holds positions into that store.
  The overwrite is a functional update of the store. The document is rendered from the
  *final* store.
- **The generator.** The model call is the parameter `gen: string -> Option<string>`. `None`
  stands for the request raising, which aborts the whole action. Its answer is stripped.
- **The report dict.** The report is `Collect(trace)`, where `trace` lists the entries the
  loop produced in row order. Assigning an existing key replaces its value in place, and a
  new key is appended. This is equivalent to the interleaved loop, because building an entry
  never reads the report and any failure aborts the whole loop.
- **Printable characters.** `str.isprintable` is exact below U+0100. Above that, it rejects
  the whitespace separators, the common format characters (category Cf) and the private-use
  area; the full Unicode tables are not modelled.
- **Negative indices.** `slides[i - 1]` follows Python indexing. Index 0 selects the last
  slide. An index above the slide count, or any index into an empty deck, raises.

Quirks of the script that the model keeps:

- A token containing `-` that is not `int-int` raises; it is not skipped. Examples are
  `"-5"`, `"a-b"` and `"1-2-3"`.
- A row whose Slides cell is the empty string is kept. It produces a section with no slides.
- Headings are not trimmed when the section key is built. They are trimmed only when the
  heading is rendered, after every occurrence of the prefix is removed.
- A caption title is sanitised and stripped, but its inner whitespace is not collapsed.
- `int()` skips less whitespace than `strip()`. The ASCII separators FS, GS, RS and US (U+001C to
  U+001F) count as whitespace for `strip()`, but `int()` rejects them. So `"1\x1c-3"` raises, while
  `" 1 -3"` names slides 1 to 3.
- A page break precedes a level-1 heading only when an earlier level-1 heading was emitted.
  Level-2 sections before the first level-1 section do not count.

## Model

| member | source | states |
|---|---|---|
| RangeParser.ParseSlideRangesMeaning | ppt2doc_app.py:119-129 | the result is strictly ascending (sorted, no duplicates) and holds exactly the numbers some stripped comma-separated token names: its value if all digits, every integer from start to end if `start-end`; it fails exactly when a token holds `-` but is not two integers, naming the first such token |
| RangeParser.ParseTokensMeaning | ppt2doc_app.py:122-128 | the token loop fails exactly at the first malformed token, and otherwise adds to the accumulated set exactly the numbers the tokens name, keeping it sorted |
| RangeParser.Classify | ppt2doc_app.py:124-128 | a token is a span or raises exactly when it contains `-`; span bounds are never negative, because `-` is a separator and never a sign |
| RangeParser.Insert | ppt2doc_app.py:128 | `slides.add(k)` on the sorted list keeps it strictly ascending and adds exactly `k` |
| RangeParser.AddSpan | ppt2doc_app.py:126 | `slides.update(range(a, b + 1))` adds exactly the integers from `a` to `b`, and nothing when `a > b` |
| RangeParser.Interval | ppt2doc_app.py:126 | `range(a, b + 1)` is strictly ascending and holds exactly the integers between `a` and `b` |
| RangeParser.AscendingUnique | ppt2doc_app.py:129 | two strictly ascending lists with the same elements are equal, so `sorted(set)` is determined by the set |
| RangeParser.PyIntDigits | ppt2doc_app.py:125 | `int` of an all-digit string is its decimal value |
| RangeParser.PyIntShow | ppt2doc_app.py:125 | `int(str(n)) == n` for every natural `n` |
| RangeParser.ParseShownNumber | ppt2doc_app.py:127-128 | a cell holding the decimal form of `n` parses to `[n]` |
| RangeParser.ParseShownRange | ppt2doc_app.py:124-126 | a cell `"a-b"` parses to every integer from `a` to `b` in order, and to nothing when `a > b` |
| RangeParser.NegativeCell | ppt2doc_app.py:124-125 | a cell `"-d"` raises on that token, because `int('')` fails |
| RangeParser.ParseMalformedToken | ppt2doc_app.py:123-125 | a one-token cell whose token is malformed raises with the stripped token |
| RangeParser.WordCell | ppt2doc_app.py:127 | a one-token cell without `-` that is not all digits names no slide and raises nothing |
| RangeParser.PyIntEmpty | ppt2doc_app.py:125 | `int('')` raises |
| RangeParser.PyIntSeparator | ppt2doc_app.py:125 | `int()` rejects digits followed by an ASCII separator (U+001C to U+001F), although `strip()` would remove it and leave a valid literal |
| RangeParser.SeparatorCell | ppt2doc_app.py:122-125 | a cell `d<sep>-e` of digits with an ASCII separator after the first number raises on that token, because the separator survives `strip()` and `int()` rejects it |
| SectionBuilder.SectionKey | ppt2doc_app.py:260-263 | the key starts with `"Heading 1: "` exactly when Heading 1 is non-empty, otherwise with `"Heading 2: "`; after the prefix comes the chosen heading, untrimmed |
| SectionBuilder.Position | ppt2doc_app.py:258 | `slides[i - 1]` selects a slide exactly when `-n <= i - 1 < n`: index `i` in `1..n` selects position `i - 1`, index 0 the last slide, and an index above `n` raises |
| SectionBuilder.ResolveMeaning | ppt2doc_app.py:258 | the list comprehension succeeds exactly when every index selects a slide, and then lists the selected slides in index order; otherwise it raises on the first index that selects nothing |
| SectionBuilder.ResolveRowMeaning | ppt2doc_app.py:257-258 | a Slides cell resolves exactly when it parses and every number is between 1 and `n` or is 0 with a non-empty deck; member `k` is number `k` minus one, with 0 wrapping to the last slide; a failure names a number above `n`, or any number when the deck is empty |
| SectionBuilder.ResolveRow | ppt2doc_app.py:257-258 | every resolved member names a slide of the deck |
| SectionBuilder.Overwrite | ppt2doc_app.py:268-269 | after the write-back, every member slide has the description as its text and keeps its title and image; every other slide is unchanged |
| SectionBuilder.RunAsks | ppt2doc_app.py:253-269 | every entry's text is the stripped answer to the prompt over its member slides as they stood when its row was reached, that is, after the writes of all earlier kept rows |
| SectionBuilder.ReplayLastWrite | ppt2doc_app.py:268-269 | after a sequence of section writes, each slide holds the description of the last section that has it as a member; a slide in no section is unchanged |
| SectionBuilder.PromptSeesEarlierWrites | ppt2doc_app.py:258-269 | in the prompt for a later row, a slide shared with an earlier row shows that earlier row's generated description, from the last such row, in place of the slide's own text; a slide in no earlier row shows its own text |
| SectionBuilder.ProcessRow | ppt2doc_app.py:254-271 | a produced entry has the row's key, members inside the deck, and a description with no surrounding whitespace |
| SectionBuilder.ProcessRowTotal | ppt2doc_app.py:257-266 | with a generator that always answers, a row fails exactly when its cell does not resolve |
| SectionBuilder.Retained | ppt2doc_app.py:253 | `dropna` keeps only rows whose Slides cell is present |
| SectionBuilder.RetainedFilters | ppt2doc_app.py:253 | `dropna` keeps every present row and invents none |
| SectionBuilder.RetainedSingle | ppt2doc_app.py:253 | a single row is kept exactly when its Slides cell is present |
| SectionBuilder.RetainedConcat | ppt2doc_app.py:253 | `dropna` works row by row and keeps their order: the rows kept from `a + b` are those kept from `a`, then those kept from `b` |
| SectionBuilder.EmptyCellKept | ppt2doc_app.py:253-271 | a row whose Slides cell is `""` still produces a section, with no member slides |
| SectionBuilder.EmptyCellParses | ppt2doc_app.py:119-129 | the empty cell parses to no slide numbers |
| SectionBuilder.Run | ppt2doc_app.py:252-271 | a completed loop keeps the deck size and produces one entry per kept row |
| SectionBuilder.RunResolves | ppt2doc_app.py:253-263 | entry `j` of the loop carries kept row `j`'s key and the members its Slides cell resolves to |
| SectionBuilder.RunLastWriteWins | ppt2doc_app.py:266-269 | after the loop, a slide holds the description of the last section that contains it; a slide in no section is unchanged |
| SectionBuilder.RunSucceedsIff | ppt2doc_app.py:253-269 | with a generator that always answers, the loop completes exactly when every kept row's Slides cell resolves |
| SectionBuilder.BuildReport | ppt2doc_app.py:252-271 | the report is built exactly when the loop completes; its keys are distinct and its members name slides of the final deck |
| SectionBuilder.ReportKeys | ppt2doc_app.py:253-271 | the report's keys are exactly the section keys of the rows `dropna` keeps |
| ReportMap.Put | ppt2doc_app.py:271 | one dict assignment keeps keys distinct and makes the key present |
| ReportMap.PutEntry | ppt2doc_app.py:271 | an assignment replaces the value of an existing key in place and leaves every other position unchanged; a new key is appended at the end |
| ReportMap.CollectKeys | ppt2doc_app.py:271 | a key is in the dict exactly when some assignment used it |
| ReportMap.CollectLastWins | ppt2doc_app.py:271 | each dict entry is the last assignment made to its key |
| ReportMap.CollectOrder | ppt2doc_app.py:271 | dict entries are in the order in which their keys were first assigned |
| ReportMap.CollectedFromTrace | ppt2doc_app.py:271 | every dict value is one of the assigned values |
| DocumentAssembler.AssembleOutline | ppt2doc_app.py:134-145 | one heading per section, in report order: level 1 for a `"Heading 1: "` key, level 2 otherwise; its text is the key with the prefix replaced away, then stripped; a page break precedes it exactly when it is level 1 and an earlier section was level 1; every page break is followed by a level-1 heading |
| DocumentAssembler.AssembleParagraphs | ppt2doc_app.py:148-152 | exactly one paragraph per member slide, in section and member order, whether or not the slide has an image; its text is the sanitised, whitespace-collapsed slide text |
| DocumentAssembler.AssembleSections | ppt2doc_app.py:133-160 | the document is its sections in report order, one after another; section `i` is its own heading, preceded by a page break exactly when it is top-level and an earlier section was, then the blocks of its own member slides only, with figures numbered from 1 plus the screenshots of all earlier sections |
| DocumentAssembler.AssembleFramed | ppt2doc_app.py:154-160 | in the whole document every picture directly follows a paragraph and is directly followed by a caption and a spacer; every caption directly follows a picture and every spacer comes two places after one, so captions and spacers correspond one to one with pictures |
| DocumentAssembler.AssembleFigures | ppt2doc_app.py:133-160 | pictures are exactly the member slides that have an image, in document order; the caption of picture `i` is numbered `i + 1`, with no gaps across sections and heading levels, and carries that slide's cleaned title |
| DocumentAssembler.IllustratedMembers | ppt2doc_app.py:154 | a slide gets a picture exactly when it is a member and its image exists |
| DocumentAssembler.SlideViews | ppt2doc_app.py:148-160 | one slide contributes no heading or page break and exactly one paragraph (its cleaned text); it contributes a picture of itself and one caption (the current number and the slide's cleaned title) if and only if it has an image |
| DocumentAssembler.SlideFramed | ppt2doc_app.py:152-160 | one slide's elements open with its paragraph, and its picture, if any, is directly followed by its caption and then a spacer |
| DocumentAssembler.HeadingsAt | ppt2doc_app.py:134-140 | heading `i` is preceded by a page break exactly when it is top-level and a top-level section came before it |
| DocumentAssembler.ParaTextClean | ppt2doc_app.py:149-151 | a paragraph has no surrounding whitespace, no whitespace other than single spaces, and no two adjacent spaces; collapsing it again leaves it unchanged |
| DocumentAssembler.CaptionTitleClean | ppt2doc_app.py:157 | sanitising the caption title a second time inside `add_caption` changes nothing: the title is the sanitised and stripped slide title, all printable, with no surrounding whitespace |
| DocumentAssembler.CaptionTextReadsBack | ppt2doc_app.py:115 | the caption text is `" Figure "`, the decimal number, `": "` and the title, and the number reads back from its digits |
| Text.Sanitize | ppt2doc_app.py:35-36 | the result is no longer than the input and all printable |
| Text.SanitizeKeeps | ppt2doc_app.py:35-36 | a character occurs in the result exactly when it occurs in the input and is printable |
| Text.SanitizeConcat | ppt2doc_app.py:35-36 | the filter works character by character: sanitising a concatenation concatenates the sanitised parts, so order is kept |
| Text.SanitizePrintable | ppt2doc_app.py:35-36 | an all-printable string is left unchanged |
| Text.SanitizeIdempotent | ppt2doc_app.py:35-36 | sanitising twice is sanitising once |
| Text.Strip | ppt2doc_app.py:94 | `str.strip` leaves no whitespace at either end and never lengthens |
| Text.StripInfix | ppt2doc_app.py:123 | the stripped string is a contiguous piece of the input with only whitespace around it |
| Text.StripIdempotent | ppt2doc_app.py:157 | stripping twice is stripping once |
| Text.Split | ppt2doc_app.py:121 | `str.split(c)` yields at least one piece, and no piece contains `c` |
| Text.SplitJoin | ppt2doc_app.py:121 | joining the pieces of `s.split(c)` with `c` gives back `s` |
| Text.JoinSplit | ppt2doc_app.py:125 | splitting a `c`-join of `c`-free pieces gives back the pieces |
| Text.Words | ppt2doc_app.py:151 | `str.split()` yields non-empty words without whitespace; that they are exactly the maximal non-whitespace runs is the content of `Text.CollapseMeaning` |
| Text.WordsOfJoin | ppt2doc_app.py:151 | splitting a single-space join of words gives back the words |
| Text.Collapse | ppt2doc_app.py:151 | `" ".join(s.split())` has no surrounding whitespace, only single spaces as whitespace, and no two adjacent spaces |
| Text.CollapseIdempotent | ppt2doc_app.py:151 | collapsing twice is collapsing once |
| Text.CollapseMeaning | ppt2doc_app.py:151 | `" ".join(s.split())` equals a one-pass reading of `s`: whitespace is dropped, and exactly one space goes before each non-whitespace character that whitespace separates from an earlier one |
| Text.CollapseKeepsVisible | ppt2doc_app.py:151 | collapsing keeps every non-whitespace character, in order, and adds none |
| Text.JoinPieces | ppt2doc_app.py:71-72 | each piece of a join sits, unchanged, at its offset in the joined string |
| Text.ShowReadsBack | ppt2doc_app.py:115 | the decimal form of `n` is all digits and reads back as `n` |
| Text.RemoveAllAbsent | ppt2doc_app.py:141 | `replace(pat, "")` leaves a string without `pat` unchanged |
| Prompt.Titles | ppt2doc_app.py:72 | one sanitised title per member slide, in member order |
| Prompt.Texts | ppt2doc_app.py:71 | one sanitised text per member slide, in member order |
| Prompt.SectionPrompt | ppt2doc_app.py:74-81 | every prompt opens with the instruction quoting the presentation context |
| Prompt.PromptLayout | ppt2doc_app.py:71-81 | the prompt is the preamble, `"Titles: "`, the titles joined with single spaces, `"\n\nText: "` and the texts joined with blank lines, in that order |
| Prompt.PromptCarriesTitles | ppt2doc_app.py:72-79 | the sanitised title of member `k` appears verbatim at its offset in the titles part of the prompt |
| Prompt.PromptCarriesTexts | ppt2doc_app.py:71-79 | the sanitised text of member `k` appears verbatim at its offset in the texts part of the prompt |
| Prompt.ScriptPrompt | ppt2doc_app.py:74-79 | with the script's own wording, the prompt opens with `Using the context of '<context>'`, and the joined titles follow the instruction after `"Titles: "` |
| Prompt.PromptSuffix | ppt2doc_app.py:70-84 | the style suffix is appended exactly when the example is truthy, and it is the lead sentence followed by the example; the `section` argument does not change the prompt |
| Prompt.Describe | ppt2doc_app.py:86-94 | the description exists exactly when the generator answers the prompt built without an example, as the caller never passes one; it is that answer, stripped |
| Pipeline.GenerateReport | ppt2doc_app.py:251-273 | a document is produced exactly when the loop completes; otherwise the action aborts with the loop's error |
| Pipeline.TopHeading | ppt2doc_app.py:137-142 | a row with a non-empty Heading 1 that does not contain the `"Heading 1: "` prefix becomes a level-1 heading whose text is Heading 1, stripped |
| Pipeline.SubHeading | ppt2doc_app.py:143-145 | a row with an empty Heading 1 and a Heading 2 that does not contain the `"Heading 2: "` prefix becomes a level-2 heading whose text is Heading 2, stripped |
| Pipeline.GeneratedParagraphs | ppt2doc_app.py:251-273 | through aliasing, each paragraph of the document is the cleaned description of the last section containing that slide, even in an earlier section |
| Navigation.Previous | ppt2doc_app.py:233-234 | "Previous Slide" steps back one and stops at 0 |
| Navigation.Next | ppt2doc_app.py:235-236 | "Next Slide" steps forward one and stops at the last slide |
| Navigation.NavigateInRange | ppt2doc_app.py:233-236 | from a valid index, any sequence of presses keeps the index inside `[0, len - 1]` |
| Navigation.BackUndoesForward | ppt2doc_app.py:233-236 | below the last slide, Previous undoes Next |
| Navigation.ForwardUndoesBack | ppt2doc_app.py:233-236 | above the first slide, Next undoes Previous |
| Navigation.ForwardSteps | ppt2doc_app.py:235-236 | `k` presses of Next advance by `k`, saturating at the last slide |
| ParserScenarios.SingleNumberCell | ppt2doc_app.py:119-129 | the cell `"7"` parses to `[7]` |
| ParserScenarios.SeparatorRangeCell | ppt2doc_app.py:119-129 | the cell `"1\x1c-3"` raises, naming the token |
| Scenarios.SlideZeroIsLast | ppt2doc_app.py:258 | in five slides, index 0 and index 5 both select the last slide, index 6 raises, and any index into an empty deck raises |
| Scenarios.KeyPrefersHeading1 | ppt2doc_app.py:260-263 | a row with both headings is keyed by Heading 1; a row with an empty Heading 1 is keyed by Heading 2 |
| Scenarios.HeadingDropsInnerPrefix | ppt2doc_app.py:141 | the key `"Heading 1: A Heading 1: B"` becomes the heading `"A B"`: every occurrence of the prefix is removed, not only the leading one |
| Scenarios.NextStopsAtLast | ppt2doc_app.py:233-236 | in two slides, three presses of Next stop at the last slide and two presses of Previous stop at the first |
| Records.MembersOf | ppt2doc_app.py:258 | the member slides are the store's slides at the resolved positions, in order |

## Left out

- The Streamlit interface is left out: uploads, session state, the editable table, buttons and the download. The rows, the slides and the presentation context are inputs of the model.
- The OpenAI request is the parameter `gen`. The system message, the model name and the token limit are not modelled.
- PDF rasterisation, image cropping and saving, and the images directory are left out. They are file and image work.
- python-pptx text extraction and the pairing of texts with screenshots are left out. Slides are taken as given records.
- The Word XML of `add_caption` (the `SEQ Figure` field) and `doc.save` are left out. A caption is the element `Caption(n, title)`, and its visible text is `CaptionText`.
- The optional Word template is left out. It does not change which elements are emitted.
- `os.path.exists` is the field `hasImage` of each slide. The `PATH` mutation for the image tools is environment set-up and is left out.
- Text.IsPrintable: agrees with `str.isprintable` below U+0100 only. Above that it recognises the whitespace separators, the common format characters and the private-use area, not the full Unicode category tables.
- RangeParser.PyIntDigits: `int()` and `str.isdigit` are modelled for ASCII digits only. Python's `isdigit` also accepts other Unicode digits, some of which `int()` then rejects, and `int()` accepts other Unicode decimal digits.
- A NaN in the Heading 1 or Heading 2 cell is not modelled. The table starts with empty strings, and the model takes every heading cell as a string.
