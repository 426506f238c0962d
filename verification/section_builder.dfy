/** The "Generate Report" loop: every kept row of the section table is
    resolved to slides, described by the text generator, written back into its
    slides, and recorded in the report under its heading key. */
module SectionBuilder {
  import opened Results
  import opened Text
  import opened Records
  import opened RangeParser
  import opened Prompt
  import opened ReportMap

  /** The report key of a row: the Heading 1 cell when it is non-empty,
      otherwise the Heading 2 cell, each behind its prefix and untrimmed. */
  function SectionKey(row: Row): (key: string)
    ensures StartsWith(key, Heading1Prefix) <==> row.heading1 != ""
    ensures StartsWith(key, Heading2Prefix) <==> row.heading1 == ""
    ensures key[|Heading1Prefix|..] == if row.heading1 != "" then row.heading1 else row.heading2
  {
    var key := if row.heading1 != "" then Heading1Prefix + row.heading1 else Heading2Prefix + row.heading2;
    assert key[..11] == (if row.heading1 != "" then Heading1Prefix else Heading2Prefix);
    assert Heading1Prefix[8] != Heading2Prefix[8];
    key
  }

  /** The slide `slides[i - 1]` selects in a list of `n` slides, as a position
      in `0 .. n - 1`: Python counts a negative index from the end, so the
      index 0 selects the last slide. `None` is the IndexError. */
  function Position(i: int, n: nat): (p: Option<nat>)
    ensures p.Some? <==> -(n as int) <= i - 1 < n
    ensures p.Some? ==> p.value < n && (p.value == i - 1 || p.value == i - 1 + n)
    ensures 1 <= i <= n ==> p == Some(i - 1)
    ensures i == 0 && n > 0 ==> p == Some(n - 1)
    ensures i > n ==> p.None?
  {
    if 0 <= i - 1 < n then Some(i - 1)
    else if -(n as int) <= i - 1 < 0 then Some(i - 1 + n)
    else None
  }

  /** `[slides[i - 1] for i in indices]` as positions: the first index that
      selects nothing aborts with its value. */
  function Resolve(indices: seq<int>, n: nat): Result<seq<nat>>
    decreases |indices|
  {
    if indices == [] then Success([])
    else match Position(indices[0], n)
      case None => Failure(SlideIndexOutOfRange(indices[0]))
      case Some(p) =>
        var rest :- Resolve(indices[1..], n);
        Success([p] + rest)
  }

  /** Resolution succeeds exactly when every index selects a slide, and then
      lists, in order, the slide each index selects; otherwise the error
      carries the first index that selects nothing. */
  lemma {:induction false} ResolveMeaning(indices: seq<int>, n: nat)
    ensures Resolve(indices, n).Success? <==> forall k :: 0 <= k < |indices| ==> Position(indices[k], n).Some?
    ensures Resolve(indices, n).Success? ==> (|Resolve(indices, n).value| == |indices| &&
      forall k :: 0 <= k < |indices| ==> Position(indices[k], n) == Some(Resolve(indices, n).value[k]))
    ensures Resolve(indices, n).Failure? ==>
      exists k :: 0 <= k < |indices| && Position(indices[k], n).None? &&
        Resolve(indices, n).error == SlideIndexOutOfRange(indices[k]) &&
        forall j :: 0 <= j < k ==> Position(indices[j], n).Some?
    decreases |indices|
  {
    if indices != [] && Position(indices[0], n).Some? {
      ResolveMeaning(indices[1..], n);
      assert forall k :: 0 < k < |indices| ==> indices[k] == indices[1..][k - 1];
      if Resolve(indices[1..], n).Failure? {
        var k :| 0 <= k < |indices[1..]| && Position(indices[1..][k], n).None? &&
          Resolve(indices[1..], n).error == SlideIndexOutOfRange(indices[1..][k]) &&
          forall j :: 0 <= j < k ==> Position(indices[1..][j], n).Some?;
        assert Position(indices[k + 1], n).None?;
      }
    }
  }

  /** The member positions of a row whose Slides cell is `cell`, in a deck of
      `n` slides. */
  function ResolveRow(cell: string, n: nat): (r: Result<seq<nat>>)
    ensures r.Success? ==> forall k :: 0 <= k < |r.value| ==> r.value[k] < n
  {
    var indices :- ParseSlideRanges(cell);
    ResolveMeaning(indices, n);
    Resolve(indices, n)
  }

  /** A row resolves exactly when its cell parses and every index names a
      slide: at most `n`, and the deck is non-empty. Index `i` selects
      position `i - 1`, except that 0 selects the last slide; otherwise the
      error carries an index that selects nothing. */
  lemma ResolveRowMeaning(cell: string, n: nat)
    ensures ResolveRow(cell, n).Success? <==> (ParseSlideRanges(cell).Success? &&
      forall k :: 0 <= k < |ParseSlideRanges(cell).value| ==> 0 < n && ParseSlideRanges(cell).value[k] <= n)
    ensures ResolveRow(cell, n).Success? ==> (|ResolveRow(cell, n).value| == |ParseSlideRanges(cell).value| &&
      forall k :: 0 <= k < |ResolveRow(cell, n).value| ==>
        ResolveRow(cell, n).value[k] == (if ParseSlideRanges(cell).value[k] == 0 then n - 1 else ParseSlideRanges(cell).value[k] - 1))
    ensures ResolveRow(cell, n).Failure? && ParseSlideRanges(cell).Success? ==> (
      ResolveRow(cell, n).error.SlideIndexOutOfRange? &&
      ResolveRow(cell, n).error.index in ParseSlideRanges(cell).value &&
      (n == 0 || ResolveRow(cell, n).error.index > n))
  {
    var p := ParseSlideRanges(cell);
    if p.Success? {
      ParseSlideRangesMeaning(cell);
      ResolveNonNegative(p.value, n);
    }
  }

  /** `ResolveRowMeaning` for a list of non-negative indices. */
  lemma ResolveNonNegative(indices: seq<int>, n: nat)
    requires forall k :: 0 <= k < |indices| ==> indices[k] >= 0
    ensures Resolve(indices, n).Success? <==> forall k :: 0 <= k < |indices| ==> 0 < n && indices[k] <= n
    ensures Resolve(indices, n).Success? ==> (|Resolve(indices, n).value| == |indices| &&
      forall k :: 0 <= k < |indices| ==>
        Resolve(indices, n).value[k] == (if indices[k] == 0 then n - 1 else indices[k] - 1))
    ensures Resolve(indices, n).Failure? ==> (
      Resolve(indices, n).error.SlideIndexOutOfRange? &&
      Resolve(indices, n).error.index in indices &&
      (n == 0 || Resolve(indices, n).error.index > n))
  {
    ResolveMeaning(indices, n);
    var r := Resolve(indices, n);
    if r.Failure? {
      var k :| 0 <= k < |indices| && Position(indices[k], n).None? && r.error == SlideIndexOutOfRange(indices[k]);
      assert indices[k] >= 0;
    }
  }

  /** `for slide in slide_content: slide["text"] = description`, on the shared
      store: every member gets the text, every other slide is unchanged. */
  function Overwrite(store: seq<Slide>, ms: seq<nat>, text: string): (r: seq<Slide>)
    requires forall k :: 0 <= k < |ms| ==> ms[k] < |store|
    ensures |r| == |store|
    ensures forall p :: 0 <= p < |store| ==> r[p] == if p in ms then store[p].(text := text) else store[p]
    decreases |ms|
  {
    if ms == [] then store
    else
      var s1 := store[ms[0] := store[ms[0]].(text := text)];
      var r := Overwrite(s1, ms[1..], text);
      assert forall p :: p in ms <==> p == ms[0] || p in ms[1..];
      r
  }

  /** One row of the loop: resolve its slides against the current store, ask
      the generator for a description of them, and make the report entry,
      whose text has no surrounding whitespace. */
  function ProcessRow(w: Wording, row: Row, store: seq<Slide>, ctx: string, gen: string -> Option<string>): (r: Result<Entry>)
    requires row.slides.Some?
    ensures r.Success? ==> r.value.key == SectionKey(row)
    ensures r.Success? ==> forall k :: 0 <= k < |r.value.members| ==> r.value.members[k] < |store|
    ensures r.Success? ==> r.value.text == [] || (!IsSpace(r.value.text[0]) && !IsSpace(r.value.text[|r.value.text| - 1]))
  {
    var ms :- ResolveRow(row.slides.value, |store|);
    var key := SectionKey(row);
    match Describe(w, MembersOf(store, ms), key, ctx, gen)
    case None => Failure(SynthesisFailed(key))
    case Some(text) => Success(Entry(key, text, ms))
  }

  /** A processed row's members are its cell's resolution. */
  lemma ProcessRowMembers(w: Wording, row: Row, store: seq<Slide>, ctx: string, gen: string -> Option<string>)
    requires row.slides.Some? && ProcessRow(w, row, store, ctx, gen).Success?
    ensures ResolveRow(row.slides.value, |store|) == Success(ProcessRow(w, row, store, ctx, gen).value.members)
  {
  }

  /** With a generator that always answers, a row fails exactly when its cell
      does not resolve. */
  lemma ProcessRowTotal(w: Wording, row: Row, store: seq<Slide>, ctx: string, gen: string -> Option<string>)
    requires row.slides.Some? && forall prompt :: gen(prompt).Some?
    ensures ProcessRow(w, row, store, ctx, gen).Success? <==> ResolveRow(row.slides.value, |store|).Success?
  {
  }

  /** The rows that survive `dropna(subset=["Slides"])`, in order. */
  function Retained(rows: seq<Row>): (kept: seq<Row>)
    ensures |kept| <= |rows|
    ensures forall k :: 0 <= k < |kept| ==> kept[k].slides.Some?
  {
    if rows == [] then []
    else if rows[0].slides.None? then Retained(rows[1..])
    else [rows[0]] + Retained(rows[1..])
  }

  /** `Retained` drops exactly the rows whose Slides cell is missing: every
      kept row is a row of the table, and every row with a cell is kept. */
  lemma {:induction false} RetainedFilters(rows: seq<Row>)
    ensures forall k :: 0 <= k < |Retained(rows)| ==> Retained(rows)[k] in rows
    ensures forall k :: 0 <= k < |rows| && rows[k].slides.Some? ==> rows[k] in Retained(rows)
  {
    if rows != [] {
      RetainedFilters(rows[1..]);
      assert forall k :: 0 < k < |rows| ==> rows[k] == rows[1..][k - 1];
      assert forall x :: x in rows[1..] ==> x in rows;
    }
  }

  /** `dropna` decides row by row: a single row is kept exactly when its Slides
      cell is present. */
  lemma RetainedSingle(r: Row)
    ensures Retained([r]) == if r.slides.Some? then [r] else []
  {
    assert [r][1..] == [];
  }

  /** `dropna` keeps the order of the rows: the rows kept from two tables in
      turn are those kept from the first, then those kept from the second. */
  lemma {:induction false} RetainedConcat(a: seq<Row>, b: seq<Row>)
    ensures Retained(a + b) == Retained(a) + Retained(b)
    decreases |a|
  {
    if a == [] {
      assert a + b == b;
    } else {
      assert (a + b)[0] == a[0];
      assert (a + b)[1..] == a[1..] + b;
      RetainedConcat(a[1..], b);
    }
  }

  /** What the loop produced: the entries in the order they were assigned, and
      the slide store after all overwrites. */
  datatype Pass = Pass(trace: seq<Entry>, store: seq<Slide>)

  /** The loop over the rows. Each row sees the store as earlier rows left it.
      There is one entry per kept row, and the store keeps its size. */
  function Run(w: Wording, rows: seq<Row>, store: seq<Slide>, ctx: string, gen: string -> Option<string>): (r: Result<Pass>)
    ensures r.Success? ==> |r.value.store| == |store| && |r.value.trace| == |Retained(rows)|
    decreases |rows|
  {
    if rows == [] then Success(Pass([], store))
    else if rows[0].slides.None? then Run(w, rows[1..], store, ctx, gen)
    else
      var e :- ProcessRow(w, rows[0], store, ctx, gen);
      var rest :- Run(w, rows[1..], Overwrite(store, e.members, e.text), ctx, gen);
      Success(Pass([e] + rest.trace, rest.store))
  }

  /** One step of the loop on a kept row: it succeeds when the row does and
      the remaining rows do, on the store with this row's text written in;
      its entries are this row's entry followed by theirs. */
  lemma RunStep(w: Wording, rows: seq<Row>, store: seq<Slide>, ctx: string, gen: string -> Option<string>)
    requires rows != [] && rows[0].slides.Some?
    ensures Run(w, rows, store, ctx, gen).Success? <==>
      ProcessRow(w, rows[0], store, ctx, gen).Success? &&
      Run(w, rows[1..], Overwrite(store, ProcessRow(w, rows[0], store, ctx, gen).value.members,
                                  ProcessRow(w, rows[0], store, ctx, gen).value.text), ctx, gen).Success?
    ensures Run(w, rows, store, ctx, gen).Success? ==>
      var e := ProcessRow(w, rows[0], store, ctx, gen).value;
      var rest := Run(w, rows[1..], Overwrite(store, e.members, e.text), ctx, gen).value;
      Run(w, rows, store, ctx, gen).value == Pass([e] + rest.trace, rest.store)
  {
    var pr := ProcessRow(w, rows[0], store, ctx, gen);
    if pr.Success? {
      RunKeptRow(w, rows, store, ctx, gen, pr.value);
    }
  }

  lemma RunKeptRow(w: Wording, rows: seq<Row>, store: seq<Slide>, ctx: string, gen: string -> Option<string>, e: Entry)
    requires rows != [] && rows[0].slides.Some?
    requires ProcessRow(w, rows[0], store, ctx, gen) == Success(e)
    ensures Run(w, rows, store, ctx, gen).Success? <==>
      Run(w, rows[1..], Overwrite(store, e.members, e.text), ctx, gen).Success?
    ensures Run(w, rows, store, ctx, gen).Success? ==>
      var rest := Run(w, rows[1..], Overwrite(store, e.members, e.text), ctx, gen).value;
      Run(w, rows, store, ctx, gen).value == Pass([e] + rest.trace, rest.store)
  {
  }

  /** Entry `j` of the trace is kept row `j`'s: it is filed under that row's
      key and has the members the row's Slides cell resolves to in a deck of
      `n` slides. */
  ghost predicate TraceResolves(kept: seq<Row>, trace: seq<Entry>, n: nat) {
    |kept| == |trace| &&
    forall j :: 0 <= j < |trace| ==>
      kept[j].slides.Some? && trace[j].key == SectionKey(kept[j]) &&
      ResolveRow(kept[j].slides.value, n) == Success(trace[j].members)
  }

  /** Entry `j` is made from kept row `j`: it has that row's key, and its
      members are what the row's Slides cell resolves to. The deck never
      changes size, so every row resolves against the same count. */
  lemma {:induction false} RunResolves(w: Wording, rows: seq<Row>, store: seq<Slide>, ctx: string, gen: string -> Option<string>)
    requires Run(w, rows, store, ctx, gen).Success?
    ensures TraceResolves(Retained(rows), Run(w, rows, store, ctx, gen).value.trace, |store|)
    decreases |rows|
  {
    if rows != [] {
      if rows[0].slides.None? {
        assert Retained(rows) == Retained(rows[1..]);
        RunResolves(w, rows[1..], store, ctx, gen);
      } else {
        RunStep(w, rows, store, ctx, gen);
        ProcessRowMembers(w, rows[0], store, ctx, gen);
        var e := ProcessRow(w, rows[0], store, ctx, gen).value;
        var s1 := Overwrite(store, e.members, e.text);
        RunResolves(w, rows[1..], s1, ctx, gen);
        assert Retained(rows) == [rows[0]] + Retained(rows[1..]);
        ResolvesStep(rows[0], Retained(rows[1..]), e, Run(w, rows[1..], s1, ctx, gen).value.trace, |store|);
      }
    } else {
      assert Retained(rows) == [];
    }
  }

  lemma ResolvesStep(row: Row, kept: seq<Row>, e: Entry, trace: seq<Entry>, n: nat)
    requires row.slides.Some? && e.key == SectionKey(row) && ResolveRow(row.slides.value, n) == Success(e.members)
    requires TraceResolves(kept, trace, n)
    ensures TraceResolves([row] + kept, [e] + trace, n)
  {
    var ks, ts := [row] + kept, [e] + trace;
    forall j | 0 <= j < |ts|
      ensures ks[j].slides.Some? && ts[j].key == SectionKey(ks[j]) &&
        ResolveRow(ks[j].slides.value, n) == Success(ts[j].members)
    {
      if j > 0 {
        assert ks[j] == kept[j - 1] && ts[j] == trace[j - 1];
      }
    }
  }

  /** Slide `p` is a member of entry `j` and of no later entry. */
  predicate LastCover(trace: seq<Entry>, p: nat, j: nat) {
    j < |trace| && p in trace[j].members && forall k :: j < k < |trace| ==> p !in trace[k].members
  }

  /** Slide `p` is a member of no entry. */
  predicate Uncovered(trace: seq<Entry>, p: nat) {
    forall k :: 0 <= k < |trace| ==> p !in trace[k].members
  }

  /** Last write wins: after the loop, a slide holds the description of the
      last section it was placed in, and a slide placed in no section is as it
      was; in particular titles and images never change. */
  lemma {:induction false} RunLastWriteWins(w: Wording, rows: seq<Row>, store: seq<Slide>, ctx: string, gen: string -> Option<string>)
    requires Run(w, rows, store, ctx, gen).Success?
    ensures forall p :: 0 <= p < |store| && Uncovered(Run(w, rows, store, ctx, gen).value.trace, p) ==>
      Run(w, rows, store, ctx, gen).value.store[p] == store[p]
    ensures forall p, j :: 0 <= p < |store| && 0 <= j && LastCover(Run(w, rows, store, ctx, gen).value.trace, p, j) ==>
      Run(w, rows, store, ctx, gen).value.store[p] == store[p].(text := Run(w, rows, store, ctx, gen).value.trace[j].text)
    decreases |rows|
  {
    if rows != [] {
      if rows[0].slides.None? {
        RunLastWriteWins(w, rows[1..], store, ctx, gen);
      } else {
        RunStep(w, rows, store, ctx, gen);
        var e := ProcessRow(w, rows[0], store, ctx, gen).value;
        var s1 := Overwrite(store, e.members, e.text);
        var rest := Run(w, rows[1..], s1, ctx, gen).value;
        RunLastWriteWins(w, rows[1..], s1, ctx, gen);
        LastWriteStep(store, e, s1, rest.trace, rest.store);
      }
    }
  }

  /** The induction step of `RunLastWriteWins`, apart from the loop: writing
      entry `e` and then the rest of the trace. */
  lemma LastWriteStep(store: seq<Slide>, e: Entry, s1: seq<Slide>, trace: seq<Entry>, final: seq<Slide>)
    requires |s1| == |store|
    requires forall p :: 0 <= p < |store| ==> s1[p] == if p in e.members then store[p].(text := e.text) else store[p]
    requires |final| == |store|
    requires forall p :: 0 <= p < |s1| && Uncovered(trace, p) ==> final[p] == s1[p]
    requires forall p, j :: 0 <= p < |s1| && 0 <= j && LastCover(trace, p, j) ==> final[p] == s1[p].(text := trace[j].text)
    ensures forall p :: 0 <= p < |store| && Uncovered([e] + trace, p) ==> final[p] == store[p]
    ensures forall p, j :: 0 <= p < |store| && 0 <= j && LastCover([e] + trace, p, j) ==>
      final[p] == store[p].(text := ([e] + trace)[j].text)
  {
    forall p | 0 <= p < |store| && Uncovered([e] + trace, p)
      ensures final[p] == store[p]
    {
      CoverStep(e, trace, p, 0);
    }
    forall p, j | 0 <= p < |store| && 0 <= j && LastCover([e] + trace, p, j)
      ensures final[p] == store[p].(text := ([e] + trace)[j].text)
    {
      CoverStep(e, trace, p, j);
    }
  }

  /** How coverage by `[e] + trace` splits into `e` and `trace`. */
  lemma CoverStep(e: Entry, trace: seq<Entry>, p: nat, j: nat)
    ensures Uncovered([e] + trace, p) ==> p !in e.members && Uncovered(trace, p)
    ensures LastCover([e] + trace, p, j) && j == 0 ==> p in e.members && Uncovered(trace, p)
    ensures LastCover([e] + trace, p, j) && j > 0 ==> LastCover(trace, p, j - 1) && ([e] + trace)[j] == trace[j - 1]
  {
    var all := [e] + trace;
    assert all[0] == e;
    assert forall k :: 0 <= k < |trace| ==> all[k + 1] == trace[k];
  }

  // ---------------------------------------------------------------------
  // What each row's prompt saw
  // ---------------------------------------------------------------------

  /** `store` with entry `e`'s description written into its member slides;
      positions outside the store are ignored. */
  function Written(store: seq<Slide>, e: Entry): (r: seq<Slide>)
    ensures |r| == |store|
  {
    seq(|store|, p requires 0 <= p < |store| => if p in e.members then store[p].(text := e.text) else store[p])
  }

  /** Within the store, writing an entry is the loop's overwrite. */
  lemma WrittenIsOverwrite(store: seq<Slide>, e: Entry)
    requires forall k :: 0 <= k < |e.members| ==> e.members[k] < |store|
    ensures Written(store, e) == Overwrite(store, e.members, e.text)
  {
  }

  /** The store once the entries of `trace` are written into it in order. */
  function Replay(store: seq<Slide>, trace: seq<Entry>): (r: seq<Slide>)
    ensures |r| == |store|
    decreases |trace|
  {
    if trace == [] then store else Replay(Written(store, trace[0]), trace[1..])
  }

  /** Replaying a trace leaves every slide with the description of the last
      entry that has it as a member, and any other slide as it was. */
  lemma {:induction false} ReplayLastWrite(store: seq<Slide>, trace: seq<Entry>)
    ensures forall p :: 0 <= p < |store| && Uncovered(trace, p) ==> Replay(store, trace)[p] == store[p]
    ensures forall p, j :: 0 <= p < |store| && 0 <= j && LastCover(trace, p, j) ==>
      Replay(store, trace)[p] == store[p].(text := trace[j].text)
    decreases |trace|
  {
    if trace != [] {
      var e, s1 := trace[0], Written(store, trace[0]);
      ReplayLastWrite(s1, trace[1..]);
      assert [e] + trace[1..] == trace;
      LastWriteStep(store, e, s1, trace[1..], Replay(store, trace));
    }
  }

  /** Entry `e` holds the stripped answer the generator gave when asked the
      prompt over its member slides as they stood in `before`. */
  ghost predicate AskedAbout(w: Wording, ctx: string, gen: string -> Option<string>, before: seq<Slide>, e: Entry) {
    && (forall k :: 0 <= k < |e.members| ==> e.members[k] < |before|)
    && gen(BasePrompt(w, MembersOf(before, e.members), ctx)).Some?
    && e.text == Strip(gen(BasePrompt(w, MembersOf(before, e.members), ctx)).value)
  }

  /** Each row is described from the store as the earlier rows left it: entry
      `j` is the stripped answer to the prompt over its members as they stand
      once entries `0 .. j - 1` are written. */
  lemma {:induction false} RunAsks(w: Wording, rows: seq<Row>, store: seq<Slide>, ctx: string, gen: string -> Option<string>)
    requires Run(w, rows, store, ctx, gen).Success?
    ensures forall j :: 0 <= j < |Run(w, rows, store, ctx, gen).value.trace| ==>
      AskedAbout(w, ctx, gen, Replay(store, Run(w, rows, store, ctx, gen).value.trace[..j]),
                 Run(w, rows, store, ctx, gen).value.trace[j])
    decreases |rows|
  {
    if rows != [] {
      if rows[0].slides.None? {
        RunAsks(w, rows[1..], store, ctx, gen);
      } else {
        RunStep(w, rows, store, ctx, gen);
        var e := ProcessRow(w, rows[0], store, ctx, gen).value;
        var s1 := Overwrite(store, e.members, e.text);
        RunAsks(w, rows[1..], s1, ctx, gen);
        ProcessRowAsks(w, rows[0], store, ctx, gen);
        WrittenIsOverwrite(store, e);
        AskedStep(w, ctx, gen, store, e, Run(w, rows[1..], s1, ctx, gen).value.trace);
      }
    }
  }

  /** A processed row asked the generator about its members as `store` holds
      them. */
  lemma ProcessRowAsks(w: Wording, row: Row, store: seq<Slide>, ctx: string, gen: string -> Option<string>)
    requires row.slides.Some? && ProcessRow(w, row, store, ctx, gen).Success?
    ensures AskedAbout(w, ctx, gen, store, ProcessRow(w, row, store, ctx, gen).value)
  {
  }

  /** The induction step of `RunAsks`, apart from the loop. */
  lemma AskedStep(w: Wording, ctx: string, gen: string -> Option<string>, store: seq<Slide>, e: Entry, trace: seq<Entry>)
    requires AskedAbout(w, ctx, gen, store, e)
    requires forall j :: 0 <= j < |trace| ==> AskedAbout(w, ctx, gen, Replay(Written(store, e), trace[..j]), trace[j])
    ensures forall j :: 0 <= j < |[e] + trace| ==> AskedAbout(w, ctx, gen, Replay(store, ([e] + trace)[..j]), ([e] + trace)[j])
  {
    var all := [e] + trace;
    forall j | 0 <= j < |all|
      ensures AskedAbout(w, ctx, gen, Replay(store, all[..j]), all[j])
    {
      if j == 0 {
        assert all[..j] == [];
      } else {
        ReplayStep(store, e, trace, j);
        assert all[j] == trace[j - 1];
      }
    }
  }

  /** Replaying the first `j` entries of `[e] + trace` is replaying the first
      `j - 1` of `trace` once `e` is written. */
  lemma ReplayStep(store: seq<Slide>, e: Entry, trace: seq<Entry>, j: nat)
    requires 0 < j <= |trace| + 1
    ensures Replay(store, ([e] + trace)[..j]) == Replay(Written(store, e), trace[..j - 1])
  {
    var pre := ([e] + trace)[..j];
    assert pre[0] == e && pre[1..] == trace[..j - 1];
  }

  /** The prompt that produced entry `e` shows member `k`'s text as `text`,
      sanitised, at that member's place among the texts. */
  ghost predicate PromptShowsText(w: Wording, ctx: string, before: seq<Slide>, e: Entry, k: nat, text: string)
    requires forall i :: 0 <= i < |e.members| ==> e.members[i] < |before|
    requires k < |e.members|
  {
    var members := MembersOf(before, e.members);
    SliceAt(BasePrompt(w, members, ctx), TextsStart(w, members, ctx) + Offset(Texts(members), TextSep, k), Sanitize(text))
  }

  /** A slide shared by several rows is described from what the earlier rows
      wrote: in the prompt for kept row `j`, member slide `p` shows the
      description of the last earlier row that has it as a member, or the
      slide's own text if no earlier row has it. */
  lemma PromptSeesEarlierWrites(w: Wording, rows: seq<Row>, store: seq<Slide>, ctx: string, gen: string -> Option<string>, j: nat, k: nat)
    requires Run(w, rows, store, ctx, gen).Success?
    requires j < |Run(w, rows, store, ctx, gen).value.trace|
    requires k < |Run(w, rows, store, ctx, gen).value.trace[j].members|
    ensures var trace := Run(w, rows, store, ctx, gen).value.trace;
      AskedAbout(w, ctx, gen, Replay(store, trace[..j]), trace[j])
    ensures var trace := Run(w, rows, store, ctx, gen).value.trace;
      var p := trace[j].members[k];
      Uncovered(trace[..j], p) ==> PromptShowsText(w, ctx, Replay(store, trace[..j]), trace[j], k, store[p].text)
    ensures var trace := Run(w, rows, store, ctx, gen).value.trace;
      var p := trace[j].members[k];
      forall i :: 0 <= i < j && LastCover(trace[..j], p, i) ==>
        PromptShowsText(w, ctx, Replay(store, trace[..j]), trace[j], k, trace[i].text)
  {
    var trace := Run(w, rows, store, ctx, gen).value.trace;
    var before := Replay(store, trace[..j]);
    RunAsks(w, rows, store, ctx, gen);
    assert AskedAbout(w, ctx, gen, before, trace[j]);
    ReplayLastWrite(store, trace[..j]);
    PromptShowsMember(w, ctx, before, trace[j], k);
  }

  /** Member `k`'s text, as `before` holds it, is in the prompt. */
  lemma PromptShowsMember(w: Wording, ctx: string, before: seq<Slide>, e: Entry, k: nat)
    requires forall i :: 0 <= i < |e.members| ==> e.members[i] < |before|
    requires k < |e.members|
    ensures PromptShowsText(w, ctx, before, e, k, before[e.members[k]].text)
  {
    var members := MembersOf(before, e.members);
    PromptCarriesTexts(w, members, "", ctx, None);
    assert SectionPrompt(w, members, "", ctx, None) == BasePrompt(w, members, ctx);
  }

  /** Every row that has a Slides cell resolves in a deck of `n` slides. */
  ghost predicate AllRowsResolve(rows: seq<Row>, n: nat) {
    forall k :: 0 <= k < |rows| && rows[k].slides.Some? ==> ResolveRow(rows[k].slides.value, n).Success?
  }

  lemma AllRowsResolveStep(rows: seq<Row>, n: nat)
    requires rows != []
    ensures AllRowsResolve(rows, n) <==>
      (rows[0].slides.Some? ==> ResolveRow(rows[0].slides.value, n).Success?) && AllRowsResolve(rows[1..], n)
  {
    if AllRowsResolve(rows, n) {
      forall k | 0 <= k < |rows[1..]| && rows[1..][k].slides.Some?
        ensures ResolveRow(rows[1..][k].slides.value, n).Success?
      {
        assert rows[1..][k] == rows[k + 1];
      }
    }
    if (rows[0].slides.Some? ==> ResolveRow(rows[0].slides.value, n).Success?) && AllRowsResolve(rows[1..], n) {
      forall k | 0 < k < |rows| && rows[k].slides.Some?
        ensures ResolveRow(rows[k].slides.value, n).Success?
      {
        assert rows[1..][k - 1] == rows[k];
      }
    }
  }

  /** With a generator that always answers, the loop succeeds exactly when
      every kept row's Slides cell parses and names only existing slides. */
  lemma {:induction false} RunSucceedsIff(w: Wording, rows: seq<Row>, store: seq<Slide>, ctx: string, gen: string -> Option<string>)
    requires forall prompt :: gen(prompt).Some?
    ensures Run(w, rows, store, ctx, gen).Success? <==> AllRowsResolve(rows, |store|)
    decreases |rows|
  {
    if rows != [] {
      AllRowsResolveStep(rows, |store|);
      if rows[0].slides.None? {
        RunSucceedsIff(w, rows[1..], store, ctx, gen);
      } else {
        RunStep(w, rows, store, ctx, gen);
        ProcessRowTotal(w, rows[0], store, ctx, gen);
        if ResolveRow(rows[0].slides.value, |store|).Success? {
          var e := ProcessRow(w, rows[0], store, ctx, gen).value;
          RunSucceedsIff(w, rows[1..], Overwrite(store, e.members, e.text), ctx, gen);
        }
      }
    }
  }

  /** A row whose Slides cell is the empty string is not dropped: it yields a
      section with no member slides. */
  lemma EmptyCellKept(w: Wording, row: Row, store: seq<Slide>, ctx: string, gen: string -> Option<string>)
    requires row.slides == Some("")
    requires gen(BasePrompt(w, [], ctx)).Some?
    ensures ProcessRow(w, row, store, ctx, gen) ==
      Success(Entry(SectionKey(row), Strip(gen(BasePrompt(w, [], ctx)).value), []))
  {
    EmptyCellResolves(|store|);
    assert MembersOf(store, []) == [];
  }

  lemma EmptyCellResolves(n: nat)
    ensures ResolveRow("", n) == Success([])
  {
    EmptyCellParses();
  }

  lemma EmptyCellParses()
    ensures ParseSlideRanges("") == Success([])
  {
    assert Strip("") == "";
    WordCell("");
  }

  /** The finished report and the slide store it refers to. */
  datatype Built = Built(report: seq<Entry>, store: seq<Slide>)

  /** The whole "Generate Report" action up to the document: run the loop and
      keep one entry per key. */
  function BuildReport(w: Wording, rows: seq<Row>, store: seq<Slide>, ctx: string, gen: string -> Option<string>): (r: Result<Built>)
    ensures r.Success? <==> Run(w, rows, store, ctx, gen).Success?
    ensures r.Success? ==> DistinctKeys(r.value.report) && |r.value.store| == |store|
    ensures r.Success? ==> MembersWithin(r.value.report, |r.value.store|)
  {
    var pass :- Run(w, rows, store, ctx, gen);
    RunResolves(w, rows, store, ctx, gen);
    assert MembersWithin(pass.trace, |store|);
    CollectWithin(pass.trace, |store|);
    Success(Built(Collect(pass.trace), pass.store))
  }

  /** The report has a section for exactly the keys of the rows that have a
      Slides cell. */
  lemma ReportKeys(w: Wording, rows: seq<Row>, store: seq<Slide>, ctx: string, gen: string -> Option<string>)
    requires BuildReport(w, rows, store, ctx, gen).Success?
    ensures forall key :: HasKey(BuildReport(w, rows, store, ctx, gen).value.report, key) <==>
      exists k :: 0 <= k < |rows| && rows[k].slides.Some? && SectionKey(rows[k]) == key
  {
    var trace := Run(w, rows, store, ctx, gen).value.trace;
    assert BuildReport(w, rows, store, ctx, gen).value.report == Collect(trace);
    RunResolves(w, rows, store, ctx, gen);
    CollectKeys(trace);
    RetainedFilters(rows);
    KeptKeys(rows, Retained(rows), trace);
  }

  /** A trace keyed by the kept rows has the keys of the rows that have a
      Slides cell. */
  lemma KeptKeys(rows: seq<Row>, kept: seq<Row>, trace: seq<Entry>)
    requires |trace| == |kept|
    requires forall j :: 0 <= j < |trace| ==> trace[j].key == SectionKey(kept[j])
    requires forall j :: 0 <= j < |kept| ==> kept[j].slides.Some? && kept[j] in rows
    requires forall k :: 0 <= k < |rows| && rows[k].slides.Some? ==> rows[k] in kept
    ensures forall key :: HasKey(trace, key) <==>
      exists k :: 0 <= k < |rows| && rows[k].slides.Some? && SectionKey(rows[k]) == key
  {
    forall key
      ensures HasKey(trace, key) <==> exists k :: 0 <= k < |rows| && rows[k].slides.Some? && SectionKey(rows[k]) == key
    {
      if HasKey(trace, key) {
        var j :| 0 <= j < |trace| && trace[j].key == key;
        var k :| 0 <= k < |rows| && rows[k] == kept[j];
        assert rows[k].slides.Some? && SectionKey(rows[k]) == key;
      }
      if exists k :: 0 <= k < |rows| && rows[k].slides.Some? && SectionKey(rows[k]) == key {
        var k :| 0 <= k < |rows| && rows[k].slides.Some? && SectionKey(rows[k]) == key;
        var j :| 0 <= j < |kept| && kept[j] == rows[k];
        assert trace[j].key == key;
      }
    }
  }
}
