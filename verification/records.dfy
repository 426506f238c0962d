/** The records the report pipeline passes around: slides, the rows of the
    section table, and the entries of the report. */
module Records {
  import opened Results

  /** One extracted slide. `text` is the only field that changes after
      extraction: it is overwritten with the description of every section the
      slide is placed in. `hasImage` stands for the screenshot file existing on
      disk when the document is assembled. */
  datatype Slide = Slide(title: string, text: string, hasImage: bool)

  /** One row of the section table. A `None` slides cell is a missing (NaN)
      value, which `dropna(subset=["Slides"])` removes; an empty string is not
      missing and the row is kept. */
  datatype Row = Row(heading1: string, heading2: string, slides: Option<string>)

  /** One section of the report: its key ("Heading 1: …" or "Heading 2: …"),
      the generated description, and the member slides as positions in the
      shared slide store, so that later overwrites of a slide's text are seen
      by every section that holds it. */
  datatype Entry = Entry(key: string, text: string, members: seq<nat>)

  const Heading1Prefix: string := "Heading 1: "
  const Heading2Prefix: string := "Heading 2: "

  /** Every member of every entry names a slide of a store of `n` slides. */
  predicate MembersWithin(entries: seq<Entry>, n: nat) {
    forall i, k :: 0 <= i < |entries| && 0 <= k < |entries[i].members| ==> entries[i].members[k] < n
  }

  /** The slides at the given positions, in that order. */
  function MembersOf(store: seq<Slide>, ps: seq<nat>): (ms: seq<Slide>)
    requires forall k :: 0 <= k < |ps| ==> ps[k] < |store|
    ensures |ms| == |ps|
    ensures forall k :: 0 <= k < |ps| ==> ms[k] == store[ps[k]]
  {
    seq(|ps|, k requires 0 <= k < |ps| => store[ps[k]])
  }
}
