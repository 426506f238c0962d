/** The report dictionary: an insertion-ordered map from section key to
    entry, built by assigning `report[key] = value` once per processed row.
    Assigning an existing key replaces its value and keeps its position. */
module ReportMap {
  import opened Records

  /** Some entry of the trace has this key. */
  predicate HasKey(trace: seq<Entry>, key: string) {
    exists j :: 0 <= j < |trace| && trace[j].key == key
  }

  /** No key occurs twice. */
  predicate DistinctKeys(report: seq<Entry>) {
    forall i, j :: 0 <= i < j < |report| ==> report[i].key != report[j].key
  }

  /** `report[e.key] = e`: an existing key has its value replaced in place; a
      new key is appended. */
  function Put(report: seq<Entry>, e: Entry): (r: seq<Entry>)
    requires DistinctKeys(report)
    ensures DistinctKeys(r)
    ensures HasKey(r, e.key)
  {
    if HasKey(report, e.key) then
      var r := seq(|report|, i requires 0 <= i < |report| => if report[i].key == e.key then e else report[i]);
      assert HasKey(r, e.key) by {
        var j :| 0 <= j < |report| && report[j].key == e.key;
        assert r[j] == e;
      }
      r
    else
      var r := report + [e];
      assert r[|report|] == e;
      r
  }

  /** The dictionary after assigning every entry of `trace` in order. */
  function Collect(trace: seq<Entry>): (r: seq<Entry>)
    ensures DistinctKeys(r)
  {
    if trace == [] then [] else Put(Collect(trace[..|trace| - 1]), trace[|trace| - 1])
  }

  /** The position of the first entry with this key. */
  function FirstWith(trace: seq<Entry>, key: string): (j: nat)
    requires HasKey(trace, key)
    ensures j < |trace| && trace[j].key == key
    ensures forall k :: 0 <= k < j ==> trace[k].key != key
  {
    if trace[0].key == key then 0
    else
      assert HasKey(trace[1..], key) by {
        var j :| 0 <= j < |trace| && trace[j].key == key;
        assert trace[1..][j - 1] == trace[j];
      }
      1 + FirstWith(trace[1..], key)
  }

  /** The position of the last entry with this key. */
  function LastWith(trace: seq<Entry>, key: string): (j: nat)
    requires HasKey(trace, key)
    ensures j < |trace| && trace[j].key == key
    ensures forall k :: j < k < |trace| ==> trace[k].key != key
  {
    if trace[|trace| - 1].key == key then |trace| - 1
    else
      assert HasKey(trace[..|trace| - 1], key) by {
        var j :| 0 <= j < |trace| && trace[j].key == key;
        assert trace[..|trace| - 1][j] == trace[j];
      }
      LastWith(trace[..|trace| - 1], key)
  }

  /** What `Put` leaves at position `i`: the new entry under its own key,
      the old entry under every other key, with positions unchanged except
      for a new key appended at the end. */
  lemma PutEntry(report: seq<Entry>, e: Entry, i: nat)
    requires DistinctKeys(report) && i < |Put(report, e)|
    ensures |report| <= |Put(report, e)| <= |report| + 1
    ensures Put(report, e)[i].key == e.key ==> Put(report, e)[i] == e
    ensures Put(report, e)[i].key != e.key ==> i < |report| && Put(report, e)[i] == report[i]
    ensures i < |report| ==> Put(report, e)[i].key == report[i].key
    ensures i >= |report| ==> Put(report, e)[i] == e && !HasKey(report, e.key)
  {
  }

  lemma PutOtherKey(report: seq<Entry>, e: Entry, key: string)
    requires DistinctKeys(report) && key != e.key
    ensures HasKey(Put(report, e), key) <==> HasKey(report, key)
  {
    var r := Put(report, e);
    if HasKey(r, key) {
      var i :| 0 <= i < |r| && r[i].key == key;
      PutEntry(report, e, i);
    }
    if HasKey(report, key) {
      var i :| 0 <= i < |report| && report[i].key == key;
      PutEntry(report, e, i);
    }
  }

  lemma SnocOtherKey(init: seq<Entry>, e: Entry, key: string)
    requires key != e.key
    ensures HasKey(init + [e], key) <==> HasKey(init, key)
  {
    assert forall k :: 0 <= k < |init| ==> (init + [e])[k] == init[k];
  }

  /** The keys of the report are exactly the keys of the trace. */
  lemma {:induction false} CollectKeys(trace: seq<Entry>)
    ensures forall key :: HasKey(Collect(trace), key) <==> HasKey(trace, key)
  {
    if trace != [] {
      var init, e := trace[..|trace| - 1], trace[|trace| - 1];
      CollectKeys(init);
      assert trace == init + [e];
      assert trace[|init|] == e;
      forall key | key != e.key
        ensures HasKey(Collect(trace), key) <==> HasKey(trace, key)
      {
        PutOtherKey(Collect(init), e, key);
        SnocOtherKey(init, e, key);
      }
    }
  }

  /** The entry at position `i` of `report` has a key assigned in `trace`,
      and is the last entry assigned under that key. */
  ghost predicate LastAssigned(trace: seq<Entry>, report: seq<Entry>, i: nat)
    requires i < |report|
  {
    HasKey(trace, report[i].key) && report[i] == trace[LastWith(trace, report[i].key)]
  }

  /** Each key of the report maps to the last entry assigned under it. */
  lemma {:induction false} CollectLastWins(trace: seq<Entry>)
    ensures forall i :: 0 <= i < |Collect(trace)| ==> LastAssigned(trace, Collect(trace), i)
  {
    if trace != [] {
      var init := trace[..|trace| - 1];
      CollectLastWins(init);
      forall i | 0 <= i < |Collect(trace)|
        ensures LastAssigned(trace, Collect(trace), i)
      {
        LastStep(trace, init, i);
      }
    }
  }

  /** One assignment keeps every report entry the last one of its key. */
  lemma LastStep(trace: seq<Entry>, init: seq<Entry>, i: nat)
    requires trace != [] && init == trace[..|trace| - 1]
    requires forall i :: 0 <= i < |Collect(init)| ==> LastAssigned(init, Collect(init), i)
    requires i < |Collect(trace)|
    ensures LastAssigned(trace, Collect(trace), i)
  {
    var e := trace[|trace| - 1];
    var r0, r := Collect(init), Collect(trace);
    assert r == Put(r0, e);
    PutEntry(r0, e, i);
    if r[i].key != e.key {
      assert LastAssigned(init, r0, i);
      LastWithPrefix(trace, r[i].key);
    } else {
      LastWithLast(trace);
    }
  }

  /** Every entry of the report is one of the trace's entries. */
  lemma CollectedFromTrace(trace: seq<Entry>)
    ensures forall m :: 0 <= m < |Collect(trace)| ==> exists k :: 0 <= k < |trace| && Collect(trace)[m] == trace[k]
  {
    CollectLastWins(trace);
    forall m | 0 <= m < |Collect(trace)|
      ensures exists k :: 0 <= k < |trace| && Collect(trace)[m] == trace[k]
    {
      assert LastAssigned(trace, Collect(trace), m);
      var k := LastWith(trace, Collect(trace)[m].key);
      assert Collect(trace)[m] == trace[k];
    }
    assert forall m :: 0 <= m < |Collect(trace)| ==> exists k :: 0 <= k < |trace| && Collect(trace)[m] == trace[k];
  }

  /** A bound on the slide positions of the trace bounds those of the report. */
  lemma CollectWithin(trace: seq<Entry>, n: nat)
    requires MembersWithin(trace, n)
    ensures MembersWithin(Collect(trace), n)
  {
    CollectedFromTrace(trace);
    forall i, k | 0 <= i < |Collect(trace)| && 0 <= k < |Collect(trace)[i].members|
      ensures Collect(trace)[i].members[k] < n
    {
      var j :| 0 <= j < |trace| && Collect(trace)[i] == trace[j];
      assert trace[j].members[k] < n;
    }
  }

  /** The entries at positions `i` and `j` of `report` have keys assigned in
      `trace`, and that of `i` was first assigned before that of `j`. */
  ghost predicate FirstBefore(trace: seq<Entry>, report: seq<Entry>, i: nat, j: nat)
    requires i < |report| && j < |report|
  {
    HasKey(trace, report[i].key) && HasKey(trace, report[j].key) &&
    FirstWith(trace, report[i].key) < FirstWith(trace, report[j].key)
  }

  /** The entries of `report` are in the order in which their keys were
      first assigned in `trace`. */
  ghost predicate FirstOrdered(trace: seq<Entry>, report: seq<Entry>) {
    forall i, j :: 0 <= i < j < |report| ==> FirstBefore(trace, report, i, j)
  }

  /** Keys appear in the report in the order of their first assignment. */
  lemma {:induction false} CollectOrder(trace: seq<Entry>)
    ensures FirstOrdered(trace, Collect(trace))
  {
    if trace != [] {
      var init := trace[..|trace| - 1];
      CollectOrder(init);
      CollectKeys(init);
      OrderKept(trace, init);
    }
  }

  /** One assignment keeps the first-assignment order of the report. */
  lemma OrderKept(trace: seq<Entry>, init: seq<Entry>)
    requires trace != [] && init == trace[..|trace| - 1]
    requires FirstOrdered(init, Collect(init))
    requires forall key :: HasKey(Collect(init), key) <==> HasKey(init, key)
    ensures FirstOrdered(trace, Collect(trace))
  {
    forall i, j | 0 <= i < j < |Collect(trace)|
      ensures FirstBefore(trace, Collect(trace), i, j)
    {
      OrderStep(trace, init, i, j);
    }
  }

  /** One assignment keeps the first-assignment order of two report
      positions. */
  lemma OrderStep(trace: seq<Entry>, init: seq<Entry>, i: nat, j: nat)
    requires trace != [] && init == trace[..|trace| - 1]
    requires FirstOrdered(init, Collect(init))
    requires forall key :: HasKey(Collect(init), key) <==> HasKey(init, key)
    requires i < j < |Collect(trace)|
    ensures FirstBefore(trace, Collect(trace), i, j)
  {
    var e := trace[|trace| - 1];
    var r0 := Collect(init);
    var r := Collect(trace);
    assert r == Put(r0, e);
    PutEntry(r0, e, i);
    PutEntry(r0, e, j);
    assert i < |r0| && r[i].key == r0[i].key;
    assert HasKey(r0, r0[i].key);
    FirstWithPrefix(trace, r0[i].key);
    if j < |r0| {
      assert FirstBefore(init, r0, i, j);
      FirstWithPrefix(trace, r0[j].key);
    } else {
      FirstWithFresh(trace);
    }
  }

  /** A key already assigned before the last entry keeps its first position. */
  lemma FirstWithPrefix(trace: seq<Entry>, key: string)
    requires trace != [] && HasKey(trace[..|trace| - 1], key)
    ensures HasKey(trace, key) && FirstWith(trace, key) == FirstWith(trace[..|trace| - 1], key)
  {
    var init := trace[..|trace| - 1];
    assert forall k :: 0 <= k < |init| ==> trace[k] == init[k];
  }

  /** A key first assigned by the last entry is first found there. */
  lemma FirstWithFresh(trace: seq<Entry>)
    requires trace != [] && !HasKey(trace[..|trace| - 1], trace[|trace| - 1].key)
    ensures HasKey(trace, trace[|trace| - 1].key) && FirstWith(trace, trace[|trace| - 1].key) == |trace| - 1
  {
    var init := trace[..|trace| - 1];
    assert forall k :: 0 <= k < |init| ==> trace[k] == init[k];
  }

  /** A key not assigned by the last entry keeps its last position. */
  lemma LastWithPrefix(trace: seq<Entry>, key: string)
    requires trace != [] && HasKey(trace[..|trace| - 1], key) && key != trace[|trace| - 1].key
    ensures HasKey(trace, key) && LastWith(trace, key) == LastWith(trace[..|trace| - 1], key)
  {
    var j := LastWith(trace[..|trace| - 1], key);
    assert trace[j] == trace[..|trace| - 1][j];
  }

  /** The key of the last entry is last assigned there. */
  lemma LastWithLast(trace: seq<Entry>)
    requires trace != []
    ensures HasKey(trace, trace[|trace| - 1].key) && LastWith(trace, trace[|trace| - 1].key) == |trace| - 1
  {
  }
}
