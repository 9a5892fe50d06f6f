/**
 * Concrete runs of the tracer: a few writes into a small tracer and what
 * the store holds afterwards, derived from the write contract alone.
 */
module Scenarios {
  import opened Entries
  import opened TraceStore
  import opened ReadPath
  import opened Tracing
  import opened Sorting
  import opened Render

  /** One enabled write, unfolded: the stages for the victims the write picked. */
  lemma WriteTouches(st: Store, st': Store, caps: Caps, level: Level, group: string, span: string, msg: string, now: nat)
    requires Agree(st) && Writes(st, st', caps, true, level, group, span, msg, now)
    ensures Agree(st') && group in st'.logs && span in st'.logs[group]
    ensures st'.logs[group][span] == Record(Previous(st, group, span), group, span, level, msg, now, caps.messages)
  {
    var gv, sv :| ValidChoices(st, caps, group, span, now, gv, sv) && st' == Step(st, caps, level, group, span, msg, now, gv, sv);
    StepTouches(st, caps, level, group, span, msg, now, gv, sv);
  }

  /** One enabled write through the tracer, seen from the written span's entry list. */
  method WriteSpan(t: Tracer, level: Level, group: string, span: string, msg: string, now: nat)
    requires t.Valid() && t.enabled
    modifies t
    ensures t.Valid() && t.enabled
    ensures group in t.logs && span in t.logs[group]
    ensures t.logs[group][span] == Record(Previous(old(t.State()), group, span), group, span, level, msg, now, t.numMessages)
  {
    ghost var st := t.State();
    t.Write(level, group, span, msg, now);
    WriteTouches(st, t.State(), t.Capacities(), level, group, span, msg, now);
  }

  /** The span list of the FIFO scenario after each of its three writes. */
  lemma FifoLists()
    ensures var a := Entry("g1", "s1", "a", Level.Info, 1, 1);
      var b := Entry("g1", "s1", "b", Level.Info, 2, 1);
      var c := Entry("g1", "s1", "c", Level.Info, 3, 1);
      && Record([], "g1", "s1", Level.Info, "a", 1, 2) == [a]
      && Record([a], "g1", "s1", Level.Info, "b", 2, 2) == [a, b]
      && Record([a, b], "g1", "s1", Level.Info, "c", 3, 2) == [b, c]
  {
    var a := Entry("g1", "s1", "a", Level.Info, 1, 1);
    var b := Entry("g1", "s1", "b", Level.Info, 2, 1);
    assert !SameKey(a, "b", Level.Info) && !SameKey(a, "c", Level.Info) && !SameKey(b, "c", Level.Info);
    assert FirstMatch([a], "b", Level.Info) == 1;
    assert FirstMatch([a, b], "c", Level.Info) == 2;
  }

  /**
   * Capacities 2/2/2: writing "a", "b", "c" into g1/s1 leaves ["b", "c"]
   * (the oldest-inserted "a" is dropped).
   */
  method FifoScenario() returns (t: Tracer, kept: seq<Entry>)
    ensures |kept| == 2 && kept[0].message == "b" && kept[1].message == "c"
    ensures "g1" in t.logs && "s1" in t.logs["g1"] && t.logs["g1"]["s1"] == kept
  {
    t := new Tracer(2, 2, 2);
    ghost var a := Entry("g1", "s1", "a", Level.Info, 1, 1);
    ghost var b := Entry("g1", "s1", "b", Level.Info, 2, 1);
    ghost var c := Entry("g1", "s1", "c", Level.Info, 3, 1);
    FifoLists();
    WriteSpan(t, Level.Info, "g1", "s1", "a", 1);
    assert t.logs["g1"]["s1"] == [a];
    WriteSpan(t, Level.Info, "g1", "s1", "b", 2);
    assert t.logs["g1"]["s1"] == [a, b];
    WriteSpan(t, Level.Info, "g1", "s1", "c", 3);
    assert t.logs["g1"]["s1"] == [b, c];
    kept := t.logs["g1"]["s1"];
  }

  /** Writing INFO "x" into g1/s1 twice leaves one entry, counted twice. */
  lemma DuplicateLists()
    ensures var x := Entry("g1", "s1", "x", Level.Info, 1, 1);
      && Record([], "g1", "s1", Level.Info, "x", 1, 2) == [x]
      && Record([x], "g1", "s1", Level.Info, "x", 2, 2) == [x.(count := 2, time := 2)]
  {
    var x := Entry("g1", "s1", "x", Level.Info, 1, 1);
    assert FirstMatch([x], "x", Level.Info) == 0;
  }

  /** Writing INFO "x" into g1/s1 twice: one entry, with count 2. */
  method DuplicateScenario() returns (t: Tracer, entries: seq<Entry>)
    ensures |entries| == 1 && entries[0].message == "x" && entries[0].count == 2
    ensures "g1" in t.logs && "s1" in t.logs["g1"] && t.logs["g1"]["s1"] == entries
  {
    t := new Tracer(2, 2, 2);
    ghost var x := Entry("g1", "s1", "x", Level.Info, 1, 1);
    DuplicateLists();
    WriteSpan(t, Level.Info, "g1", "s1", "x", 1);
    assert t.logs["g1"]["s1"] == [x];
    WriteSpan(t, Level.Info, "g1", "s1", "x", 2);
    entries := t.logs["g1"]["s1"];
  }

  /**
   * `ToMap` with group filter "g1" on a store holding g1, g10 and g2, g1
   * written after g10: any group order meeting `ToMap`'s contract is
   * exactly g1 then g10.
   */
  lemma FilterScenario(st: Store, order: seq<string>)
    requires st.logs.Keys == {"g1", "g10", "g2"}
    requires "g1" in st.groupTS && "g10" in st.groupTS && st.groupTS["g10"] < st.groupTS["g1"]
    requires Distinct(order)
    requires forall g :: g in order <==> g in st.logs && Matches(g, "g1")
    requires SortedDesc(order, StampOf(st.groupTS))
    ensures order == ["g1", "g10"]
  {
    assert HasPrefix("g10", "g1") by { assert "g10"[..2] == "g1"; }
    assert !HasPrefix("g2", "g1") by { assert "g2"[..2][1] != "g1"[1]; }
    assert "g1" in st.logs && "g10" in st.logs;
    forall g | g in order ensures g in {"g1", "g10"} {
      assert g in st.logs.Keys && Matches(g, "g1");
      assert g == "g1" || g == "g10" || g == "g2";
    }
    DistinctWithin(order, {"g1", "g10"});
    var i :| 0 <= i < |order| && order[i] == "g1";
    var j :| 0 <= j < |order| && order[j] == "g10";
    assert i != j && |order| == 2;
    // g1 was written after g10, so it sorts first.
    assert StampOf(st.groupTS)(order[0]) >= StampOf(st.groupTS)(order[1]);
    assert order[0] == "g1" && order[1] == "g10";
  }

  /**
   * Two entries seen at the same time: `ToMap` may print them in either
   * order, as an unstable `sort.Slice` may leave them either way.
   */
  lemma TiesPrintEitherWay(a: Entry, b: Entry, render: nat -> string)
    requires a.time == b.time
    ensures PrintedFrom(Lines([a, b], render), [a, b], render)
    ensures PrintedFrom(Lines([b, a], render), [a, b], render)
  {
    assert SortedDesc([a, b], TimeOf) && SortedDesc([b, a], TimeOf);
    assert multiset([b, a]) == multiset([a, b]);
    SortedPrints([a, b], [a, b], render);
    SortedPrints([b, a], [a, b], render);
  }
}
