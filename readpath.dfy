/**
 * The loops of the read path of tracer.go (`ListGroups`, `ListSpans`,
 * `Logs`, `ToMap`) over the tracer's maps: collecting the keys that pass a
 * prefix filter, ordering them most recently written first, sorting and
 * printing each span's entries, and framing the JSON text.
 */
module ReadPath {
  import opened Entries
  import opened TraceStore
  import opened Sorting
  import opened Render

  /** `strings.HasPrefix(name, prefix)`. */
  predicate HasPrefix(name: string, prefix: string)
  {
    |prefix| <= |name| && name[..|prefix|] == prefix
  }

  /** The read-side filter: an empty filter admits every name, otherwise the name must start with it. */
  predicate Matches(name: string, filter: string)
  {
    filter == "" || HasPrefix(name, filter)
  }

  /**
   * The keys of `m` that pass `filter`, each once, in whatever order the
   * map is walked (a `for k := range m` loop).
   */
  method KeysMatching<V>(m: map<string, V>, filter: string) returns (ks: seq<string>)
    ensures Distinct(ks)
    ensures forall k :: k in ks <==> k in m && Matches(k, filter)
  {
    ks := [];
    var rest := m.Keys;
    while rest != {}
      invariant rest <= m.Keys
      invariant Distinct(ks)
      invariant forall k :: k in ks ==> k !in rest
      invariant forall k :: k in ks <==> k in m && k !in rest && Matches(k, filter)
      decreases rest
    {
      var k :| k in rest;
      if Matches(k, filter) {
        ks := ks + [k];
      }
      rest := rest - {k};
    }
  }

  /** A sort key reading last-written times from `ts` (a missing key reads as the zero time). */
  function StampOf(ts: map<string, nat>): string -> nat
  {
    (k: string) => if k in ts then ts[k] else 0
  }

  /** The keys of `m` passing `filter`, each once, most recently written first according to `ts`. */
  method KeysByTime<V>(m: map<string, V>, ts: map<string, nat>, filter: string) returns (ks: seq<string>)
    ensures Distinct(ks)
    ensures forall k :: k in ks <==> k in m && Matches(k, filter)
    ensures SortedDesc(ks, StampOf(ts))
  {
    var unsorted := KeysMatching(m, filter);
    var key := StampOf(ts);
    SortDescKeepsDistinct(unsorted, key);
    ks := SortDesc(unsorted, key);
  }

  /** The entry lists of the named spans, each sorted most recently seen first. */
  method SortSpans(spans: map<string, seq<Entry>>, names: seq<string>) returns (out: seq<seq<Entry>>)
    requires forall s | s in names :: s in spans
    ensures |out| == |names|
    ensures forall k | 0 <= k < |names| :: out[k] == SortDesc(spans[names[k]], TimeOf)
  {
    out := [];
    for i := 0 to |names|
      invariant |out| == i
      invariant forall k | 0 <= k < i :: out[k] == SortDesc(spans[names[k]], TimeOf)
    {
      var sorted := SortDesc(spans[names[i]], TimeOf);
      SortSpansStep(spans, names, out, sorted);
      out := out + [sorted];
    }
  }

  /** One more span sorted: the loop's invariant holds again. */
  lemma SortSpansStep(spans: map<string, seq<Entry>>, names: seq<string>, out: seq<seq<Entry>>, sorted: seq<Entry>)
    requires forall s | s in names :: s in spans
    requires |out| < |names| && sorted == SortDesc(spans[names[|out|]], TimeOf)
    requires forall k | 0 <= k < |out| :: out[k] == SortDesc(spans[names[k]], TimeOf)
    ensures forall k | 0 <= k < |out| + 1 :: (out + [sorted])[k] == SortDesc(spans[names[k]], TimeOf)
  {
    forall k | 0 <= k < |out| + 1 ensures (out + [sorted])[k] == SortDesc(spans[names[k]], TimeOf) {
      if k < |out| {
        assert (out + [sorted])[k] == out[k];
      }
    }
  }

  /** One more key written: the map's keys are again the names written so far. */
  lemma PrefixKeys<V>(names: seq<string>, j: nat, m: map<string, V>, m': map<string, V>)
    requires j < |names|
    requires forall s :: s in m <==> s in names[..j]
    requires m'.Keys == m.Keys + {names[j]}
    ensures forall s :: s in m' <==> s in names[..j + 1]
  {
    assert names[..j + 1] == names[..j] + [names[j]];
  }

  /** The printed lines of a span: its entries, most recently seen first, one line each. */
  function Printed(es: seq<Entry>, render: nat -> string): seq<string>
  {
    Lines(SortDesc(es, TimeOf), render)
  }

  /**
   * `lines` are printed from the entries `es` in some order most recently
   * seen first. `sort.Slice` is not stable, so entries seen at the same
   * time may be printed in either order; this is all the read path promises.
   */
  ghost predicate PrintedFrom(lines: seq<string>, es: seq<Entry>, render: nat -> string)
  {
    exists sorted: seq<Entry> :: SortedDesc(sorted, TimeOf) && multiset(sorted) == multiset(es) && lines == Lines(sorted, render)
  }

  /** Any ordering of the entries most recently seen first may be what `ToMap` prints. */
  lemma SortedPrints(sorted: seq<Entry>, es: seq<Entry>, render: nat -> string)
    requires SortedDesc(sorted, TimeOf) && multiset(sorted) == multiset(es)
    ensures PrintedFrom(Lines(sorted, render), es, render)
  {
  }

  /** The lines the model prints are one of the orders `PrintedFrom` admits. */
  lemma PrintedSorts(es: seq<Entry>, render: nat -> string)
    ensures PrintedFrom(Printed(es, render), es, render)
  {
    SortedPrints(SortDesc(es, TimeOf), es, render);
  }

  /** One more span printed: the span loop's invariant holds again. */
  lemma FormatSpansStep(spans: map<string, seq<Entry>>, names: seq<string>, j: nat, groupMap: map<string, seq<string>>, text: string,
                        render: nat -> string, quote: string -> string)
    requires Distinct(names) && (forall s | s in names :: s in spans) && j < |names|
    requires forall s :: s in groupMap <==> s in names[..j]
    requires forall s | s in groupMap :: s in spans && PrintedFrom(groupMap[s], spans[s], render)
    requires text == SpanMembers(names[..j], groupMap, quote)
    ensures var gm := groupMap[names[j] := Printed(spans[names[j]], render)];
      && (forall s :: s in gm <==> s in names[..j + 1])
      && (forall s | s in gm :: s in spans && PrintedFrom(gm[s], spans[s], render))
      && text + SpanMember(j, names[j], Printed(spans[names[j]], render), quote) == SpanMembers(names[..j + 1], gm, quote)
  {
    var formatted := Printed(spans[names[j]], render);
    PrefixKeys(names, j, groupMap, groupMap[names[j] := formatted]);
    PrintedAppend(spans, groupMap, names[j], render);
    DistinctNotBefore(names, j);
    SpanMembersAppend(names, j, groupMap, formatted, quote, text);
  }

  /** Adding one printed span keeps every span of the map printed from its entries. */
  lemma PrintedAppend(spans: map<string, seq<Entry>>, groupMap: map<string, seq<string>>, span: string, render: nat -> string)
    requires span in spans
    requires forall s | s in groupMap :: s in spans && PrintedFrom(groupMap[s], spans[s], render)
    ensures var gm := groupMap[span := Printed(spans[span], render)];
      forall s | s in gm :: s in spans && PrintedFrom(gm[s], spans[s], render)
  {
    PrintedSorts(spans[span], render);
  }

  /**
   * The span loop of `ToMap`: for each name in order, the span's printed
   * lines, and the JSON members `"span":[lines...]` joined by commas.
   */
  method FormatSpans(spans: map<string, seq<Entry>>, names: seq<string>, render: nat -> string, quote: string -> string)
    returns (groupMap: map<string, seq<string>>, text: string)
    requires Distinct(names) && forall s | s in names :: s in spans
    ensures forall s :: s in groupMap <==> s in names
    ensures forall s | s in groupMap :: s in spans && PrintedFrom(groupMap[s], spans[s], render)
    ensures text == SpanMembers(names, groupMap, quote)
  {
    groupMap := map[];
    text := "";
    for j := 0 to |names|
      invariant forall s :: s in groupMap <==> s in names[..j]
      invariant forall s | s in groupMap :: s in spans && PrintedFrom(groupMap[s], spans[s], render)
      invariant text == SpanMembers(names[..j], groupMap, quote)
    {
      var span := names[j];
      var formatted := Printed(spans[span], render);
      FormatSpansStep(spans, names, j, groupMap, text, render, quote);
      groupMap := groupMap[span := formatted];
      text := text + SpanMember(j, span, formatted, quote);
    }
    assert names[..|names|] == names;
  }

  /**
   * What `ToMap` produces for group `g` of `st`: `names` lists its spans
   * passing the filter, each once, most recently written first, and
   * `groupMap` holds exactly those spans, each with its printed lines.
   */
  ghost predicate GroupExport(st: Store, g: string, groupMap: map<string, seq<string>>, names: seq<string>, spanFilter: string, render: nat -> string)
  {
    && g in st.logs && g in st.spanTS
    && Distinct(names)
    && (forall s :: s in names <==> s in st.logs[g] && Matches(s, spanFilter))
    && SortedDesc(names, StampOf(st.spanTS[g]))
    && (forall s :: s in groupMap <==> s in names)
    && forall s | s in groupMap :: s in st.logs[g] && PrintedFrom(groupMap[s], st.logs[g][s], render)
  }

  /** The body of the group loop of `ToMap` for one group: its span order, its printed spans and its JSON members. */
  method FormatGroup(st: Store, g: string, render: nat -> string, quote: string -> string, spanFilter: string)
    returns (groupMap: map<string, seq<string>>, names: seq<string>, text: string)
    requires g in st.logs && g in st.spanTS
    ensures GroupExport(st, g, groupMap, names, spanFilter, render)
    ensures forall s | s in names :: s in groupMap
    ensures text == SpanMembers(names, groupMap, quote)
  {
    names := KeysByTime(st.logs[g], st.spanTS[g], spanFilter);
    groupMap, text := FormatSpans(st.logs[g], names, render, quote);
  }

  /** One more group exported: the map holds exactly the groups written so far, each as `GroupExport` describes. */
  lemma FormatGroupsStep(st: Store, groups: seq<string>, i: nat, m: map<string, map<string, seq<string>>>, spanOrder: map<string, seq<string>>,
                         groupMap: map<string, seq<string>>, names: seq<string>, render: nat -> string, spanFilter: string)
    requires i < |groups|
    requires forall g :: g in m <==> g in groups[..i]
    requires forall g | g in m :: g in spanOrder && GroupExport(st, g, m[g], spanOrder[g], spanFilter, render)
    requires GroupExport(st, groups[i], groupMap, names, spanFilter, render)
    ensures var m' := m[groups[i] := groupMap];
      var spanOrder' := spanOrder[groups[i] := names];
      && (forall g :: g in m' <==> g in groups[..i + 1])
      && (forall g | g in m' :: g in spanOrder' && GroupExport(st, g, m'[g], spanOrder'[g], spanFilter, render))
  {
    PrefixKeys(groups, i, m, m[groups[i] := groupMap]);
    ExportsAppend(st, m, spanOrder, groups[i], groupMap, names, render, spanFilter);
  }

  /** Adding one exported group keeps every exported group described by `GroupExport`. */
  lemma ExportsAppend(st: Store, m: map<string, map<string, seq<string>>>, spanOrder: map<string, seq<string>>,
                      g: string, groupMap: map<string, seq<string>>, names: seq<string>, render: nat -> string, spanFilter: string)
    requires forall h | h in m :: h in spanOrder && GroupExport(st, h, m[h], spanOrder[h], spanFilter, render)
    requires GroupExport(st, g, groupMap, names, spanFilter, render)
    ensures var m' := m[g := groupMap];
      var spanOrder' := spanOrder[g := names];
      forall h | h in m' :: h in spanOrder' && GroupExport(st, h, m'[h], spanOrder'[h], spanFilter, render)
  {
  }

  /**
   * The group loop of `ToMap`: for each group in order, what `GroupExport`
   * describes, and the JSON members `"group":{...}` joined by commas.
   */
  method FormatGroups(st: Store, groups: seq<string>, render: nat -> string, quote: string -> string, spanFilter: string)
    returns (m: map<string, map<string, seq<string>>>, spanOrder: map<string, seq<string>>, members: string)
    requires Distinct(groups) && forall g | g in groups :: g in st.logs && g in st.spanTS
    ensures forall g :: g in m <==> g in groups
    ensures forall g | g in m :: g in spanOrder && GroupExport(st, g, m[g], spanOrder[g], spanFilter, render)
    ensures Covers(groups, spanOrder, m)
    ensures members == GroupMembers(groups, spanOrder, m, quote)
  {
    m := map[];
    spanOrder := map[];
    members := "";
    for i := 0 to |groups|
      invariant forall g :: g in m <==> g in groups[..i]
      invariant forall g | g in m :: g in spanOrder && GroupExport(st, g, m[g], spanOrder[g], spanFilter, render)
      invariant Covers(groups[..i], spanOrder, m)
      invariant members == GroupMembers(groups[..i], spanOrder, m, quote)
    {
      var group := groups[i];
      var groupMap, names, text := FormatGroup(st, group, render, quote, spanFilter);
      FormatGroupsStep(st, groups, i, m, spanOrder, groupMap, names, render, spanFilter);
      DistinctNotBefore(groups, i);
      GroupMembersAppend(groups, i, spanOrder, m, names, groupMap, quote, members);
      m := m[group := groupMap];
      spanOrder := spanOrder[group := names];
      members := members + GroupMember(i, group, text, quote);
    }
    assert groups[..|groups|] == groups;
  }
}
