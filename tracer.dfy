/**
 * The tracer object of tracer.go: a class whose fields are those of the
 * `tracer` struct, its write path `Write` (`logger.log`), the enable gate,
 * the read path, and the value-like `Logger` handle bound to a group and
 * a span. Locking is left out: every operation is one atomic step.
 * Clock readings are the `now` parameter of a write.
 */
module Tracing {
  import opened Entries
  import opened TraceStore
  import opened Sorting
  import opened Render
  import opened ReadPath

  const DefaultGroupCount := 40
  const DefaultSpanCount := 60
  const DefaultMessageCount := 60

  /** A requested capacity, or the default when it is below 1. */
  function SizeOrDefault(size: int, default: int): (r: int)
    requires default >= 1
    ensures r >= 1
    ensures size >= 1 ==> r == size
    ensures size < 1 ==> r == default
  {
    if size < 1 then default else size
  }

  /**
   * The eviction scan: walks the timestamps in map order and keeps the
   * first key seen with the smallest time; `""` when there is none.
   */
  method OldestKey(ts: map<string, nat>) returns (oldest: string)
    ensures ts != map[] ==> Oldest(ts, oldest)
    ensures ts == map[] ==> oldest == ""
  {
    oldest := "";
    var oldestTime := 0;
    var first := true;
    var rest := ts.Keys;
    while rest != {}
      invariant rest <= ts.Keys
      invariant first <==> rest == ts.Keys
      invariant first ==> oldest == ""
      invariant !first ==> oldest in ts && oldest !in rest && ts[oldest] == oldestTime
      invariant forall k | k in ts && k !in rest :: oldestTime <= ts[k]
      decreases rest
    {
      var k :| k in rest;
      if first || ts[k] < oldestTime {
        oldest := k;
        oldestTime := ts[k];
        first := false;
      }
      rest := rest - {k};
    }
    assert ts != map[] ==> ts.Keys != {};
  }

  /** The deduplication scan: the index of the first entry with this (message, level), or `|es|`. */
  method DuplicateIndex(es: seq<Entry>, message: string, level: Level) returns (i: nat)
    ensures i == FirstMatch(es, message, level)
  {
    i := 0;
    while i < |es|
      invariant i <= |es|
      invariant forall j | 0 <= j < i :: !SameKey(es[j], message, level)
    {
      if es[i].message == message && es[i].level == level {
        break;
      }
      i := i + 1;
    }
    if i < |es| {
      assert SameKey(es[i], message, level);
      assert FirstMatch(es, message, level) >= i;
    }
  }

  /**
   * Steps 5 to 7 of a write on a span's entry list: an empty message leaves
   * it alone; otherwise the message is cut to `MaxMessageLength` bytes and
   * either coalesced into its duplicate or appended first-in-first-out.
   */
  method AddEntry(s: seq<Entry>, group: string, span: string, level: Level, msg: string, now: nat, capacity: int)
    returns (r: seq<Entry>)
    ensures r == Record(s, group, span, level, msg, now, capacity)
  {
    r := s;
    if |msg| == 0 {
      return;
    }
    var m := msg;
    if |m| > MaxMessageLength {
      m := m[..MaxMessageLength];
    }
    var i := DuplicateIndex(r, m, level);
    if i < |r| {
      r := r[i := r[i].(count := (r[i].count + 1) % CountModulus, time := now)];
    } else {
      var newEntry := Entry(group, span, m, level, now, 1);
      if |r| < capacity {
        r := r + [newEntry];
      } else if capacity > 0 {
        r := r[1..] + [newEntry];
      } else {
        r := [];
      }
    }
  }

  /** A handle bound to a tracer, a group and a span (`logger`). */
  datatype Logger = Logger(tracer: Tracer, group: string, span: string)
  {
    function GetGroup(): string
    {
      group
    }

    function GetSpan(): string
    {
      span
    }

    /** The same tracer and group, writing to another span. */
    function Span(name: string): (l: Logger)
      ensures l.tracer == tracer && l.GetGroup() == GetGroup() && l.GetSpan() == name
    {
      Logger(tracer, group, name)
    }

    /** The same tracer, writing to another group and span. */
    function With(group': string, span': string): (l: Logger)
      ensures l.tracer == tracer && l.GetGroup() == group' && l.GetSpan() == span'
    {
      Logger(tracer, group', span')
    }

    /** Writes `message` at INFO into this handle's group and span. */
    method Info(message: string, now: nat)
      requires tracer.Valid()
      modifies tracer
      ensures tracer.Valid() && tracer.enabled == old(tracer.enabled)
      ensures Writes(old(tracer.State()), tracer.State(), tracer.Capacities(), old(tracer.enabled), Level.Info, group, span, message, now)
    {
      tracer.Write(Level.Info, group, span, message, now);
    }

    /** Writes `message` at WARN into this handle's group and span. */
    method Warn(message: string, now: nat)
      requires tracer.Valid()
      modifies tracer
      ensures tracer.Valid() && tracer.enabled == old(tracer.enabled)
      ensures Writes(old(tracer.State()), tracer.State(), tracer.Capacities(), old(tracer.enabled), Level.Warn, group, span, message, now)
    {
      tracer.Write(Level.Warn, group, span, message, now);
    }

    /** Writes `message` at ERROR into this handle's group and span. */
    method Error(message: string, now: nat)
      requires tracer.Valid()
      modifies tracer
      ensures tracer.Valid() && tracer.enabled == old(tracer.enabled)
      ensures Writes(old(tracer.State()), tracer.State(), tracer.Capacities(), old(tracer.enabled), Level.Error, group, span, message, now)
    {
      tracer.Write(Level.Error, group, span, message, now);
    }
  }

  /** The bounded, deduplicating trace store (`tracer`). */
  class Tracer {
    var logs: map<string, map<string, seq<Entry>>>
    var groupTS: map<string, nat>
    var spanTS: map<string, map<string, nat>>
    var enabled: bool
    const numGroups: int
    const numSpans: int
    const numMessages: int

    /** The three maps as one value. */
    function State(): Store
      reads this
    {
      Store(logs, groupTS, spanTS)
    }

    function Capacities(): Caps
    {
      Caps(numGroups, numSpans, numMessages)
    }

    /** The object invariant: capacities of at least 1 and the store invariant. */
    ghost predicate Valid()
      reads this
    {
      Sized(Capacities()) && Inv(State(), Capacities())
    }

    /** `NewTracerWithSizes`: sizes below 1 fall back to the defaults; the store starts empty and enabled. */
    constructor (numGroups: int, numSpans: int, numMessages: int)
      ensures Valid() && enabled && State() == Empty
      ensures this.numGroups == SizeOrDefault(numGroups, DefaultGroupCount)
      ensures this.numSpans == SizeOrDefault(numSpans, DefaultSpanCount)
      ensures this.numMessages == SizeOrDefault(numMessages, DefaultMessageCount)
    {
      this.numGroups := SizeOrDefault(numGroups, DefaultGroupCount);
      this.numSpans := SizeOrDefault(numSpans, DefaultSpanCount);
      this.numMessages := SizeOrDefault(numMessages, DefaultMessageCount);
      logs := map[];
      groupTS := map[];
      spanTS := map[];
      enabled := true;
    }

    /** `NewTracer`: the default capacities. */
    static method NewTracer() returns (t: Tracer)
      ensures fresh(t) && t.Valid() && t.enabled && t.State() == Empty
      ensures t.Capacities() == Caps(DefaultGroupCount, DefaultSpanCount, DefaultMessageCount)
    {
      t := new Tracer(DefaultGroupCount, DefaultSpanCount, DefaultMessageCount);
    }

    /** `Noop`: capacities 1/1/1, disabled. */
    static method Noop() returns (t: Tracer)
      ensures fresh(t) && t.Valid() && !t.enabled && t.State() == Empty
      ensures t.Capacities() == Caps(1, 1, 1)
    {
      t := new Tracer(1, 1, 1);
      t.Disable();
    }

    /** `Trace`: a handle on `group` and `span`. */
    function Trace(group: string, span: string): (l: Logger)
      ensures l.tracer == this && l.GetGroup() == group && l.GetSpan() == span
    {
      Logger(this, group, span)
    }

    /** `Group`: a handle on `group` whose span is the empty name. */
    function Group(group: string): (l: Logger)
      ensures l == Trace(group, "") && l.GetSpan() == ""
    {
      Logger(this, group, "")
    }

    predicate IsEnabled()
      reads this
    {
      enabled
    }

    /** Turns writes on; the stored data is untouched. */
    method Enable()
      modifies this
      ensures enabled && State() == old(State())
    {
      enabled := true;
    }

    /** Turns every write into a no-op; the stored data is untouched. */
    method Disable()
      modifies this
      ensures !enabled && State() == old(State())
    {
      enabled := false;
    }

    /**
     * `logger.log`: one write of `msg` at `level` into `group`/`span` at
     * time `now`. Disabled, nothing changes; enabled, the new state is
     * `Step` of the old one for victims the eviction scans can pick.
     */
    method Write(level: Level, group: string, span: string, msg: string, now: nat)
      requires Valid()
      modifies this
      ensures Valid() && enabled == old(enabled)
      ensures !old(enabled) ==> State() == old(State())
      ensures Writes(old(State()), State(), Capacities(), old(enabled), level, group, span, msg, now)
    {
      if !IsEnabled() {
        return;
      }
      ghost var st0 := State();
      ghost var caps := Capacities();
      ghost var gv := EnsureGroup(group, now);
      ghost var st1 := State();
      GroupStageAgrees(st0, caps, group, now, gv, st1);
      GroupStageKeys(st0, caps, group, now, gv, st1);
      ghost var sv := EnsureSpan(group, span, now);
      ghost var st2 := State();
      assert SpanEvicts(st1, caps, group, span) ==> Oldest(st1.spanTS[group], sv);
      assert group in st2.logs && span in st2.logs[group];
      WriteEntry(level, group, span, msg, now);
      StagedWrite(st0, caps, level, group, span, msg, now, gv, sv, st1, st2, State());
    }

    /** Steps 1 and 2 of a write: make sure `group` exists, evicting the oldest group when full, and stamp it. */
    method EnsureGroup(group: string, now: nat) returns (ghost gv: string)
      requires Agree(State())
      modifies this
      ensures enabled == old(enabled)
      ensures State() == GroupStage(old(State()), Capacities(), group, now, gv)
      ensures GroupEvicts(old(State()), Capacities(), group) ==> Oldest(old(State()).groupTS, gv)
    {
      ghost var st := State();
      var l, g, s := logs, groupTS, spanTS;
      gv := "";
      if group !in l {
        if |g| >= numGroups && numGroups > 0 {
          var oldestGroup := OldestKey(g);
          gv := oldestGroup;
          if oldestGroup != "" {
            l := l - {oldestGroup};
            g := g - {oldestGroup};
            s := s - {oldestGroup};
          }
        }
        NewGroupStage(st, Capacities(), group, now, gv, l, g, s);
        l := l[group := map[]];
        s := s[group := map[]];
      }
      g := g[group := now];
      logs, groupTS, spanTS := l, g, s;
    }

    /** Steps 3 and 4 of a write: make sure `span` exists in `group`, evicting its oldest span when full, and stamp it. */
    method EnsureSpan(group: string, span: string, now: nat) returns (ghost sv: string)
      requires Agree(State()) && group in logs
      modifies this
      ensures enabled == old(enabled)
      ensures State() == SpanStage(old(State()), Capacities(), group, span, now, sv)
      ensures SpanEvicts(old(State()), Capacities(), group, span) ==> Oldest(old(State()).spanTS[group], sv)
    {
      ghost var st := State();
      var spans := logs[group];
      var ts: map<string, nat> := spanTS[group];
      sv := "";
      if span !in spans {
        if |ts| >= numSpans && numSpans > 0 {
          var oldestSpan := OldestKey(ts);
          sv := oldestSpan;
          if oldestSpan != "" {
            spans := spans - {oldestSpan};
            ts := ts - {oldestSpan};
          }
        }
        ghost var d := DroppedSpans(st, Capacities(), group, span, sv);
        assert spans == st.logs[group] - d && ts == st.spanTS[group] - d;
        spans := spans[span := []];
      }
      ts := ts[span := now];
      logs := logs[group := spans];
      spanTS := spanTS[group := ts];
    }

    /** Steps 5 to 7 of a write: record the message in the span's entry list. */
    method WriteEntry(level: Level, group: string, span: string, msg: string, now: nat)
      requires group in logs && span in logs[group]
      modifies this
      ensures enabled == old(enabled)
      ensures State() == EntryStage(old(State()), Capacities(), group, span, level, msg, now)
    {
      if |msg| > 0 {
        var s := AddEntry(logs[group][span], group, span, level, msg, now, numMessages);
        logs := logs[group := logs[group][span := s]];
      } else {
        var spans := logs[group];
        assert spans[span := spans[span]] == spans;
        assert logs[group := spans] == logs;
      }
    }

    /** `ListGroups`: every group name once, in map order. */
    method ListGroups() returns (groups: seq<string>)
      ensures Distinct(groups)
      ensures forall g :: g in groups <==> g in logs
    {
      groups := KeysMatching(logs, "");
    }

    /** `ListSpans`: every span name of `group` once, in map order; none for an unknown group. */
    method ListSpans(group: string) returns (spans: seq<string>)
      ensures Distinct(spans)
      ensures forall s :: s in spans <==> group in logs && s in logs[group]
    {
      var m := if group in logs then logs[group] else map[];
      spans := KeysMatching(m, "");
    }

    /**
     * `Logs`: nothing for an unknown group; otherwise one list per span,
     * spans most recently written first (`order` names them), each list a
     * permutation of the span's entries, most recently seen first.
     */
    method Logs(group: string) returns (out: seq<seq<Entry>>, ghost order: seq<string>)
      requires Valid()
      ensures group !in logs ==> out == []
      ensures group in logs ==>
        && Distinct(order)
        && (forall s :: s in order <==> s in logs[group])
        && SortedDesc(order, StampOf(spanTS[group]))
        && |out| == |order|
        && forall i | 0 <= i < |out| ::
             order[i] in logs[group] && SortedDesc(out[i], TimeOf) && multiset(out[i]) == multiset(logs[group][order[i]])
    {
      if group !in logs {
        return [], [];
      }
      var spans := KeysByTime(logs[group], spanTS[group], "");
      out := SortSpans(logs[group], spans);
      order := spans;
    }

    /**
     * `ToMap`: the groups passing `groupFilter`, most recently written
     * first (`groupOrder`), each mapped to what `GroupExport` describes
     * with its span order in `spanOrder`; `json` is the same data as a JSON
     * object whose keys come in those orders.
     */
    method ToMap(render: nat -> string, quote: string -> string, groupFilter: string, spanFilter: string)
      returns (m: map<string, map<string, seq<string>>>, json: string,
               ghost groupOrder: seq<string>, ghost spanOrder: map<string, seq<string>>)
      requires Valid()
      ensures Distinct(groupOrder)
      ensures forall g :: g in groupOrder <==> g in logs && Matches(g, groupFilter)
      ensures SortedDesc(groupOrder, StampOf(groupTS))
      ensures forall g :: g in m <==> g in groupOrder
      ensures forall g | g in m :: g in spanOrder && GroupExport(State(), g, m[g], spanOrder[g], spanFilter, render)
      ensures Covers(groupOrder, spanOrder, m)
      ensures json == Json(groupOrder, spanOrder, m, quote)
    {
      var groups := KeysByTime(logs, groupTS, groupFilter);
      var members;
      m, spanOrder, members := FormatGroups(State(), groups, render, quote, spanFilter);
      json := "{" + members + "}";
      groupOrder := groups;
    }
  }
}
