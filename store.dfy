/**
 * The trace store as a value, and the write path of `logger.log`
 * (tracer.go) as a function of the old store, the written keys and the two
 * eviction victims. Go iterates maps in no fixed order, so which of several
 * equally old groups (or spans) is evicted is not determined; the victims
 * are therefore parameters, constrained by `ValidChoices`.
 */
module TraceStore {
  import opened Entries

  /** Capacities: groups in the store, spans per group, entries per span. */
  datatype Caps = Caps(groups: int, spans: int, messages: int)

  /** Capacities the constructor can produce. */
  predicate Sized(caps: Caps)
  {
    caps.groups >= 1 && caps.spans >= 1 && caps.messages >= 1
  }

  /**
   * The three maps of the `tracer` struct: entries per group and span, the
   * last-written time of each group, and of each span within its group.
   */
  datatype Store = Store(
    logs: map<string, map<string, seq<Entry>>>,
    groupTS: map<string, nat>,
    spanTS: map<string, map<string, nat>>)

  /** A store with no groups. */
  const Empty := Store(map[], map[], map[])

  /** The entry map and the two timestamp maps have the same keys at both levels. */
  predicate Agree(st: Store)
  {
    && st.logs.Keys == st.groupTS.Keys
    && st.logs.Keys == st.spanTS.Keys
    && forall g | g in st.logs :: st.logs[g].Keys == st.spanTS[g].Keys
  }

  /** The store invariant: key agreement plus the invariant of every span list. */
  predicate Inv(st: Store, caps: Caps)
  {
    && Agree(st)
    && forall g | g in st.logs :: forall s | s in st.logs[g] :: SpanInv(st.logs[g][s], g, s, caps.messages)
  }

  /** Group and span counts within their capacities. */
  predicate Bounded(st: Store, caps: Caps)
  {
    && |st.groupTS| <= caps.groups
    && forall g | g in st.spanTS :: |st.spanTS[g]| <= caps.spans
  }

  /** `k` is a key whose timestamp is not later than any other. */
  predicate Oldest(ts: map<string, nat>, k: string)
  {
    k in ts && forall k' | k' in ts :: ts[k] <= ts[k']
  }

  /** Writing `group` triggers group eviction: the group is new and the store is full. */
  predicate GroupEvicts(st: Store, caps: Caps, group: string)
  {
    group !in st.logs && |st.groupTS| >= caps.groups && caps.groups > 0
  }

  /** The group actually removed: none when the chosen victim is the empty name. */
  function DroppedGroups(st: Store, caps: Caps, group: string, gv: string): set<string>
  {
    if GroupEvicts(st, caps, group) && gv != "" then {gv} else {}
  }

  /** Steps 1 and 2: create the group (evicting `gv` if full) and refresh its timestamp. */
  function GroupStage(st: Store, caps: Caps, group: string, now: nat, gv: string): Store
  {
    var base :=
      if group in st.logs then st
      else
        var d := DroppedGroups(st, caps, group, gv);
        Store((st.logs - d)[group := map[]], st.groupTS - d, (st.spanTS - d)[group := map[]]);
    base.(groupTS := base.groupTS[group := now])
  }

  /** Writing `span` triggers span eviction: the span is new and its group is full. */
  predicate SpanEvicts(st: Store, caps: Caps, group: string, span: string)
    requires group in st.logs && group in st.spanTS
  {
    span !in st.logs[group] && |st.spanTS[group]| >= caps.spans && caps.spans > 0
  }

  /** The span actually removed: none when the chosen victim is the empty name. */
  function DroppedSpans(st: Store, caps: Caps, group: string, span: string, sv: string): set<string>
    requires group in st.logs && group in st.spanTS
  {
    if SpanEvicts(st, caps, group, span) && sv != "" then {sv} else {}
  }

  /** Steps 3 and 4: create the span (evicting `sv` if full) and refresh its timestamp. */
  function SpanStage(st: Store, caps: Caps, group: string, span: string, now: nat, sv: string): Store
    requires group in st.logs && group in st.spanTS
  {
    var spans := st.logs[group];
    var ts := st.spanTS[group];
    var d := DroppedSpans(st, caps, group, span, sv);
    var spans' := if span in spans then spans else (spans - d)[span := []];
    var ts' := if span in spans then ts else ts - d;
    Store(st.logs[group := spans'], st.groupTS, st.spanTS[group := ts'[span := now]])
  }

  /** Steps 5 to 7: record the message in the span's entry list. */
  function EntryStage(st: Store, caps: Caps, group: string, span: string, level: Level, msg: string, now: nat): Store
    requires group in st.logs && span in st.logs[group]
  {
    var es := st.logs[group][span];
    st.(logs := st.logs[group := st.logs[group][span := Record(es, group, span, level, msg, now, caps.messages)]])
  }

  /** One enabled write, given the group victim `gv` and the span victim `sv`. */
  function Step(st: Store, caps: Caps, level: Level, group: string, span: string, msg: string, now: nat, gv: string, sv: string): Store
    requires Agree(st)
  {
    var st1 := GroupStage(st, caps, group, now, gv);
    var st2 := SpanStage(st1, caps, group, span, now, sv);
    EntryStage(st2, caps, group, span, level, msg, now)
  }

  /** The victims are ones the eviction scans can pick: an oldest key whenever eviction is triggered. */
  predicate ValidChoices(st: Store, caps: Caps, group: string, span: string, now: nat, gv: string, sv: string)
    requires Agree(st)
  {
    && (GroupEvicts(st, caps, group) ==> Oldest(st.groupTS, gv))
    && var st1 := GroupStage(st, caps, group, now, gv);
       SpanEvicts(st1, caps, group, span) ==> Oldest(st1.spanTS[group], sv)
  }

  /** `st'` is a possible result of one write into `st`; a disabled store does not change. */
  ghost predicate Writes(st: Store, st': Store, caps: Caps, enabled: bool, level: Level, group: string, span: string, msg: string, now: nat)
    requires Agree(st)
  {
    if !enabled then st' == st
    else exists gv, sv :: ValidChoices(st, caps, group, span, now, gv, sv) && st' == Step(st, caps, level, group, span, msg, now, gv, sv)
  }

  /** The entry list a write starts from: the span's, or empty if the group or span is new. */
  function Previous(st: Store, group: string, span: string): seq<Entry>
  {
    if group in st.logs && span in st.logs[group] then st.logs[group][span] else []
  }

  /** The span timestamps of `group` before a write; none if the group is new. */
  function SpansBefore(st: Store, group: string): map<string, nat>
  {
    if group in st.spanTS then st.spanTS[group] else map[]
  }

  /**
   * The span a write evicts, stated on the store before the write.
   * `DroppedSpans` is stated on the store after the group stage, which for
   * a new group holds no spans; this form lets the lemmas about a write
   * speak of the store the write starts from.
   */
  function SpanVictims(st: Store, caps: Caps, group: string, span: string, sv: string): set<string>
    requires Agree(st)
  {
    if group in st.logs && SpanEvicts(st, caps, group, span) && sv != "" then {sv} else {}
  }

  /** The group stage: the written group exists with its old spans, and only the victim is gone. */
  lemma GroupStageFacts(st: Store, caps: Caps, group: string, now: nat, gv: string, st1: Store)
    requires Agree(st) && st1 == GroupStage(st, caps, group, now, gv)
    ensures Agree(st1)
    ensures group in st1.logs && group in st1.spanTS
    ensures st1.logs[group] == (if group in st.logs then st.logs[group] else map[])
    ensures st1.spanTS[group] == SpansBefore(st, group)
    ensures st1.groupTS[group] == now
    ensures st1.groupTS.Keys == (st.groupTS.Keys - DroppedGroups(st, caps, group, gv)) + {group}
    ensures forall g | g in st1.logs && g != group ::
      && g in st.logs && st1.logs[g] == st.logs[g]
      && st1.groupTS[g] == st.groupTS[g] && st1.spanTS[g] == st.spanTS[g]
  {
    GroupStageAgrees(st, caps, group, now, gv, st1);
    GroupStageKeys(st, caps, group, now, gv, st1);
    GroupStageOthers(st, caps, group, now, gv, st1);
  }

  /** The group stage for a new group, from the maps left after the eviction step. */
  lemma NewGroupStage(st: Store, caps: Caps, group: string, now: nat, gv: string,
                      l: map<string, map<string, seq<Entry>>>, g: map<string, nat>, s: map<string, map<string, nat>>)
    requires group !in st.logs
    requires DroppedGroups(st, caps, group, gv) != {} ==> l == st.logs - {gv} && g == st.groupTS - {gv} && s == st.spanTS - {gv}
    requires DroppedGroups(st, caps, group, gv) == {} ==> l == st.logs && g == st.groupTS && s == st.spanTS
    ensures Store(l[group := map[]], g[group := now], s[group := map[]]) == GroupStage(st, caps, group, now, gv)
  {
    var d := DroppedGroups(st, caps, group, gv);
    if d == {} {
      assert st.logs - d == st.logs && st.groupTS - d == st.groupTS && st.spanTS - d == st.spanTS;
    }
  }

  lemma GroupStageAgrees(st: Store, caps: Caps, group: string, now: nat, gv: string, st1: Store)
    requires Agree(st) && st1 == GroupStage(st, caps, group, now, gv)
    ensures Agree(st1)
  {
  }

  lemma GroupStageKeys(st: Store, caps: Caps, group: string, now: nat, gv: string, st1: Store)
    requires Agree(st) && st1 == GroupStage(st, caps, group, now, gv)
    ensures group in st1.logs && group in st1.spanTS
    ensures st1.logs[group] == (if group in st.logs then st.logs[group] else map[])
    ensures st1.spanTS[group] == SpansBefore(st, group)
    ensures st1.groupTS[group] == now
    ensures st1.groupTS.Keys == (st.groupTS.Keys - DroppedGroups(st, caps, group, gv)) + {group}
  {
    if group in st.logs {
      assert st1 == st.(groupTS := st.groupTS[group := now]);
    } else {
      var d := DroppedGroups(st, caps, group, gv);
      assert st1 == Store((st.logs - d)[group := map[]], (st.groupTS - d)[group := now], (st.spanTS - d)[group := map[]]);
    }
  }

  lemma GroupStageOthers(st: Store, caps: Caps, group: string, now: nat, gv: string, st1: Store)
    requires Agree(st) && st1 == GroupStage(st, caps, group, now, gv)
    ensures forall g | g in st1.logs && g != group ::
      && g in st.logs && st1.logs[g] == st.logs[g]
      && st1.groupTS[g] == st.groupTS[g] && st1.spanTS[g] == st.spanTS[g]
  {
  }

  /** The span stage changes only the written group's span map and timestamps. */
  lemma SpanStageFacts(st: Store, caps: Caps, group: string, span: string, now: nat, sv: string, st2: Store)
    requires Agree(st) && group in st.logs && st2 == SpanStage(st, caps, group, span, now, sv)
    ensures Agree(st2)
    ensures st2.logs.Keys == st.logs.Keys && st2.groupTS == st.groupTS
    ensures span in st2.logs[group] && st2.spanTS[group][span] == now
    ensures st2.logs[group][span] == (if span in st.logs[group] then st.logs[group][span] else [])
    ensures st2.spanTS[group].Keys == (st.spanTS[group].Keys - DroppedSpans(st, caps, group, span, sv)) + {span}
    ensures forall s | s in st2.logs[group] && s != span ::
      && s in st.logs[group] && st2.logs[group][s] == st.logs[group][s]
      && st2.spanTS[group][s] == st.spanTS[group][s]
    ensures forall g | g in st2.logs && g != group :: st2.logs[g] == st.logs[g] && st2.spanTS[g] == st.spanTS[g]
  {
    SpanStageKeys(st, caps, group, span, now, sv, st2);
    SpanStageOthers(st, caps, group, span, now, sv, st2);
  }

  lemma SpanStageKeys(st: Store, caps: Caps, group: string, span: string, now: nat, sv: string, st2: Store)
    requires Agree(st) && group in st.logs && st2 == SpanStage(st, caps, group, span, now, sv)
    ensures Agree(st2)
    ensures st2.logs.Keys == st.logs.Keys && st2.groupTS == st.groupTS
    ensures span in st2.logs[group] && st2.spanTS[group][span] == now
    ensures st2.logs[group][span] == (if span in st.logs[group] then st.logs[group][span] else [])
    ensures st2.spanTS[group].Keys == (st.spanTS[group].Keys - DroppedSpans(st, caps, group, span, sv)) + {span}
  {
    var d := DroppedSpans(st, caps, group, span, sv);
    if span !in st.logs[group] {
      assert st2.logs[group] == (st.logs[group] - d)[span := []];
      assert st2.spanTS[group] == (st.spanTS[group] - d)[span := now];
    }
  }

  lemma SpanStageOthers(st: Store, caps: Caps, group: string, span: string, now: nat, sv: string, st2: Store)
    requires Agree(st) && group in st.logs && st2 == SpanStage(st, caps, group, span, now, sv)
    ensures forall s | s in st2.logs[group] && s != span ::
      && s in st.logs[group] && st2.logs[group][s] == st.logs[group][s]
      && st2.spanTS[group][s] == st.spanTS[group][s]
    ensures forall g | g in st2.logs && g != group :: st2.logs[g] == st.logs[g] && st2.spanTS[g] == st.spanTS[g]
  {
  }

  /** The entry stage changes only the written span's entry list. */
  lemma EntryStageFacts(st: Store, caps: Caps, group: string, span: string, level: Level, msg: string, now: nat, r: Store)
    requires Agree(st) && group in st.logs && span in st.logs[group]
    requires r == EntryStage(st, caps, group, span, level, msg, now)
    ensures Agree(r)
    ensures r.groupTS == st.groupTS && r.spanTS == st.spanTS && r.logs.Keys == st.logs.Keys
    ensures r.logs[group].Keys == st.logs[group].Keys
    ensures r.logs[group][span] == Record(st.logs[group][span], group, span, level, msg, now, caps.messages)
    ensures forall s | s in r.logs[group] && s != span :: r.logs[group][s] == st.logs[group][s]
    ensures forall g | g in r.logs && g != group :: r.logs[g] == st.logs[g]
  {
  }

  /** The span victim seen by the span stage, stated on the store before the write. */
  lemma SpanVictimsBefore(st: Store, caps: Caps, group: string, span: string, now: nat, gv: string, sv: string, st1: Store)
    requires Agree(st) && st1 == GroupStage(st, caps, group, now, gv)
    ensures group in st1.logs && group in st1.spanTS
    ensures DroppedSpans(st1, caps, group, span, sv) == SpanVictims(st, caps, group, span, sv)
    ensures SpanEvicts(st1, caps, group, span) ==> group in st.logs && st1.spanTS[group] == st.spanTS[group]
  {
    GroupStageFacts(st, caps, group, now, gv, st1);
  }

  /**
   * After an enabled write the group and span exist with timestamp `now`,
   * and the span's entries are its previous entries (none if new) with the
   * message recorded; an empty message leaves them as they were.
   */
  lemma StepTouches(st: Store, caps: Caps, level: Level, group: string, span: string, msg: string, now: nat, gv: string, sv: string)
    requires Agree(st)
    ensures var r := Step(st, caps, level, group, span, msg, now, gv, sv);
      && Agree(r)
      && group in r.logs && span in r.logs[group]
      && r.groupTS[group] == now && r.spanTS[group][span] == now
      && r.logs[group][span] == Record(Previous(st, group, span), group, span, level, msg, now, caps.messages)
      && (msg == "" ==> r.logs[group][span] == Previous(st, group, span))
  {
    var st1 := GroupStage(st, caps, group, now, gv);
    GroupStageFacts(st, caps, group, now, gv, st1);
    var st2 := SpanStage(st1, caps, group, span, now, sv);
    SpanStageFacts(st1, caps, group, span, now, sv, st2);
    var r := EntryStage(st2, caps, group, span, level, msg, now);
    EntryStageFacts(st2, caps, group, span, level, msg, now, r);
    assert st2.logs[group][span] == Previous(st, group, span);
  }

  /**
   * Group eviction: the written group is added and at most the victim is
   * removed, and only when the group is new and the store full; the victim
   * is an oldest group; every other group is unchanged.
   */
  lemma StepGroups(st: Store, caps: Caps, level: Level, group: string, span: string, msg: string, now: nat, gv: string, sv: string)
    requires Agree(st)
    ensures var r := Step(st, caps, level, group, span, msg, now, gv, sv);
      && r.groupTS.Keys == (st.groupTS.Keys - DroppedGroups(st, caps, group, gv)) + {group}
      && r.logs.Keys == r.groupTS.Keys && r.spanTS.Keys == r.groupTS.Keys
      && (DroppedGroups(st, caps, group, gv) != {} ==> group !in st.logs && |st.groupTS| >= caps.groups)
      && (ValidChoices(st, caps, group, span, now, gv, sv) ==>
            forall v | v in DroppedGroups(st, caps, group, gv) :: Oldest(st.groupTS, v) && v != "")
      && forall g | g in r.logs && g != group ::
           && g in st.logs && r.logs[g] == st.logs[g]
           && r.groupTS[g] == st.groupTS[g] && r.spanTS[g] == st.spanTS[g]
  {
    StepGroupKeys(st, caps, level, group, span, msg, now, gv, sv);
    StepGroupOthers(st, caps, level, group, span, msg, now, gv, sv);
  }

  lemma StepGroupKeys(st: Store, caps: Caps, level: Level, group: string, span: string, msg: string, now: nat, gv: string, sv: string)
    requires Agree(st)
    ensures var r := Step(st, caps, level, group, span, msg, now, gv, sv);
      && r.groupTS.Keys == (st.groupTS.Keys - DroppedGroups(st, caps, group, gv)) + {group}
      && r.logs.Keys == r.groupTS.Keys && r.spanTS.Keys == r.groupTS.Keys
  {
    var st1 := GroupStage(st, caps, group, now, gv);
    GroupStageFacts(st, caps, group, now, gv, st1);
    var st2 := SpanStage(st1, caps, group, span, now, sv);
    SpanStageFacts(st1, caps, group, span, now, sv, st2);
    var r := EntryStage(st2, caps, group, span, level, msg, now);
    EntryStageFacts(st2, caps, group, span, level, msg, now, r);
  }

  lemma StepGroupOthers(st: Store, caps: Caps, level: Level, group: string, span: string, msg: string, now: nat, gv: string, sv: string)
    requires Agree(st)
    ensures var r := Step(st, caps, level, group, span, msg, now, gv, sv);
      forall g | g in r.logs && g != group ::
        && g in st.logs && r.logs[g] == st.logs[g]
        && r.groupTS[g] == st.groupTS[g] && r.spanTS[g] == st.spanTS[g]
  {
    var st1 := GroupStage(st, caps, group, now, gv);
    GroupStageFacts(st, caps, group, now, gv, st1);
    var st2 := SpanStage(st1, caps, group, span, now, sv);
    SpanStageFacts(st1, caps, group, span, now, sv, st2);
    var r := EntryStage(st2, caps, group, span, level, msg, now);
    EntryStageFacts(st2, caps, group, span, level, msg, now, r);
  }

  /**
   * Span eviction within the written group: the span is added and at most
   * the victim is removed, and only when the span is new and the group full;
   * the victim is an oldest span; every other span of the group is unchanged.
   */
  lemma StepSpans(st: Store, caps: Caps, level: Level, group: string, span: string, msg: string, now: nat, gv: string, sv: string)
    requires Agree(st)
    ensures var r := Step(st, caps, level, group, span, msg, now, gv, sv);
      && group in r.logs && group in r.spanTS
      && r.spanTS[group].Keys == (SpansBefore(st, group).Keys - SpanVictims(st, caps, group, span, sv)) + {span}
      && r.logs[group].Keys == r.spanTS[group].Keys
      && (SpanVictims(st, caps, group, span, sv) != {} ==>
            group in st.logs && span !in st.logs[group] && |st.spanTS[group]| >= caps.spans)
      && (ValidChoices(st, caps, group, span, now, gv, sv) ==>
            forall v | v in SpanVictims(st, caps, group, span, sv) :: Oldest(st.spanTS[group], v) && v != "")
      && forall s | s in r.logs[group] && s != span ::
           && group in st.logs && s in st.logs[group]
           && r.logs[group][s] == st.logs[group][s] && r.spanTS[group][s] == st.spanTS[group][s]
  {
    var st1 := GroupStage(st, caps, group, now, gv);
    GroupStageFacts(st, caps, group, now, gv, st1);
    SpanVictimsBefore(st, caps, group, span, now, gv, sv, st1);
    var st2 := SpanStage(st1, caps, group, span, now, sv);
    SpanStageFacts(st1, caps, group, span, now, sv, st2);
    var r := EntryStage(st2, caps, group, span, level, msg, now);
    EntryStageFacts(st2, caps, group, span, level, msg, now, r);
  }

  /** Every write keeps the store invariant. */
  lemma StepKeepsInv(st: Store, caps: Caps, level: Level, group: string, span: string, msg: string, now: nat, gv: string, sv: string)
    requires Inv(st, caps) && 0 <= caps.messages
    ensures Inv(Step(st, caps, level, group, span, msg, now, gv, sv), caps)
  {
    var r := Step(st, caps, level, group, span, msg, now, gv, sv);
    StepTouches(st, caps, level, group, span, msg, now, gv, sv);
    StepGroups(st, caps, level, group, span, msg, now, gv, sv);
    StepSpans(st, caps, level, group, span, msg, now, gv, sv);
    RecordKeepsSpanInv(Previous(st, group, span), group, span, level, msg, now, caps.messages);
    forall g | g in r.logs
      ensures forall s | s in r.logs[g] :: SpanInv(r.logs[g][s], g, s, caps.messages)
    {
      forall s | s in r.logs[g] ensures SpanInv(r.logs[g][s], g, s, caps.messages) {
        if g != group {
          assert r.logs[g][s] == st.logs[g][s];
        } else if s != span {
          assert r.logs[g][s] == st.logs[g][s];
        }
      }
    }
  }

  /**
   * A write carried out stage by stage, with victims the scans can pick, is
   * one of the writes `Writes` allows, and it keeps the store invariant.
   */
  lemma StagedWrite(st: Store, caps: Caps, level: Level, group: string, span: string, msg: string, now: nat,
                    gv: string, sv: string, st1: Store, st2: Store, r: Store)
    requires Inv(st, caps) && 0 <= caps.messages
    requires st1 == GroupStage(st, caps, group, now, gv) && (GroupEvicts(st, caps, group) ==> Oldest(st.groupTS, gv))
    requires group in st1.logs && group in st1.spanTS
    requires st2 == SpanStage(st1, caps, group, span, now, sv) && (SpanEvicts(st1, caps, group, span) ==> Oldest(st1.spanTS[group], sv))
    requires group in st2.logs && span in st2.logs[group]
    requires r == EntryStage(st2, caps, group, span, level, msg, now)
    ensures Inv(r, caps)
    ensures Writes(st, r, caps, true, level, group, span, msg, now)
  {
    assert r == Step(st, caps, level, group, span, msg, now, gv, sv);
    assert ValidChoices(st, caps, group, span, now, gv, sv);
    StepKeepsInv(st, caps, level, group, span, msg, now, gv, sv);
  }

  /** No eviction scan that fires picks the empty name, stated on the store before the write as `SpanVictims` is. */
  predicate NoEmptyVictim(st: Store, caps: Caps, group: string, span: string, gv: string, sv: string)
    requires Agree(st)
  {
    && (GroupEvicts(st, caps, group) ==> gv != "")
    && (group in st.logs && SpanEvicts(st, caps, group, span) ==> sv != "")
  }

  /** Size of a key set after removing some of its keys and adding one. */
  lemma {:induction false} KeysAfter(ks: set<string>, d: set<string>, k: string)
    requires d <= ks && k !in d
    ensures |(ks - d) + {k}| == |ks| - |d| + (if k in ks then 0 else 1)
  {
    assert ks == (ks - d) + d;
    assert |ks| == |ks - d| + |d|;
    if k in ks {
      assert (ks - d) + {k} == ks - d;
    }
  }

  /** Group and span counts stay within their capacities whenever no empty-named key is evicted. */
  lemma StepBounded(st: Store, caps: Caps, level: Level, group: string, span: string, msg: string, now: nat, gv: string, sv: string)
    requires Agree(st) && Sized(caps) && Bounded(st, caps)
    requires ValidChoices(st, caps, group, span, now, gv, sv) && NoEmptyVictim(st, caps, group, span, gv, sv)
    ensures Bounded(Step(st, caps, level, group, span, msg, now, gv, sv), caps)
  {
    var r := Step(st, caps, level, group, span, msg, now, gv, sv);
    StepBoundsGroups(st, caps, level, group, span, msg, now, gv, sv);
    StepBoundsSpans(st, caps, level, group, span, msg, now, gv, sv);
    StepGroups(st, caps, level, group, span, msg, now, gv, sv);
    forall g | g in r.spanTS ensures |r.spanTS[g]| <= caps.spans {
      if g != group {
        assert r.spanTS[g] == st.spanTS[g];
      }
    }
  }

  /** The group count stays within its capacity when an evicting write drops an oldest, non-empty group name. */
  lemma StepBoundsGroups(st: Store, caps: Caps, level: Level, group: string, span: string, msg: string, now: nat, gv: string, sv: string)
    requires Agree(st) && Sized(caps) && Bounded(st, caps)
    requires GroupEvicts(st, caps, group) ==> Oldest(st.groupTS, gv) && gv != ""
    ensures |Step(st, caps, level, group, span, msg, now, gv, sv).groupTS| <= caps.groups
  {
    var st1 := GroupStage(st, caps, group, now, gv);
    GroupStageKeys(st, caps, group, now, gv, st1);
    var ks := st.groupTS.Keys;
    var d := DroppedGroups(st, caps, group, gv);
    if GroupEvicts(st, caps, group) {
      assert d == {gv} && gv in ks && group !in ks;
      KeysAfter(ks, d, group);
      assert |ks| == caps.groups;
    } else {
      assert d == {};
      KeysAfter(ks, d, group);
      assert group !in ks ==> |ks| < caps.groups;
    }
    assert |st1.groupTS| == |st1.groupTS.Keys|;
    assert Step(st, caps, level, group, span, msg, now, gv, sv).groupTS == st1.groupTS;
  }

  /** The written group's span count stays within its capacity. */
  lemma StepBoundsSpans(st: Store, caps: Caps, level: Level, group: string, span: string, msg: string, now: nat, gv: string, sv: string)
    requires Agree(st) && Sized(caps) && Bounded(st, caps)
    requires ValidChoices(st, caps, group, span, now, gv, sv) && NoEmptyVictim(st, caps, group, span, gv, sv)
    ensures var r := Step(st, caps, level, group, span, msg, now, gv, sv);
      group in r.spanTS && |r.spanTS[group]| <= caps.spans
  {
    var r := Step(st, caps, level, group, span, msg, now, gv, sv);
    StepSpans(st, caps, level, group, span, msg, now, gv, sv);
    var before := SpansBefore(st, group);
    var ds := SpanVictims(st, caps, group, span, sv);
    if group in st.logs && SpanEvicts(st, caps, group, span) {
      assert ds == {sv} && sv in before.Keys;
    } else {
      assert ds == {};
    }
    KeysAfter(before.Keys, ds, span);
    assert |r.spanTS[group]| == |r.spanTS[group].Keys|;
  }

  /** A write that triggers no group eviction adds the written group and removes none. */
  lemma WritesAddsGroup(st: Store, st': Store, caps: Caps, level: Level, group: string, span: string, msg: string, now: nat)
    requires Agree(st) && Writes(st, st', caps, true, level, group, span, msg, now)
    requires !GroupEvicts(st, caps, group)
    ensures st'.logs.Keys == st.logs.Keys + {group}
  {
    var gv, sv :| ValidChoices(st, caps, group, span, now, gv, sv) && st' == Step(st, caps, level, group, span, msg, now, gv, sv);
    StepGroupKeys(st, caps, level, group, span, msg, now, gv, sv);
    assert DroppedGroups(st, caps, group, gv) == {};
  }

  /**
   * A write that triggers group eviction, while one non-empty group is
   * strictly older than every other, removes exactly that group.
   */
  lemma WritesEvictsOldestGroup(st: Store, st': Store, caps: Caps, level: Level, group: string, span: string, msg: string, now: nat, oldest: string)
    requires Agree(st) && Writes(st, st', caps, true, level, group, span, msg, now)
    requires GroupEvicts(st, caps, group) && oldest != "" && oldest in st.groupTS
    requires forall k | k in st.groupTS && k != oldest :: st.groupTS[oldest] < st.groupTS[k]
    ensures st'.logs.Keys == (st.logs.Keys - {oldest}) + {group}
  {
    var gv, sv :| ValidChoices(st, caps, group, span, now, gv, sv) && st' == Step(st, caps, level, group, span, msg, now, gv, sv);
    StepGroupKeys(st, caps, level, group, span, msg, now, gv, sv);
    assert Oldest(st.groupTS, gv) && st.groupTS[gv] <= st.groupTS[oldest];
    assert DroppedGroups(st, caps, group, gv) == {oldest};
  }

  /** A write into an existing group that triggers no span eviction adds the written span and removes none. */
  lemma WritesAddsSpan(st: Store, st': Store, caps: Caps, level: Level, group: string, span: string, msg: string, now: nat)
    requires Agree(st) && group in st.logs && Writes(st, st', caps, true, level, group, span, msg, now)
    requires !SpanEvicts(st, caps, group, span)
    ensures group in st'.logs && st'.logs[group].Keys == st.logs[group].Keys + {span}
  {
    var gv, sv :| ValidChoices(st, caps, group, span, now, gv, sv) && st' == Step(st, caps, level, group, span, msg, now, gv, sv);
    StepSpans(st, caps, level, group, span, msg, now, gv, sv);
    assert SpanVictims(st, caps, group, span, sv) == {};
    assert SpansBefore(st, group) == st.spanTS[group];
    assert st'.spanTS[group].Keys == st.spanTS[group].Keys + {span};
  }

  /**
   * A write into an existing group that triggers span eviction, while one
   * non-empty span is strictly older than every other, removes exactly that span.
   */
  lemma WritesEvictsOldestSpan(st: Store, st': Store, caps: Caps, level: Level, group: string, span: string, msg: string, now: nat, oldest: string)
    requires Agree(st) && group in st.logs && Writes(st, st', caps, true, level, group, span, msg, now)
    requires SpanEvicts(st, caps, group, span) && oldest != "" && oldest in st.spanTS[group]
    requires forall k | k in st.spanTS[group] && k != oldest :: st.spanTS[group][oldest] < st.spanTS[group][k]
    ensures group in st'.logs && st'.logs[group].Keys == (st.logs[group].Keys - {oldest}) + {span}
  {
    var gv, sv :| ValidChoices(st, caps, group, span, now, gv, sv) && st' == Step(st, caps, level, group, span, msg, now, gv, sv);
    StepSpans(st, caps, level, group, span, msg, now, gv, sv);
    var st1 := GroupStage(st, caps, group, now, gv);
    GroupStageKeys(st, caps, group, now, gv, st1);
    assert Oldest(st.spanTS[group], sv) && st.spanTS[group][sv] <= st.spanTS[group][oldest];
    assert SpanVictims(st, caps, group, span, sv) == {oldest};
  }

  /**
   * The scan may pick the empty group name as the oldest; then nothing is
   * evicted and the store ends up holding one group more than its capacity.
   */
  lemma EmptyOldestGroupOvershoots(st: Store, caps: Caps, level: Level, group: string, span: string, msg: string, now: nat, sv: string)
    requires Agree(st) && GroupEvicts(st, caps, group) && Oldest(st.groupTS, "")
    ensures ValidChoices(st, caps, group, span, now, "", sv)
    ensures |Step(st, caps, level, group, span, msg, now, "", sv).groupTS| == |st.groupTS| + 1 > caps.groups
  {
    var r := Step(st, caps, level, group, span, msg, now, "", sv);
    StepGroups(st, caps, level, group, span, msg, now, "", sv);
    GroupStageFacts(st, caps, group, now, "", GroupStage(st, caps, group, now, ""));
    KeysAfter(st.groupTS.Keys, {}, group);
    assert |r.groupTS| == |r.groupTS.Keys|;
  }

  /**
   * Likewise for spans: when the empty span name is the oldest in a full
   * group, writing a new span evicts nothing and the group exceeds its capacity.
   */
  lemma EmptyOldestSpanOvershoots(st: Store, caps: Caps, level: Level, group: string, span: string, msg: string, now: nat, gv: string)
    requires Agree(st) && group in st.logs && span !in st.logs[group]
    requires |st.spanTS[group]| >= caps.spans > 0 && Oldest(st.spanTS[group], "")
    ensures ValidChoices(st, caps, group, span, now, gv, "")
    ensures |Step(st, caps, level, group, span, msg, now, gv, "").spanTS[group]| == |st.spanTS[group]| + 1 > caps.spans
  {
    var r := Step(st, caps, level, group, span, msg, now, gv, "");
    StepSpans(st, caps, level, group, span, msg, now, gv, "");
    GroupStageFacts(st, caps, group, now, gv, GroupStage(st, caps, group, now, gv));
    assert SpanVictims(st, caps, group, span, "") == {};
    KeysAfter(st.spanTS[group].Keys, {}, span);
    assert |r.spanTS[group]| == |r.spanTS[group].Keys|;
  }

  /**
   * One more new group while the empty name is an oldest group, with the
   * empty name picked: the write adds the group and removes none.
   */
  lemma EmptyOldestGroupAdds(st: Store, caps: Caps, level: Level, group: string, span: string, msg: string, now: nat)
    requires Agree(st) && GroupEvicts(st, caps, group) && Oldest(st.groupTS, "")
    ensures Step(st, caps, level, group, span, msg, now, "", "").groupTS.Keys == st.groupTS.Keys + {group}
  {
    StepGroupKeys(st, caps, level, group, span, msg, now, "", "");
    assert DroppedGroups(st, caps, group, "") == {};
  }

  /**
   * A write no earlier than the empty group's time, evicting nothing,
   * leaves the empty name oldest, so the next new group finds the store in
   * the same situation.
   */
  lemma EmptyOldestGroupStays(st: Store, caps: Caps, level: Level, group: string, span: string, msg: string, now: nat)
    requires Agree(st) && group != "" && Oldest(st.groupTS, "") && st.groupTS[""] <= now
    ensures var r := Step(st, caps, level, group, span, msg, now, "", "");
      Oldest(r.groupTS, "") && r.groupTS[""] == st.groupTS[""]
  {
    var r := Step(st, caps, level, group, span, msg, now, "", "");
    StepTouches(st, caps, level, group, span, msg, now, "", "");
    StepGroupKeys(st, caps, level, group, span, msg, now, "", "");
    StepGroupOthers(st, caps, level, group, span, msg, now, "", "");
    assert "" in r.groupTS;
    forall k | k in r.groupTS ensures r.groupTS[""] <= r.groupTS[k] {
      if k != group {
        assert r.groupTS[k] == st.groupTS[k];
      }
    }
  }

  /** Writing the new groups `gs` in turn at time `now`, with the empty name chosen as every group victim. */
  function FloodGroups(st: Store, caps: Caps, level: Level, gs: seq<string>, span: string, msg: string, now: nat): (r: Store)
    requires Agree(st)
    ensures Agree(r)
    decreases |gs|
  {
    if gs == [] then st
    else
      StepTouches(st, caps, level, gs[0], span, msg, now, "", "");
      FloodGroups(Step(st, caps, level, gs[0], span, msg, now, "", ""), caps, level, gs[1..], span, msg, now)
  }

  /** Every write of `FloodGroups` picks victims the eviction scans can pick. */
  ghost predicate GroupFloodAllowed(st: Store, caps: Caps, level: Level, gs: seq<string>, span: string, msg: string, now: nat)
    requires Agree(st)
    decreases |gs|
  {
    gs == [] ||
      (ValidChoices(st, caps, gs[0], span, now, "", "") &&
       GroupFloodAllowed(Step(st, caps, level, gs[0], span, msg, now, "", ""), caps, level, gs[1..], span, msg, now))
  }

  /** One write of a flood, summarised: what the next write of the flood needs of the store. */
  lemma GroupFloodStep(st: Store, caps: Caps, level: Level, group: string, span: string, msg: string, now: nat, r: Store)
    requires Agree(st) && GroupEvicts(st, caps, group) && Oldest(st.groupTS, "") && st.groupTS[""] <= now
    requires r == Step(st, caps, level, group, span, msg, now, "", "")
    ensures ValidChoices(st, caps, group, span, now, "", "")
    ensures Agree(r) && r.logs.Keys == st.logs.Keys + {group} && |r.groupTS| == |st.groupTS| + 1
    ensures Oldest(r.groupTS, "") && r.groupTS[""] == st.groupTS[""]
  {
    EmptyOldestGroupOvershoots(st, caps, level, group, span, msg, now, "");
    EmptyOldestGroupAdds(st, caps, level, group, span, msg, now);
    EmptyOldestGroupStays(st, caps, level, group, span, msg, now);
    StepTouches(st, caps, level, group, span, msg, now, "", "");
    KeysAfter(st.groupTS.Keys, {}, group);
    assert |r.groupTS| == |r.groupTS.Keys|;
  }

  /** The groups still to be written are new after the first of them is. */
  lemma FreshTail(gs: seq<string>, ks: set<string>)
    requires gs != [] && forall g | g in gs :: g !in ks
    requires forall i, j | 0 <= i < j < |gs| :: gs[i] != gs[j]
    ensures forall g | g in gs[1..] :: g !in ks + {gs[0]}
    ensures forall i, j | 0 <= i < j < |gs[1..]| :: gs[1..][i] != gs[1..][j]
  {
    forall g | g in gs[1..] ensures g != gs[0] {
      var k :| 0 <= k < |gs[1..]| && gs[1..][k] == g;
      assert gs[k + 1] == g;
    }
  }

  /**
   * While the empty name stays an oldest group, every new group is added
   * and nothing is evicted: `k` such writes leave `k` more groups than the
   * store had, however small its capacity.
   */
  lemma {:induction false} EmptyOldestGroupsGrow(st: Store, caps: Caps, level: Level, gs: seq<string>, span: string, msg: string, now: nat)
    requires Agree(st) && caps.groups > 0 && |st.groupTS| >= caps.groups
    requires Oldest(st.groupTS, "") && st.groupTS[""] <= now
    requires forall g | g in gs :: g !in st.logs
    requires forall i, j | 0 <= i < j < |gs| :: gs[i] != gs[j]
    ensures GroupFloodAllowed(st, caps, level, gs, span, msg, now)
    ensures |FloodGroups(st, caps, level, gs, span, msg, now).groupTS| == |st.groupTS| + |gs|
    decreases |gs|
  {
    if gs != [] {
      var r := Step(st, caps, level, gs[0], span, msg, now, "", "");
      GroupFloodStep(st, caps, level, gs[0], span, msg, now, r);
      FreshTail(gs, st.logs.Keys);
      EmptyOldestGroupsGrow(r, caps, level, gs[1..], span, msg, now);
    }
  }

  /**
   * One more new span of a full group while the empty name is its oldest
   * span, with the empty name picked: the write adds the span and removes none.
   */
  lemma EmptyOldestSpanAdds(st: Store, caps: Caps, level: Level, group: string, span: string, msg: string, now: nat)
    requires Agree(st) && group in st.logs && span !in st.logs[group]
    requires |st.spanTS[group]| >= caps.spans > 0 && Oldest(st.spanTS[group], "")
    ensures var r := Step(st, caps, level, group, span, msg, now, "", "");
      group in r.spanTS && r.spanTS[group].Keys == st.spanTS[group].Keys + {span}
  {
    StepSpans(st, caps, level, group, span, msg, now, "", "");
    assert SpanVictims(st, caps, group, span, "") == {};
  }

  /**
   * A write into an existing group, no earlier than the empty span's time
   * and evicting nothing, leaves the empty name the group's oldest span.
   */
  lemma EmptyOldestSpanStays(st: Store, caps: Caps, level: Level, group: string, span: string, msg: string, now: nat)
    requires Agree(st) && group in st.logs && span != ""
    requires Oldest(st.spanTS[group], "") && st.spanTS[group][""] <= now
    ensures var r := Step(st, caps, level, group, span, msg, now, "", "");
      group in r.spanTS && Oldest(r.spanTS[group], "") && r.spanTS[group][""] == st.spanTS[group][""]
  {
    var r := Step(st, caps, level, group, span, msg, now, "", "");
    StepTouches(st, caps, level, group, span, msg, now, "", "");
    StepSpans(st, caps, level, group, span, msg, now, "", "");
    assert SpanVictims(st, caps, group, span, "") == {};
    assert "" in r.spanTS[group];
    forall k | k in r.spanTS[group] ensures r.spanTS[group][""] <= r.spanTS[group][k] {
      if k != span {
        assert r.spanTS[group][k] == st.spanTS[group][k];
      }
    }
  }

  /** Writing the new spans `ss` of `group` in turn at time `now`, with the empty name chosen as every victim. */
  function FloodSpans(st: Store, caps: Caps, level: Level, group: string, ss: seq<string>, msg: string, now: nat): (r: Store)
    requires Agree(st)
    ensures Agree(r)
    decreases |ss|
  {
    if ss == [] then st
    else
      StepTouches(st, caps, level, group, ss[0], msg, now, "", "");
      FloodSpans(Step(st, caps, level, group, ss[0], msg, now, "", ""), caps, level, group, ss[1..], msg, now)
  }

  /** Every write of `FloodSpans` picks victims the eviction scans can pick. */
  ghost predicate SpanFloodAllowed(st: Store, caps: Caps, level: Level, group: string, ss: seq<string>, msg: string, now: nat)
    requires Agree(st)
    decreases |ss|
  {
    ss == [] ||
      (ValidChoices(st, caps, group, ss[0], now, "", "") &&
       SpanFloodAllowed(Step(st, caps, level, group, ss[0], msg, now, "", ""), caps, level, group, ss[1..], msg, now))
  }

  /** One write of a span flood, summarised: what the next write of the flood needs of the store. */
  lemma SpanFloodStep(st: Store, caps: Caps, level: Level, group: string, span: string, msg: string, now: nat, r: Store)
    requires Agree(st) && group in st.logs && span !in st.logs[group]
    requires |st.spanTS[group]| >= caps.spans > 0 && Oldest(st.spanTS[group], "") && st.spanTS[group][""] <= now
    requires r == Step(st, caps, level, group, span, msg, now, "", "")
    ensures ValidChoices(st, caps, group, span, now, "", "")
    ensures Agree(r) && group in r.logs && r.logs[group].Keys == st.logs[group].Keys + {span}
    ensures |r.spanTS[group]| == |st.spanTS[group]| + 1
    ensures Oldest(r.spanTS[group], "") && r.spanTS[group][""] == st.spanTS[group][""]
  {
    EmptyOldestSpanOvershoots(st, caps, level, group, span, msg, now, "");
    EmptyOldestSpanAdds(st, caps, level, group, span, msg, now);
    EmptyOldestSpanStays(st, caps, level, group, span, msg, now);
    StepTouches(st, caps, level, group, span, msg, now, "", "");
    KeysAfter(st.spanTS[group].Keys, {}, span);
    assert |r.spanTS[group]| == |r.spanTS[group].Keys|;
  }

  /**
   * While the empty name stays the oldest span of a full group, every new
   * span is added and nothing is evicted: `k` such writes leave the group
   * `k` spans larger, however small its capacity.
   */
  lemma {:induction false} EmptyOldestSpansGrow(st: Store, caps: Caps, level: Level, group: string, ss: seq<string>, msg: string, now: nat)
    requires Agree(st) && group in st.logs && caps.spans > 0 && |st.spanTS[group]| >= caps.spans
    requires Oldest(st.spanTS[group], "") && st.spanTS[group][""] <= now
    requires forall s | s in ss :: s !in st.logs[group]
    requires forall i, j | 0 <= i < j < |ss| :: ss[i] != ss[j]
    ensures SpanFloodAllowed(st, caps, level, group, ss, msg, now)
    ensures var r := FloodSpans(st, caps, level, group, ss, msg, now);
      group in r.spanTS && |r.spanTS[group]| == |st.spanTS[group]| + |ss|
    decreases |ss|
  {
    if ss != [] {
      var r := Step(st, caps, level, group, ss[0], msg, now, "", "");
      SpanFloodStep(st, caps, level, group, ss[0], msg, now, r);
      FreshTail(ss, st.logs[group].Keys);
      EmptyOldestSpansGrow(r, caps, level, group, ss[1..], msg, now);
    }
  }
}
