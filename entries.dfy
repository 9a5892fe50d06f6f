/**
 * Log entries and what a write does to one span's entry list
 * (`logEntry` and the tail of `logger.log` in tracer.go): drop empty
 * messages, truncate long ones, coalesce an exact (message, level)
 * duplicate, otherwise append with first-in-first-out eviction.
 * Strings stand for Go strings, one `char` per byte.
 */
module Entries {

  /** Longest message kept; longer ones are cut to this many bytes. */
  const MaxMessageLength := 1000

  /** The occurrence count is a Go `uint32`. */
  const CountModulus := 0x1_0000_0000
  type Count = c: nat | c < CountModulus

  /** The three severities the logger writes. */
  datatype Level = Info | Warn | Error
  {
    /** The level's name as stored and printed. */
    function Name(): string
    {
      match this
      case Info => "INFO"
      case Warn => "WARN"
      case Error => "ERROR"
    }
  }

  /**
   * One deduplicated record; the fields are the accessors `Group`, `Span`,
   * `Message`, `Level`, `Time` and `Count`. Times are abstract instants.
   */
  datatype Entry = Entry(group: string, span: string, message: string, level: Level, time: nat, count: Count)

  /** The sort key of the read path: last-seen time. */
  function TimeOf(e: Entry): nat
  {
    e.time
  }

  /** The pair that deduplication compares. */
  predicate SameKey(e: Entry, message: string, level: Level)
  {
    e.message == message && e.level == level
  }

  /** No two entries of a span share (message, level). */
  predicate Coalesced(es: seq<Entry>)
  {
    forall i, j | 0 <= i < j < |es| :: !SameKey(es[j], es[i].message, es[i].level)
  }

  /** What every stored span list satisfies. */
  predicate SpanInv(es: seq<Entry>, group: string, span: string, capacity: int)
  {
    && |es| <= capacity
    && Coalesced(es)
    && forall i | 0 <= i < |es| ::
         && es[i].group == group && es[i].span == span
         && 0 < |es[i].message| <= MaxMessageLength
  }

  /** The message as stored: its first `MaxMessageLength` bytes. */
  function Truncate(msg: string): (r: string)
    ensures |r| == if |msg| > MaxMessageLength then MaxMessageLength else |msg|
    ensures r == msg[..|r|]
  {
    if |msg| > MaxMessageLength then msg[..MaxMessageLength] else msg
  }

  /** Index of the first entry with this (message, level), or `|es|` when there is none. */
  function FirstMatch(es: seq<Entry>, message: string, level: Level): (i: nat)
    ensures i <= |es|
    ensures i < |es| ==> SameKey(es[i], message, level)
    ensures forall j | 0 <= j < i :: !SameKey(es[j], message, level)
  {
    if es == [] then 0
    else if SameKey(es[0], message, level) then 0
    else 1 + FirstMatch(es[1..], message, level)
  }

  /** A repeat of an existing entry: one more occurrence (wrapping as a `uint32`), seen now. */
  function Bump(e: Entry, now: nat): Entry
  {
    e.(count := (e.count + 1) % CountModulus, time := now)
  }

  /** Appends `e`, first dropping the oldest-inserted entry when the list is full. */
  function FifoAppend(es: seq<Entry>, e: Entry, capacity: int): seq<Entry>
  {
    if |es| < capacity then es + [e]
    else if capacity > 0 then es[1..] + [e]
    else []
  }

  /** The span's entry list after writing `msg` at `level` at time `now`. */
  function Record(es: seq<Entry>, group: string, span: string, level: Level, msg: string, now: nat, capacity: int): seq<Entry>
  {
    if |msg| == 0 then es
    else
      var m := Truncate(msg);
      var i := FirstMatch(es, m, level);
      if i < |es| then es[i := Bump(es[i], now)]
      else FifoAppend(es, Entry(group, span, m, level, now, 1), capacity)
  }

  /** In a coalesced list, the entry matching a key is the first match. */
  lemma {:induction false} CoalescedMatchIsFirst(es: seq<Entry>, i: nat, message: string, level: Level)
    requires Coalesced(es) && i < |es| && SameKey(es[i], message, level)
    ensures FirstMatch(es, message, level) == i
  {
    var k := FirstMatch(es, message, level);
  }

  /**
   * A repeated (message, level) raises that entry's count by one and sets its
   * time to `now`; the list length and every other entry stay as they were.
   */
  lemma RecordDeduplicates(es: seq<Entry>, group: string, span: string, level: Level, msg: string, now: nat, capacity: int, i: nat)
    requires msg != [] && Coalesced(es)
    requires i < |es| && SameKey(es[i], Truncate(msg), level)
    ensures var r := Record(es, group, span, level, msg, now, capacity);
      && |r| == |es|
      && r[i].message == es[i].message && r[i].level == es[i].level
      && r[i].group == es[i].group && r[i].span == es[i].span
      && r[i].count == (es[i].count + 1) % CountModulus && r[i].time == now
      && forall j | 0 <= j < |es| && j != i :: r[j] == es[j]
  {
    CoalescedMatchIsFirst(es, i, Truncate(msg), level);
  }

  /**
   * First-in-first-out append into a list holding at most `capacity`
   * entries: `e` comes last and the survivors are the newest old entries in
   * their original order.
   */
  lemma FifoAppendKeepsNewest(es: seq<Entry>, e: Entry, capacity: int)
    requires 0 < capacity && |es| <= capacity
    ensures var r := FifoAppend(es, e, capacity);
      && |r| == (if |es| < capacity then |es| + 1 else capacity)
      && r[|r| - 1] == e
      && r[..|r| - 1] == es[|es| - (|r| - 1)..]
  {
    if |es| < capacity {
      var r := es + [e];
      assert FifoAppend(es, e, capacity) == r;
      assert r[..|r| - 1] == es;
    } else {
      var r := es[1..] + [e];
      assert FifoAppend(es, e, capacity) == r;
      assert |r| == capacity;
      assert r[..|r| - 1] == es[1..];
    }
  }

  /**
   * A new (message, level) is appended as an entry with count 1 seen `now`;
   * if the list was full its oldest-inserted entry goes first, so the
   * survivors are the newest old entries in their original order.
   */
  lemma RecordAppends(es: seq<Entry>, group: string, span: string, level: Level, msg: string, now: nat, capacity: int)
    requires msg != [] && 0 < capacity && |es| <= capacity
    requires forall j | 0 <= j < |es| :: !SameKey(es[j], Truncate(msg), level)
    ensures var r := Record(es, group, span, level, msg, now, capacity);
      && |r| == (if |es| < capacity then |es| + 1 else capacity)
      && r[|r| - 1] == Entry(group, span, Truncate(msg), level, now, 1)
      && r[..|r| - 1] == es[|es| - (|r| - 1)..]
  {
    var e := Entry(group, span, Truncate(msg), level, now, 1);
    assert Record(es, group, span, level, msg, now, capacity) == FifoAppend(es, e, capacity);
    FifoAppendKeepsNewest(es, e, capacity);
  }

  /** Every write keeps a span list's invariant: bounded, coalesced, owned and truncated. */
  lemma RecordKeepsSpanInv(es: seq<Entry>, group: string, span: string, level: Level, msg: string, now: nat, capacity: int)
    requires SpanInv(es, group, span, capacity)
    ensures SpanInv(Record(es, group, span, level, msg, now, capacity), group, span, capacity)
  {
    var r := Record(es, group, span, level, msg, now, capacity);
    if |msg| > 0 {
      var m := Truncate(msg);
      var i := FirstMatch(es, m, level);
      if i < |es| {
        forall a, b | 0 <= a < b < |r| ensures !SameKey(r[b], r[a].message, r[a].level) {
          assert SameKey(r[a], es[a].message, es[a].level) && SameKey(r[b], es[b].message, es[b].level);
        }
      } else {
        var e := Entry(group, span, m, level, now, 1);
        if 0 < capacity {
          var kept := if |es| < capacity then es else es[1..];
          assert r == kept + [e];
          forall a, b | 0 <= a < b < |r| ensures !SameKey(r[b], r[a].message, r[a].level) {
            if b == |r| - 1 {
              assert r[a] == es[a + |es| - |kept|];
            } else {
              assert r[a] == es[a + |es| - |kept|] && r[b] == es[b + |es| - |kept|];
            }
          }
          forall a | 0 <= a < |r| ensures r[a].group == group && r[a].span == span && 0 < |r[a].message| <= MaxMessageLength {
            if a < |r| - 1 {
              assert r[a] == es[a + |es| - |kept|];
            }
          }
        }
      }
    }
  }

  /** The entry list after writing the same (message, level) once per instant of `times`. */
  function RecordEach(es: seq<Entry>, group: string, span: string, level: Level, msg: string, times: seq<nat>, capacity: int): seq<Entry>
    decreases |times|
  {
    if times == [] then es
    else
      var last := times[|times| - 1];
      Record(RecordEach(es, group, span, level, msg, times[..|times| - 1], capacity), group, span, level, msg, last, capacity)
  }

  /** An entry that matches, with no match before it, is the first match. */
  lemma MatchAt(es: seq<Entry>, p: nat, message: string, level: Level)
    requires p < |es| && SameKey(es[p], message, level)
    requires forall j | 0 <= j < p :: !SameKey(es[j], message, level)
    ensures FirstMatch(es, message, level) == p
  {
  }

  /**
   * A first write of a (message, level) the list does not hold: its new
   * entry is last, counted once and seen now, and no earlier entry matches.
   */
  lemma RecordFresh(es: seq<Entry>, group: string, span: string, level: Level, msg: string, now: nat, capacity: int)
    requires 0 < capacity && |es| <= capacity && msg != []
    requires forall j | 0 <= j < |es| :: !SameKey(es[j], Truncate(msg), level)
    ensures var r := Record(es, group, span, level, msg, now, capacity);
      && 0 < |r| && SameKey(r[|r| - 1], Truncate(msg), level)
      && r[|r| - 1].count == 1 && r[|r| - 1].time == now
      && forall j | 0 <= j < |r| - 1 :: !SameKey(r[j], Truncate(msg), level)
  {
    var r := Record(es, group, span, level, msg, now, capacity);
    RecordAppends(es, group, span, level, msg, now, capacity);
    var p := |r| - 1;
    forall j | 0 <= j < p ensures !SameKey(r[j], Truncate(msg), level) {
      assert r[..p][j] == es[|es| - p..][j];
    }
  }

  /** A repeat write of the entry at `p`, the first match, raises its count by one and sets its time. */
  lemma RecordRepeatStep(r1: seq<Entry>, p: nat, c: Count, t: nat, group: string, span: string, level: Level, msg: string, now: nat, capacity: int)
    requires msg != [] && p < |r1| && SameKey(r1[p], Truncate(msg), level)
    requires forall j | 0 <= j < p :: !SameKey(r1[j], Truncate(msg), level)
    ensures Record(r1[p := r1[p].(count := c, time := t)], group, span, level, msg, now, capacity)
         == r1[p := r1[p].(count := (c + 1) % CountModulus, time := now)]
  {
    var prev := r1[p := r1[p].(count := c, time := t)];
    MatchAt(prev, p, Truncate(msg), level);
    assert prev[p := Bump(prev[p], now)] == r1[p := r1[p].(count := (c + 1) % CountModulus, time := now)];
  }

  /**
   * Writing one (message, level) N times into a span that did not hold it:
   * the first write appends its entry, and every later write only raises
   * that entry's count and time, so the result is the list after the first
   * write with that last entry at count N and the last write's time.
   */
  lemma {:induction false} RecordRepeatedShape(es: seq<Entry>, group: string, span: string, level: Level, msg: string, times: seq<nat>, capacity: int)
    requires 0 < capacity && |es| <= capacity && msg != []
    requires forall j | 0 <= j < |es| :: !SameKey(es[j], Truncate(msg), level)
    requires 0 < |times| < CountModulus
    ensures var r1 := Record(es, group, span, level, msg, times[0], capacity);
      && 0 < |r1|
      && RecordEach(es, group, span, level, msg, times, capacity)
         == r1[|r1| - 1 := r1[|r1| - 1].(count := |times|, time := times[|times| - 1])]
  {
    var r1 := Record(es, group, span, level, msg, times[0], capacity);
    RecordFresh(es, group, span, level, msg, times[0], capacity);
    var init := times[..|times| - 1];
    if init == [] {
      RecordOnceShape(es, group, span, level, msg, times, capacity, r1);
    } else {
      RecordRepeatedShape(es, group, span, level, msg, init, capacity);
      assert init[0] == times[0];
      RecordMoreShape(es, group, span, level, msg, times, capacity, r1);
    }
  }

  /** The base of `RecordRepeatedShape`: one write leaves its new entry as it is. */
  lemma RecordOnceShape(es: seq<Entry>, group: string, span: string, level: Level, msg: string, times: seq<nat>, capacity: int, r1: seq<Entry>)
    requires |times| == 1 && r1 == Record(es, group, span, level, msg, times[0], capacity)
    requires 0 < |r1| && r1[|r1| - 1].count == 1 && r1[|r1| - 1].time == times[0]
    ensures RecordEach(es, group, span, level, msg, times, capacity) == r1[|r1| - 1 := r1[|r1| - 1].(count := 1, time := times[0])]
  {
    assert times[..0] == [];
    assert r1[|r1| - 1 := r1[|r1| - 1].(count := 1, time := times[0])] == r1;
  }

  /** The step of `RecordRepeatedShape`: one more write of the same message raises the last entry's count. */
  lemma RecordMoreShape(es: seq<Entry>, group: string, span: string, level: Level, msg: string, times: seq<nat>, capacity: int, r1: seq<Entry>)
    requires 1 < |times| < CountModulus && msg != []
    requires 0 < |r1| && SameKey(r1[|r1| - 1], Truncate(msg), level)
    requires forall j | 0 <= j < |r1| - 1 :: !SameKey(r1[j], Truncate(msg), level)
    requires var init := times[..|times| - 1];
      RecordEach(es, group, span, level, msg, init, capacity)
      == r1[|r1| - 1 := r1[|r1| - 1].(count := |init|, time := init[|init| - 1])]
    ensures RecordEach(es, group, span, level, msg, times, capacity)
         == r1[|r1| - 1 := r1[|r1| - 1].(count := |times|, time := times[|times| - 1])]
  {
    var init := times[..|times| - 1];
    RecordRepeatStep(r1, |r1| - 1, |init|, init[|init| - 1], group, span, level, msg, times[|times| - 1], capacity);
  }

  /**
   * Writing one (message, level) N times into a span that did not hold it
   * leaves exactly one entry for it, with count N and the last write's time.
   */
  lemma RecordRepeated(es: seq<Entry>, group: string, span: string, level: Level, msg: string, times: seq<nat>, capacity: int)
    requires SpanInv(es, group, span, capacity) && 0 < capacity && msg != []
    requires forall j | 0 <= j < |es| :: !SameKey(es[j], Truncate(msg), level)
    requires 0 < |times| < CountModulus
    ensures var r := RecordEach(es, group, span, level, msg, times, capacity);
      var i := FirstMatch(r, Truncate(msg), level);
      && i < |r|
      && r[i].count == |times| && r[i].time == times[|times| - 1]
      && forall j | 0 <= j < |r| && j != i :: !SameKey(r[j], Truncate(msg), level)
  {
    var r1 := Record(es, group, span, level, msg, times[0], capacity);
    RecordFresh(es, group, span, level, msg, times[0], capacity);
    RecordRepeatedShape(es, group, span, level, msg, times, capacity);
    var r := RecordEach(es, group, span, level, msg, times, capacity);
    MatchAt(r, |r1| - 1, Truncate(msg), level);
  }

  /** One call of `Info`, `Warn` or `Error` on a span: its level, its message and its time. */
  datatype Call = Call(level: Level, msg: string, now: nat)

  /** The entry list after the calls of `calls`, in order. */
  function RecordAll(es: seq<Entry>, group: string, span: string, calls: seq<Call>, capacity: int): seq<Entry>
    decreases |calls|
  {
    if calls == [] then es
    else
      var c := calls[|calls| - 1];
      Record(RecordAll(es, group, span, calls[..|calls| - 1], capacity), group, span, c.level, c.msg, c.now, capacity)
  }

  /** Any sequence of writes, of any messages at any levels, keeps the span invariant. */
  lemma {:induction false} RecordAllKeepsSpanInv(es: seq<Entry>, group: string, span: string, calls: seq<Call>, capacity: int)
    requires SpanInv(es, group, span, capacity)
    ensures SpanInv(RecordAll(es, group, span, calls, capacity), group, span, capacity)
    decreases |calls|
  {
    if calls != [] {
      var init := calls[..|calls| - 1];
      var c := calls[|calls| - 1];
      RecordAllKeepsSpanInv(es, group, span, init, capacity);
      RecordKeepsSpanInv(RecordAll(es, group, span, init, capacity), group, span, c.level, c.msg, c.now, capacity);
    }
  }
}
