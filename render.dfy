/**
 * What `ToMap` prints (tracer.go): one line per entry,
 * `<time> - [<LEVEL>] <message>` plus ` [x<count>]` when the count is above
 * one, and the hand-framed JSON object whose key order follows the given
 * key sequences. The time text and JSON string quoting are parameters:
 * `render` stands for the relative or RFC 822 rendering in a time zone, and
 * `quote` for `json.Marshal` of one string.
 */
module Render {
  import opened Entries

  /** The decimal digit for `d`. */
  function Digit(d: nat): char
    requires d < 10
  {
    "0123456789"[d]
  }

  /** `n` in decimal, as `%d` prints it. */
  function Decimal(n: nat): (r: string)
    ensures r != []
    ensures forall i | 0 <= i < |r| :: '0' <= r[i] <= '9'
    ensures |r| > 1 ==> r[0] != '0'
    ensures n > 0 ==> r[0] != '0'
  {
    if n < 10 then [Digit(n)] else Decimal(n / 10) + [Digit(n % 10)]
  }

  /** The number a string of decimal digits denotes. */
  function DecimalValue(s: string): nat
    requires forall i | 0 <= i < |s| :: '0' <= s[i] <= '9'
  {
    if s == [] then 0 else 10 * DecimalValue(s[..|s| - 1]) + (s[|s| - 1] as int - '0' as int)
  }

  /** Printing a count and reading it back gives the count. */
  lemma {:induction false} DecimalRoundTrip(n: nat)
    ensures DecimalValue(Decimal(n)) == n
  {
    var r := Decimal(n);
    if n >= 10 {
      DecimalRoundTrip(n / 10);
      assert r[..|r| - 1] == Decimal(n / 10);
    }
  }

  /** The fixed part of an entry's line: time, level and message. */
  function LineHead(e: Entry, render: nat -> string): string
  {
    render(e.time) + " - [" + e.level.Name() + "] " + e.message
  }

  /**
   * One entry's printed line (`FormattedMessage`). It starts with the fixed
   * part and carries a suffix exactly when the entry occurred more than once.
   */
  function Formatted(e: Entry, render: nat -> string): (r: string)
    ensures |LineHead(e, render)| <= |r| && r[..|LineHead(e, render)|] == LineHead(e, render)
    ensures |r| > |LineHead(e, render)| <==> e.count > 1
  {
    var out := LineHead(e, render);
    if e.count > 1 then out + " [x" + Decimal(e.count) + "]" else out
  }

  /** The printed lines of a span's entries, in the given order. */
  function Lines(es: seq<Entry>, render: nat -> string): (r: seq<string>)
    ensures |r| == |es|
    ensures forall i | 0 <= i < |es| :: r[i] == Formatted(es[i], render)
  {
    if es == [] then [] else Lines(es[..|es| - 1], render) + [Formatted(es[|es| - 1], render)]
  }

  /** The separator Go writes before every member but the first. */
  function Sep(before: nat): string
  {
    if before > 0 then "," else ""
  }

  /** The comma-separated quoted strings of a JSON array of strings. */
  function StringItems(xs: seq<string>, quote: string -> string): string
  {
    if xs == [] then "" else StringItems(xs[..|xs| - 1], quote) + Sep(|xs| - 1) + quote(xs[|xs| - 1])
  }

  /** `json.Marshal` of a non-nil string slice. */
  function StringArray(xs: seq<string>, quote: string -> string): string
  {
    "[" + StringItems(xs, quote) + "]"
  }

  /** One member of a group's object: separator, quoted span name, colon, the span's array of lines. */
  function SpanMember(before: nat, s: string, xs: seq<string>, quote: string -> string): string
  {
    Sep(before) + quote(s) + ":" + StringArray(xs, quote)
  }

  /** The members of one group's object: each span, in order, with its array of lines. */
  function SpanMembers(spans: seq<string>, lines: map<string, seq<string>>, quote: string -> string): string
    requires forall s | s in spans :: s in lines
  {
    if spans == [] then ""
    else
      var s := spans[|spans| - 1];
      SpanMembers(spans[..|spans| - 1], lines, quote) + SpanMember(|spans| - 1, s, lines[s], quote)
  }

  /** The key orders and the nested map fit together. */
  predicate Covers(groups: seq<string>, spanOrder: map<string, seq<string>>, m: map<string, map<string, seq<string>>>)
  {
    forall g | g in groups :: g in spanOrder && g in m && forall s | s in spanOrder[g] :: s in m[g]
  }

  /** One member of the top-level object: separator, quoted group name, colon, the group's object. */
  function GroupMember(before: nat, g: string, inner: string, quote: string -> string): string
  {
    Sep(before) + quote(g) + ":{" + inner + "}"
  }

  /** The members of the top-level object: each group, in order, with its object of spans. */
  function GroupMembers(groups: seq<string>, spanOrder: map<string, seq<string>>, m: map<string, map<string, seq<string>>>, quote: string -> string): string
    requires Covers(groups, spanOrder, m)
  {
    if groups == [] then ""
    else
      var g := groups[|groups| - 1];
      GroupMembers(groups[..|groups| - 1], spanOrder, m, quote) + GroupMember(|groups| - 1, g, SpanMembers(spanOrder[g], m[g], quote), quote)
  }

  /** The JSON object `ToMap` writes: groups in `groups` order, spans in `spanOrder` order. */
  function Json(groups: seq<string>, spanOrder: map<string, seq<string>>, m: map<string, map<string, seq<string>>>, quote: string -> string): string
    requires Covers(groups, spanOrder, m)
  {
    "{" + GroupMembers(groups, spanOrder, m, quote) + "}"
  }

  /** The span members depend only on the lines of the listed spans. */
  lemma {:induction false} SpanMembersFrame(spans: seq<string>, lines: map<string, seq<string>>, lines': map<string, seq<string>>, quote: string -> string)
    requires forall s | s in spans :: s in lines && s in lines' && lines[s] == lines'[s]
    ensures SpanMembers(spans, lines, quote) == SpanMembers(spans, lines', quote)
  {
    if spans != [] {
      SpanMembersFrame(spans[..|spans| - 1], lines, lines', quote);
    }
  }

  /** The group members depend only on the listed groups' span orders and maps. */
  lemma {:induction false} GroupMembersFrame(groups: seq<string>, spanOrder: map<string, seq<string>>, m: map<string, map<string, seq<string>>>,
                                             spanOrder': map<string, seq<string>>, m': map<string, map<string, seq<string>>>, quote: string -> string)
    requires Covers(groups, spanOrder, m)
    requires forall g | g in groups :: g in spanOrder' && g in m' && spanOrder'[g] == spanOrder[g] && m'[g] == m[g]
    ensures Covers(groups, spanOrder', m')
    ensures GroupMembers(groups, spanOrder, m, quote) == GroupMembers(groups, spanOrder', m', quote)
  {
    if groups != [] {
      GroupMembersFrame(groups[..|groups| - 1], spanOrder, m, spanOrder', m', quote);
    }
  }

  /** Writing the member of `spans[j]` after those of `spans[..j]` gives the members of `spans[..j + 1]`. */
  lemma SpanMembersAppend(spans: seq<string>, j: nat, lines: map<string, seq<string>>, xs: seq<string>,
                          quote: string -> string, text: string)
    requires j < |spans| && spans[j] !in spans[..j] && forall t | t in spans[..j] :: t in lines
    requires text == SpanMembers(spans[..j], lines, quote)
    ensures text + SpanMember(j, spans[j], xs, quote) == SpanMembers(spans[..j + 1], lines[spans[j] := xs], quote)
  {
    SpanMembersFrame(spans[..j], lines, lines[spans[j] := xs], quote);
    assert spans[..j + 1][..j] == spans[..j];
  }

  /** Adding the next group to the key orders and the map keeps them covering the groups written so far. */
  lemma CoversAppend(groups: seq<string>, i: nat, spanOrder: map<string, seq<string>>, m: map<string, map<string, seq<string>>>,
                     names: seq<string>, lines: map<string, seq<string>>)
    requires i < |groups| && Covers(groups[..i], spanOrder, m) && forall s | s in names :: s in lines
    ensures Covers(groups[..i + 1], spanOrder[groups[i] := names], m[groups[i] := lines])
  {
    assert groups[..i + 1] == groups[..i] + [groups[i]];
  }

  /** Writing the member of `groups[i]` after those of `groups[..i]` gives the members of `groups[..i + 1]`. */
  lemma GroupMembersAppend(groups: seq<string>, i: nat, spanOrder: map<string, seq<string>>, m: map<string, map<string, seq<string>>>,
                           names: seq<string>, lines: map<string, seq<string>>, quote: string -> string, text: string)
    requires i < |groups| && groups[i] !in groups[..i] && Covers(groups[..i], spanOrder, m)
    requires forall s | s in names :: s in lines
    requires text == GroupMembers(groups[..i], spanOrder, m, quote)
    ensures Covers(groups[..i + 1], spanOrder[groups[i] := names], m[groups[i] := lines])
    ensures text + GroupMember(i, groups[i], SpanMembers(names, lines, quote), quote)
         == GroupMembers(groups[..i + 1], spanOrder[groups[i] := names], m[groups[i] := lines], quote)
  {
    var g := groups[i];
    CoversAppend(groups, i, spanOrder, m, names, lines);
    GroupMembersFrame(groups[..i], spanOrder, m, spanOrder[g := names], m[g := lines], quote);
    assert groups[..i + 1][..i] == groups[..i];
  }

  /** A prefix of `a` is a prefix of `a + b`. */
  lemma PrefixOfConcat(p: string, a: string, b: string)
    requires p <= a
    ensures p <= a + b
  {
    assert (a + b)[..|p|] == a[..|p|];
  }

  /**
   * The first member written is that of the first key (with no separator
   * before it): the text opens with the first group's name and object.
   */
  lemma {:induction false} GroupMembersOpenWithFirst(groups: seq<string>, spanOrder: map<string, seq<string>>, m: map<string, map<string, seq<string>>>, quote: string -> string)
    requires Covers(groups, spanOrder, m) && groups != []
    ensures GroupMember(0, groups[0], SpanMembers(spanOrder[groups[0]], m[groups[0]], quote), quote) <= GroupMembers(groups, spanOrder, m, quote)
  {
    var init := groups[..|groups| - 1];
    var g := groups[|groups| - 1];
    var first := GroupMember(0, groups[0], SpanMembers(spanOrder[groups[0]], m[groups[0]], quote), quote);
    if init != [] {
      assert init[0] == groups[0];
      GroupMembersOpenWithFirst(init, spanOrder, m, quote);
      PrefixOfConcat(first, GroupMembers(init, spanOrder, m, quote), GroupMember(|init|, g, SpanMembers(spanOrder[g], m[g], quote), quote));
    }
  }

  /** Likewise within a group: its object opens with the first span's name and lines. */
  lemma {:induction false} SpanMembersOpenWithFirst(spans: seq<string>, lines: map<string, seq<string>>, quote: string -> string)
    requires (forall s | s in spans :: s in lines) && spans != []
    ensures SpanMember(0, spans[0], lines[spans[0]], quote) <= SpanMembers(spans, lines, quote)
  {
    var init := spans[..|spans| - 1];
    var s := spans[|spans| - 1];
    if init != [] {
      assert init[0] == spans[0];
      SpanMembersOpenWithFirst(init, lines, quote);
      PrefixOfConcat(SpanMember(0, spans[0], lines[spans[0]], quote), SpanMembers(init, lines, quote), SpanMember(|init|, s, lines[s], quote));
    }
  }
}
