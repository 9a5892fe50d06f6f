# goware/tracer in Dafny

A model of the in-memory trace store of `tracer.go` and proofs about it.
The model is bounded and deduplicating. A tracer keeps log entries per
group and per span, together with the time each group and each span was
last written. It caps the number of groups, the spans per group and the
entries per span.

**Writes** (`logger.log`) happen in seven steps:
1. create the group, evicting the least recently written group when
   the store is full;
2. stamp the group with the write time;
3. create the span, evicting the least recently written span of that
   group when the group is full;
4. stamp the span with the write time;
5. drop the message if it is empty, and cut it to 1000 bytes if it is
   longer;
6. if the span already holds an entry with the same (message, level),
   raise that entry's count and refresh its time;
7. otherwise append a new entry, dropping the oldest-inserted entry
   first when the span is full.

**Reads** list groups and spans, return a group's entries (`Logs`) and
export the whole store (`ToMap`). `ToMap` filters group and span names
by prefix. It returns a nested map and a hand-framed JSON object whose
keys come most recently written first.

## Modules

- `sorting.dfy` (`Sorting`): a descending insertion sort by a
  natural-number key. It stands for the `sort.Slice` calls, and its
  contract is sortedness plus permutation.
- `entries.dfy` (`Entries`): the `logEntry` record and what one write
  does to a span's entry list (`Record`), with its lemmas.
- `store.dfy` (`TraceStore`): the three maps of the `tracer` struct as
  one value (`Store`), and a write as a function of that value (`Step`)
  built from three stages.
  - Go iterates maps in no fixed order, so the eviction victims are
    parameters of `Step`.
  - `ValidChoices` requires each victim to be an oldest key.
  - `Writes` states that some such choice was made.
  - The lemmas state key agreement, the capacity bounds, what eviction
    removes, and what stays unchanged.
- `render.dfy` (`Render`): an entry's printed line and the framing of
  the JSON text.
- `readpath.dfy` (`ReadPath`): the loops of the read path.
- `tracer.dfy` (`Tracing`): the class `Tracer`, whose fields are those
  of the `tracer` struct, and the value type `Logger`, which is bound to
  a tracer, a group and a span.
  - The write method `Write` runs the source's steps in place and is
    proved to produce `Writes` of the old state.
  - It uses the scan methods `OldestKey` and `DuplicateIndex` and the
    list update `AddEntry`.
- `scenarios.dfy` (`Scenarios`): concrete runs through the class, and
  the group order `ToMap` must give on a concrete store.

**Parameters and left-out types.**
- The clock reading of a write is the parameter `now`, and times are
  natural numbers.
- In `ToMap`, the time text of a line is the parameter `render`. It
  stands for the relative or RFC 822 rendering in a time zone.
- JSON string quoting is the parameter `quote`, standing for
  `json.Marshal` of one string.
- Strings are sequences of `char`, one `char` per byte.

**Eviction, as the code does it:**
- **The empty-name quirk.** The comments at tracer.go:327 and
  tracer.go:355 announce that the oldest group or span is found and
  removed. The guard at tracer.go:338 and tracer.go:366 ("Ensure we found
  one") skips the removal when the key found is the empty string.
  - The model keeps this behaviour: `DroppedGroups` and `DroppedSpans`
    are empty in that case.
  - `EmptyOldestGroupOvershoots` and `EmptyOldestSpanOvershoots` show
    that such a write adds a key and evicts nothing, so the store goes
    over its capacity.
  - The empty name then stays oldest for every later write of another
    key at a time no earlier than its own. So the store can grow by one
    with every write of a new key, without bound, and must while the
    empty name is the only oldest key (`EmptyOldestGroupsGrow`,
    `EmptyOldestSpansGrow` show such a run).
  - In a tie the scan may pick the other oldest key instead. That key is
    evicted and the store stays at its capacity.
  - A write into the empty name itself restamps it with the write time
    (tracer.go:349, tracer.go:376), so it is then no longer oldest.
  - The span case is the ordinary one: `Tracer.Group` hands out a
    logger whose span is the empty name (tracer.go:106-111).
  - So the capacity bound `StepBounded` is stated only for writes where
    no empty name is picked.
- **Ties.** The scans keep the first key they meet with the smallest
  time (`first || ts.Before(oldestTime)`, tracer.go:332 and
  tracer.go:360). They walk the map in Go's unspecified iteration order,
  so any oldest key may be chosen.
- **`numMessages == 0`.** That branch (tracer.go:419-421) cannot be
  reached through the constructor. It is still modelled, in
  `FifoAppend`.

## Model

| member | source | states |
|---|---|---|
| Tracing.SizeOrDefault | tracer.go:71-79 | a size below 1 becomes the default, a size of at least 1 is kept; the result is at least 1 |
| Tracing.Tracer.constructor | tracer.go:70-90 | capacities are the requested sizes or the defaults 40/60/60; the tracer is enabled, its store is empty, and the invariant holds |
| Tracing.Tracer.NewTracer | tracer.go:66-68 | a fresh, enabled, empty tracer with capacities 40/60/60 |
| Tracing.Tracer.Noop | tracer.go:92-96 | a fresh, empty, disabled tracer with capacities 1/1/1 |
| Tracing.Tracer.Trace | tracer.go:98-104 | a handle on this tracer with the given group and span |
| Tracing.Tracer.Group | tracer.go:106-111 | the handle on the given group whose span is the empty name |
| Tracing.Tracer.Enable | tracer.go:252-256 | sets the flag and leaves all three maps unchanged |
| Tracing.Tracer.Disable | tracer.go:258-262 | clears the flag and leaves all three maps unchanged |
| Tracing.Tracer.Write | tracer.go:314-425 | when disabled, nothing changes; when enabled, the new store is `Step` of the old one for victims that are oldest keys (`Writes`); the store invariant is kept |
| Tracing.Tracer.EnsureGroup | tracer.go:325-349 | the store after the group steps is `GroupStage` of the old one, and its victim is an oldest group whenever eviction is due |
| Tracing.Tracer.EnsureSpan | tracer.go:351-376 | the store after the span steps is `SpanStage` of the old one, and its victim is an oldest span of the group whenever eviction is due |
| Tracing.Tracer.WriteEntry | tracer.go:378-424 | the store after the entry steps is `EntryStage` of the old one: only the written span's list changes, to `Record` of it |
| Tracing.OldestKey | tracer.go:328-337 | for a non-empty map the result is a key whose time is not later than any other; for an empty map it is the empty name |
| Tracing.DuplicateIndex | tracer.go:392-402 | the index of the first entry with the same (message, level), or the length when there is none |
| Tracing.AddEntry | tracer.go:378-424 | the span's new entry list is `Record` of the old one |
| Tracing.Tracer.ListGroups | tracer.go:113-122 | every group name exactly once, and nothing else |
| Tracing.Tracer.ListSpans | tracer.go:124-133 | every span name of the group exactly once, none for an unknown group |
| Tracing.Tracer.Logs | tracer.go:135-168 | empty for an unknown group; otherwise one list per span of the group, each span once, spans by last-written time descending, each list sorted by time descending and a permutation of the span's stored entries |
| Tracing.Tracer.ToMap | tracer.go:170-250 | the groups are exactly those that pass the group filter, each once, by last-written time descending; each group holds exactly its spans that pass the span filter, ordered the same way, each with the printed lines of some ordering of its entries that is sorted by time and is a permutation of them (`PrintedFrom`), so entries seen at the same time may come in either order; the JSON text is exactly `Json` of those key orders and that map |
| Tracing.Logger.Span | tracer.go:278-284 | same tracer and group, the given span |
| Tracing.Logger.With | tracer.go:286-292 | same tracer, the given group and span |
| Tracing.Logger.Info | tracer.go:302-304 | a write at INFO into the handle's group and span (`Writes`) |
| Tracing.Logger.Warn | tracer.go:306-308 | a write at WARN into the handle's group and span (`Writes`) |
| Tracing.Logger.Error | tracer.go:310-312 | a write at ERROR into the handle's group and span (`Writes`) |
| Entries.Bump | tracer.go:396-397 | defines a repeat of an entry: its count goes up by one, wrapping to 0 past the `uint32` range, and its time becomes the write time; its keys and message are kept (properties in `Entries.RecordDeduplicates`) |
| Entries.FifoAppend | tracer.go:414-422 | defines the append of a new entry: below capacity it is added at the end; at capacity the oldest-inserted entry goes first; with capacity 0 the list is emptied (properties in `Entries.FifoAppendKeepsNewest`) |
| Entries.Record | tracer.go:378-424 | defines what one write does to a span's entries: an empty message changes nothing; otherwise the message is cut to 1000, a matching (message, level) is bumped, and a new one is appended (properties in `Entries.RecordDeduplicates`, `Entries.RecordAppends`, `Entries.RecordKeepsSpanInv`) |
| Entries.RecordEach | tracer.go:391-402 | defines the span's entries after the same message at the same level is written at each of a sequence of times (properties in `Entries.RecordRepeatedShape`, `Entries.RecordRepeated`) |
| Entries.RecordAll | tracer.go:302-312 | defines the span's entries after a sequence of `Info`/`Warn`/`Error` calls, each applied by `Record` in order |
| TraceStore.GroupStage | tracer.go:325-349 | defines the group steps: a new group in a full store drops the chosen victim unless it is the empty name; the group is created with no spans and stamped now (properties in `TraceStore.GroupStageFacts`) |
| TraceStore.GroupEvicts | tracer.go:325-326 | defines when a write must evict a group: the group is new, the store holds at least the group capacity, and that capacity is positive |
| TraceStore.DroppedGroups | tracer.go:338-342 | defines the groups a write removes: the chosen victim when eviction is due and the victim is not the empty name, otherwise none (properties in `TraceStore.GroupStageFacts`, `TraceStore.EmptyOldestGroupOvershoots`) |
| TraceStore.SpanEvicts | tracer.go:352-354 | defines when a write must evict a span: the span is new in its group, the group holds at least the span capacity, and that capacity is positive |
| TraceStore.DroppedSpans | tracer.go:366-369 | defines the spans a write removes: the chosen victim when eviction is due and the victim is not the empty name, otherwise none (properties in `TraceStore.SpanStageFacts`, `TraceStore.EmptyOldestSpanOvershoots`) |
| TraceStore.SpanStage | tracer.go:351-376 | defines the span steps: a new span in a full group drops the chosen victim unless it is the empty name; the span is created with no entries and stamped now (properties in `TraceStore.SpanStageFacts`) |
| TraceStore.EntryStage | tracer.go:378-424 | defines the entry steps: the written span's list becomes `Record` of it (properties in `TraceStore.EntryStageFacts`) |
| TraceStore.Step | tracer.go:324-424 | defines one enabled write for given victims: the group, span and entry stages in order (properties in `TraceStore.StepGroups`, `StepSpans`, `StepTouches`, `StepKeepsInv`) |
| TraceStore.ValidChoices | tracer.go:328-337 | defines which victims the scans can pick: an oldest group when group eviction is due, and an oldest span of the group when span eviction is due; the scan at tracer.go:356-365 is the span one |
| TraceStore.Writes | tracer.go:314-425 | defines the possible results of a write: none but the old store when disabled, otherwise `Step` for some victims the scans can pick |
| TraceStore.FloodGroups | tracer.go:325-349 | defines a run of writes of new groups, each with the empty name picked as victim; its contract keeps the maps' key sets in agreement |
| TraceStore.FloodSpans | tracer.go:351-376 | defines a run of writes of new spans of one group, each with the empty name picked as victim; its contract keeps the maps' key sets in agreement |
| TraceStore.EmptyOldestGroupsGrow | tracer.go:326-342 | while the empty name is an oldest group in a full store, every write of a run of distinct new groups is one the scans allow, and the run adds one group per write and evicts none, without bound |
| TraceStore.EmptyOldestSpansGrow | tracer.go:354-370 | while the empty name is the oldest span of a full group, every write of a run of distinct new spans is one the scans allow, and the run adds one span per write and evicts none, without bound |
| ReadPath.HasPrefix | tracer.go:182 | defines `strings.HasPrefix`: the name is at least as long as the prefix and starts with it |
| ReadPath.Matches | tracer.go:182 | defines the read filter, used for groups here and for spans at tracer.go:205: the empty filter admits every name, any other admits the names that start with it (example in `Scenarios.FilterScenario`) |
| ReadPath.PrintedFrom | tracer.go:225-236 | defines what `ToMap` promises of a span's lines: they are the printed lines of some permutation of its entries that is sorted most recent first; `sort.Slice` is not stable, so no order among equal times is fixed |
| ReadPath.SortedPrints | tracer.go:228-236 | every permutation of a span's entries sorted most recent first is an admitted printing |
| ReadPath.PrintedSorts | tracer.go:228-236 | the lines the model's sort prints are one of the admitted printings |
| Render.StringArray | tracer.go:238-239 | defines the JSON array of a span's printed lines: brackets around the quoted lines, separated by commas |
| Render.SpanMember | tracer.go:219-223 | defines one span member: a comma unless it is the first, the quoted span name, a colon, and its array of lines |
| Render.GroupMember | tracer.go:195-199 | defines one group member: a comma unless it is the first, the quoted group name, a colon, and its object of span members between braces |
| Render.SpanMembers | tracer.go:218-240 | defines a group's span members in the given order, each by `SpanMember` (properties in `Render.SpanMembersAppend`, `Render.SpanMembersOpenWithFirst`) |
| Render.GroupMembers | tracer.go:194-245 | defines the group members in the given order, each by `GroupMember` over its span order (properties in `Render.GroupMembersAppend`, `Render.GroupMembersOpenWithFirst`) |
| Render.Json | tracer.go:178-247 | defines the exported text: the group members in order between braces (properties in `Render.GroupMembersOpenWithFirst`, `Render.SpanMembersOpenWithFirst`) |
| Entries.Truncate | tracer.go:386-389 | the stored message is the prefix of the message of length min(length, 1000) |
| Entries.FirstMatch | tracer.go:393-395 | no entry before the result has the same (message, level); the entry at the result, if any, does |
| Entries.CoalescedMatchIsFirst | tracer.go:393-401 | in a list without duplicate keys, the matching entry is the one the scan stops at |
| Entries.RecordDeduplicates | tracer.go:391-402 | a repeated (message, level) raises that entry's count by one (modulo 2^32) and sets its time to now; the length and every other entry are unchanged |
| Entries.FifoAppendKeepsNewest | tracer.go:414-422 | the new entry comes last; the list grows by one below capacity, otherwise stays at capacity; the survivors are the newest old entries in their original order |
| Entries.RecordAppends | tracer.go:404-424 | a new (message, level) is appended as an entry owned by the written group and span, with the truncated message, count 1 and time now; the older survivors keep their order |
| Entries.RecordKeepsSpanInv | tracer.go:378-424 | every write keeps a span list at most at capacity, free of duplicate (message, level) pairs, owned by its group and span, with non-empty messages of at most 1000 bytes |
| Entries.RecordAllKeepsSpanInv | tracer.go:378-424 | any sequence of calls, of any messages at any levels and times, keeps that span invariant |
| Entries.RecordRepeatedShape | tracer.go:391-424 | N writes of one new (message, level) give the list after the first write, with the new entry at count N and the last write's time |
| Entries.RecordRepeated | tracer.go:391-424 | N writes of one new (message, level) leave exactly one entry for it, with count N and the time of the last write |
| TraceStore.StepTouches | tracer.go:345-385 | after an enabled write the group and span exist, both stamped now, and the span's list is `Record` of its previous list; an empty message leaves that list as it was |
| TraceStore.StepGroups | tracer.go:325-349 | the groups afterwards are the old ones minus the dropped victim, plus the written group; a victim is dropped only for a new group in a full store, is an oldest group, and is not the empty name; every other group is unchanged |
| TraceStore.StepSpans | tracer.go:351-376 | the written group's spans afterwards are its old ones minus the dropped victim, plus the written span; a victim is dropped only for a new span in a full group and is an oldest span; every other span is unchanged |
| TraceStore.StepKeepsInv | tracer.go:314-425 | every write keeps the three maps' key sets in agreement at both levels, and keeps every span list's invariant |
| TraceStore.StepBounded | tracer.go:325-376 | group and span counts stay within their capacities whenever no eviction picks the empty name |
| TraceStore.StagedWrite | tracer.go:324-424 | running the three stages with victims the scans can pick is one of the writes `Writes` allows, and it keeps the invariant |
| TraceStore.GroupStageFacts | tracer.go:325-349 | the group stage creates or keeps the written group with its old spans, stamps it, removes at most the victim, and changes no other group |
| TraceStore.SpanStageFacts | tracer.go:351-376 | the span stage creates or keeps the written span with its old entries, stamps it, removes at most the victim, and changes nothing else |
| TraceStore.EntryStageFacts | tracer.go:378-424 | the entry stage changes only the written span's entry list |
| TraceStore.WritesAddsGroup | tracer.go:325-347 | a write that triggers no group eviction adds the written group and removes none |
| TraceStore.WritesEvictsOldestGroup | tracer.go:326-342 | a write that triggers group eviction, while one non-empty group is strictly older than every other, removes exactly that group and adds the written one |
| TraceStore.WritesAddsSpan | tracer.go:352-374 | a write into an existing group that triggers no span eviction adds the written span and removes none |
| TraceStore.WritesEvictsOldestSpan | tracer.go:354-370 | a write that triggers span eviction, while one non-empty span is strictly older than every other, removes exactly that span and adds the written one |
| TraceStore.EmptyOldestGroupOvershoots | tracer.go:338-342 | when the empty name is an oldest group, the write may pick it, evicts nothing, and the group count exceeds capacity |
| TraceStore.EmptyOldestSpanOvershoots | tracer.go:366-369 | when the empty name is an oldest span of a full group, writing a new span evicts nothing and the span count exceeds capacity |
| Sorting.SortDesc | tracer.go:161-163 | the result is sorted by key, most recent first, and is a permutation of the input |
| Sorting.SortDescKeepsDistinct | tracer.go:148-152 | sorting a list of distinct names keeps it distinct and keeps exactly its names |
| Render.Formatted | tracer.go:491-507 | a line starts with `<time> - [<LEVEL>] <message>` and carries a suffix exactly when the count is above one |
| Render.Decimal | tracer.go:503 | the printed count is a non-empty string of decimal digits with no leading zero, as `%d` prints it |
| Render.DecimalRoundTrip | tracer.go:503 | reading the printed count back gives the count |
| Render.Lines | tracer.go:232-235 | one printed line per entry, in the entries' order |
| Render.SpanMembersAppend | tracer.go:218-239 | writing the next span's member after the members so far gives the members of the longer prefix |
| Render.GroupMembersAppend | tracer.go:194-245 | writing the next group's member after the members so far gives the members of the longer prefix |
| Render.GroupMembersOpenWithFirst | tracer.go:194-199 | the JSON members open with the first group's name and object, with no separator before them |
| Render.SpanMembersOpenWithFirst | tracer.go:218-223 | a group's object opens with its first span's name and lines |
| ReadPath.KeysMatching | tracer.go:180-186 | the keys that pass the prefix filter, each once, and no others |
| ReadPath.KeysByTime | tracer.go:180-192 | those keys, each once, sorted by last-written time descending |
| ReadPath.SortSpans | tracer.go:154-165 | one list per name, in the names' order, each the span's entries sorted by time |
| ReadPath.FormatSpans | tracer.go:217-240 | the group map holds exactly the given spans, each with its sorted printed lines, and the text is the span members in the given order |
| ReadPath.FormatGroup | tracer.go:201-242 | one group's filtered and ordered span names, their printed lines, and its JSON members |
| ReadPath.FormatGroups | tracer.go:194-245 | the nested map holds exactly the given groups, each as `GroupExport` describes, and the text is the group members in the given order |
| Scenarios.FifoLists | tracer.go:404-424 | with capacity 2, writing "a", "b", "c" leaves ["b", "c"] |
| Scenarios.FifoScenario | tracer.go:404-424 | through a 2/2/2 tracer, writing "a", "b", "c" into one span leaves that span of the returned tracer holding entries "b" then "c" |
| Scenarios.DuplicateLists | tracer.go:391-402 | writing "x" twice leaves one entry, with count 2 and the second write's time |
| Scenarios.DuplicateScenario | tracer.go:391-402 | through a tracer, writing INFO "x" twice into one span leaves that span of the returned tracer holding one entry, with count 2 |
| Scenarios.FilterScenario | tracer.go:180-192 | on a store holding g1, g10 and g2, with g1 written after g10, any group order meeting `ToMap`'s contract for filter "g1" is exactly g1 then g10 |
| Scenarios.TiesPrintEitherWay | tracer.go:228-230 | two entries seen at the same time may be printed in either order under `ToMap`'s contract |

## Left out

- **Locking.** The `sync.RWMutex` locking, and the unlocked `IsEnabled` check before the write lock is taken, are concurrency. Every operation is modelled as one atomic step.
- **Time.** `time.Now` is the `now` parameter of a write, and times are natural numbers. Time is not assumed to increase.
- **Rendering.** `TimeAgo`, time-zone lookup and RFC 822 formatting are wall-clock and library formatting. They are the `render` parameter of `ToMap`, so the exact-time flag and the time-zone name are not modelled.
- **Message formatting.** `fmt.Sprintf` printf substitution in `logger.log` is left out. The message passed to `Write`, `Info`, `Warn` and `Error` is the already-formatted text, and the variadic arguments are gone.
- **JSON quoting.** `json.Marshal` string escaping is the `quote` parameter. Only the `{`, `:`, `,`, `[`, `]`, `}` framing and the key order are modelled.
- **Strings.** Go strings are byte strings and are modelled with one `char` per byte. UTF-8 is not modelled, so a cut at 1000 bytes may split a character, as it does in Go.
- **Entry accessors.** The `logEntry` accessors (`Group`, `Span`, `Message`, `Level`, `Time`, `Count`) are the fields of the `Entry` datatype. `Level` is a datatype whose `Name` gives the stored text.
- **Logger accessors.** `Logger.GetGroup`, `Logger.GetSpan` and `Tracer.IsEnabled` return a field and carry no contract of their own.
- **Entry ownership.** `logger.log` fills a new entry's group and span from the handle (`l.group`, `l.span`), not from its arguments. Every caller passes the handle's own group and span, so the model uses the written keys.
- Tracing.Tracer.Logs: states only that each span's list is sorted by time and is a permutation of the stored entries. It does not state the order of entries with equal times, because `sort.Slice` is not stable. The same holds for the printed lines of `ToMap` (`PrintedFrom`), and for equal timestamps among groups and spans in `Logs` and `ToMap`.
- Tracing.Tracer.Write: `EnsureGroup`, `EnsureSpan` and `WriteEntry` are the inline code of `logger.log` split into three methods. Which of several equally old keys is evicted is a ghost out-parameter, constrained only to be an oldest key.
- Entries.RecordRepeated: assumes fewer than 2^32 writes. The count is a `uint32`, and its wrap-around on overflow is modelled in `Bump` but not reasoned about.
- **Group-eviction scenario.** The concrete run with three groups in a 2-group store is not stated. It is covered for every store by `TraceStore.WritesEvictsOldestGroup`.
