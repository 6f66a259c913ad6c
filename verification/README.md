# ReKact `Kact` in Dafny

A model of `Kact`, the core of ReKact. `Kact` parses an act string: a `;`-separated log of
keyboard actions, each a `,`-separated list of 7 or 8 tokens, possibly embedded in a larger
sensor payload. It validates the string all-or-nothing and keeps the decoded key actions with
two counts. It then replays them. The replay emits a wait before each event and correlates every
KeyPress and KeyUp with an earlier KeyDown. It does this through a press queue and an up queue,
matching on key code and identity hash.

Modules, leaves first:

- `Options` (`options.dfy`): the optional value standing for C# `null`, with `??`.
- `Acts` (`acts.dfy`): the `ActTypes` enum and the `KeyAct` record. Also the collaborators
  `Kact` calls but does not define, passed in as a `Collaborators` value of plain functions:
  `Globals.Regexes.ValidateKactString.IsMatch`, the `Kact` group of
  `Globals.Regexes.ExtractKactFromSensor`, `new KeyAct(string[])` and `KeyAct.GetKeyByKeyCode`.
  It also holds LINQ `Count(predicate)` and a 32-bit wrap-around for C# `int` arithmetic.
- `Text` (`text.dfy`): `String.Split` with `RemoveEmptyEntries`, `String.Trim(chars)` and
  ordinal `String.Contains`, with their round trips and uniqueness.
- `Validation` (`validation.dfy`): `SplitKacts`, `SplitAct` and `Validate`.
- `Correlation` (`correlation.dfy`): `FireEvent` as a pure `Step` on an engine state. The
  press queue, up queue and unknowns list hold positions in the key list. `chars` holds the
  `Char` each key currently carries, and `total` is `_totalCharReKacts`.
- `Invariant` (`invariant.dfy`): what every replay state satisfies, and that `Step` keeps it.
- `Aggregate` (`aggregate.dfy`): the constructor, `IsValid`, `SetStats`, `GetSummary` and
  `ToString`.
- `Replay` (`replay.dfy`): `Play` as a fold of `Step` with a trace of notices (waits and fired
  events with queue snapshots), `GetLeftoverKeyEvents`, and what a replay keeps across calls.

Quirks of the code that the model reproduces, each with the lines of
`src/NotAnAPI.ReKact.Core/Kact.cs` that cause it:

- The synthesized-character counter survives a replay. `Play` (238-254) resets only the three
  lists (240-242), never `_totalCharReKacts` (114), and `FireEvent` writes `Char` into the shared
  `KeyAct` objects (268, 273, 302, 350). So a second replay can report different characters
  (`Replay.SecondPlayReportsOtherChar`). Only the queues and everything else in the notices
  repeat exactly (`Replay.PlayTwice`).
- `ToString` returns `_kact` (381-384), which the constructor sets whenever validation succeeds
  (134-138). A string such as `";"` validates to an empty, non-null key list, so `ToString`
  returns it although `IsValid` (41) is false (`Aggregate.EmptyKeyListKeepsText`).
- `Keys` stays null when the argument is null (123) or validation fails (134). `GetSummary`
  (209), `Play` (243) and `GetLeftoverKeyEvents` dereference it or the queues, so on such an
  instance, or before the first `Play` for the queues (364), they throw; the model states these
  as preconditions. An instance built from `";"` has an empty, non-null list and does not throw.
- A segment is accepted with 7 or 8 tokens (158).
- `time` is a C# `int`, and the wait between events is the unchecked 32-bit difference of two
  `time` values (245), so it can wrap (`Replay.WaitWrapsAround`).
- `GetLeftoverKeyEvents` counts press-queue entries with key code 2 (364), not the sentinel -2
  that `FireEvent` tests (266, 271).

## Model

| member | source | states |
|---|---|---|
| Acts.Count | src/NotAnAPI.ReKact.Core/Kact.cs:140 | LINQ `Count(predicate)` never exceeds the length of the list it counts |
| Acts.CountIsCardinality | src/NotAnAPI.ReKact.Core/Kact.cs:140 | LINQ `Count(predicate)` equals the number of positions whose element satisfies the predicate |
| Acts.CountAppend | src/NotAnAPI.ReKact.Core/Kact.cs:140 | counting is additive over concatenation |
| Acts.CountExtremes | src/NotAnAPI.ReKact.Core/Kact.cs:179 | a count is 0 exactly when no element satisfies the predicate, and the full length exactly when all do |
| Acts.KindCountsPartition | src/NotAnAPI.ReKact.Core/Kact.cs:209-212 | the KeyDown, KeyPress and KeyUp counts add up to the number of acts |
| Acts.Wrap32 | src/NotAnAPI.ReKact.Core/Kact.cs:245 | the unchecked C# `int` result differs from the exact value by a multiple of 2^32 and equals it when it fits in 32 bits |
| Text.Split | src/NotAnAPI.ReKact.Core/Kact.cs:187-200 | splitting with `RemoveEmptyEntries` yields only non-empty pieces free of the separator |
| Text.SplitEmpty | src/NotAnAPI.ReKact.Core/Kact.cs:189 | the split is empty exactly when the string holds nothing but separators |
| Text.SplitJoin | src/NotAnAPI.ReKact.Core/Kact.cs:187-200 | splitting the join of non-empty separator-free pieces gives back exactly those pieces, in order |
| Text.SplitAround | src/NotAnAPI.ReKact.Core/Kact.cs:189 | a separator cuts the split in two: the pieces are those of the left part followed by those of the right |
| Text.Trim | src/NotAnAPI.ReKact.Core/Kact.cs:132 | the trimmed text starts and ends with no `\r`, `\n`, space or tab, and only those characters pad it on either side |
| Text.TrimUnique | src/NotAnAPI.ReKact.Core/Kact.cs:132 | any unpadded string that the input pads only with trim characters is the trimmed text |
| Text.TrimIdempotent | src/NotAnAPI.ReKact.Core/Kact.cs:132 | trimming twice is trimming once |
| Text.Contains | src/NotAnAPI.ReKact.Core/Kact.cs:125-126 | ordinal `Contains` holds exactly when the needle occurs at some index |
| Validation.SplitKacts | src/NotAnAPI.ReKact.Core/Kact.cs:187-190 | the `;`-segments are non-empty and free of `;`, and there are none exactly when the text is only `;`s |
| Validation.SplitAct | src/NotAnAPI.ReKact.Core/Kact.cs:197-200 | the `,`-tokens are non-empty and free of `,`, and there are none exactly when the segment is only `,`s |
| Validation.DecodeAll | src/NotAnAPI.ReKact.Core/Kact.cs:155-160 | the loop succeeds iff every segment has 7 or 8 tokens, and then yields one decoded act per segment, in order |
| Validation.Validate | src/NotAnAPI.ReKact.Core/Kact.cs:150-163 | success iff the lexical check accepts and every non-empty `;`-segment has 7 or 8 non-empty `,`-tokens; then exactly one act per segment, in input order |
| Validation.OneBadSegmentRejectsAll | src/NotAnAPI.ReKact.Core/Kact.cs:158 | one segment with a token count outside {7, 8}, anywhere among others, rejects the whole string |
| Validation.ValidateSerialized | src/NotAnAPI.ReKact.Core/Kact.cs:150-163 | events written as `,`-joined tokens and `;`-joined events validate back to the decoded events, in order |
| Aggregate.IsValid | src/NotAnAPI.ReKact.Core/Kact.cs:41 | for an instance with a key list, valid iff the summary counts at least one act; a valid instance has its act text |
| Aggregate.ToString | src/NotAnAPI.ReKact.Core/Kact.cs:381-384 | the act text when it was set, and `""` for an instance without a key list |
| Aggregate.MustHaveChars | src/NotAnAPI.ReKact.Core/Kact.cs:140 | `_mustHaveTotalCharReKacts` is the number of KeyPress acts; 0 iff there is none |
| Aggregate.SetStats | src/NotAnAPI.ReKact.Core/Kact.cs:172-180 | `Submissions` is the number of submission acts; 0 iff there is none, so 0 for an empty list |
| Aggregate.Construct | src/NotAnAPI.ReKact.Core/Kact.cs:121-143 | null gives no keys; otherwise `SensorData` is the whole input iff it holds both markers, keys are the validation of the trimmed (extracted) act text, and text and counts are set only on success |
| Aggregate.ToStringOfConstruct | src/NotAnAPI.ReKact.Core/Kact.cs:381-384 | `ToString` is the trimmed act text when validation succeeded and `""` otherwise |
| Aggregate.ReconstructFromText | src/NotAnAPI.ReKact.Core/Kact.cs:132-138 | constructing again from `ToString` rebuilds the same keys and text, unless that text contains both sensor markers |
| Aggregate.NullInput | src/NotAnAPI.ReKact.Core/Kact.cs:41 | a null argument gives an invalid instance with no keys, no sensor data and an empty text |
| Aggregate.BlankInput | src/NotAnAPI.ReKact.Core/Kact.cs:123-134 | an input made only of trim characters gives an invalid instance with an empty text |
| Aggregate.EmptyKeyListKeepsText | src/NotAnAPI.ReKact.Core/Kact.cs:134-138 | `";"` validates to an empty key list: invalid, yet `ToString` returns `";"` |
| Aggregate.GetSummary | src/NotAnAPI.ReKact.Core/Kact.cs:206-215 | the act count is the list length; each kind count and the submission count is the number of positions of that kind or flagged as a submission; the kind counts add up to the act count, and the KeyPress count is `_mustHaveTotalCharReKacts` |
| Correlation.FirstWhere | src/NotAnAPI.ReKact.Core/Kact.cs:285-299 | the scan returns a hit and no earlier entry is one; no result means no entry is a hit |
| Correlation.FirstTakesChar | src/NotAnAPI.ReKact.Core/Kact.cs:300-302 | removing the first hit, if any, and copying its `Char` (kept when it has none) is exactly first-hit removal and `?.Char ?? Char` |
| Correlation.CharActWithHashMeans | src/NotAnAPI.ReKact.Core/Kact.cs:289-297 | the inner KeyPress scan hits iff some up-queue entry is a char act with the entry's hash |
| Correlation.OtherHashMeans | src/NotAnAPI.ReKact.Core/Kact.cs:328-336 | the inner KeyUp scan hits iff some press-queue entry has a different hash |
| Correlation.Step | src/NotAnAPI.ReKact.Core/Kact.cs:260-355 | `FireEvent` keeps one `Char` slot per key and appends the event to the unknowns exactly when it is flagged unknown, whatever its kind |
| Correlation.StepFrame | src/NotAnAPI.ReKact.Core/Kact.cs:260-355 | `FireEvent` writes only the current event's `Char`, and raises the counter by at most one, only on a KeyDown |
| Correlation.StepPositions | src/NotAnAPI.ReKact.Core/Kact.cs:260-355 | after event `i` the queues name only events up to `i` |
| Correlation.KeyDownStep | src/NotAnAPI.ReKact.Core/Kact.cs:265-279 | the event joins the up queue always and the press queue iff a char act; nothing leaves; the counter grows only for code -2 while below the bound, never passing it; only code -2 resolves a character, forced iff it counts |
| Correlation.KeyPressStep | src/NotAnAPI.ReKact.Core/Kact.cs:280-306 | up queue and counter unchanged; the press queue loses exactly its first entry with the event's code whose hash a char act of the up queue shares, others keep order; the event's `Char` becomes that entry's, and stays its own when there is none or the entry has none |
| Correlation.KeyUpStep | src/NotAnAPI.ReKact.Core/Kact.cs:307-353 | press queue and counter unchanged; with an empty up queue nothing changes; a code >= 0 takes the head; a negative code takes the first entry with that code, and with a non-empty press queue only one whose hash differs from some press entry's; the event's `Char` becomes the taken entry's, and stays its own when none is taken or the entry has none |
| Correlation.EmptyPressQueueFallThrough | src/NotAnAPI.ReKact.Core/Kact.cs:326-337 | after the code-only scan fails with an empty press queue, the fall-through scan finds nothing |
| Invariant.UnknownPositionsMeans | src/NotAnAPI.ReKact.Core/Kact.cs:262 | the reference unknowns list is increasing and holds exactly the flagged positions so far |
| Invariant.DownQueueMeans | src/NotAnAPI.ReKact.Core/Kact.cs:276-277 | a well-shaped queue is one in replay order naming only KeyDowns (char acts for the press queue) |
| Invariant.QueuesStep | src/NotAnAPI.ReKact.Core/Kact.cs:260-355 | every `FireEvent` keeps both queues in replay order, the up queue of KeyDowns and the press queue of KeyDown char acts |
| Invariant.CounterStep | src/NotAnAPI.ReKact.Core/Kact.cs:266-270 | the counter is the starting value plus the sentinel KeyDowns so far, capped at `_mustHaveTotalCharReKacts` |
| Invariant.InvariantStep | src/NotAnAPI.ReKact.Core/Kact.cs:252 | `FireEvent` keeps the whole replay invariant |
| Invariant.InvariantMeans | src/NotAnAPI.ReKact.Core/Kact.cs:240-253 | during a replay the unknowns are exactly the flagged events in order, both queues are in replay order of KeyDowns, and neither outgrows the KeyDowns so far |
| Replay.Delay | src/NotAnAPI.ReKact.Core/Kact.cs:245 | the wait is 0 when skipped, the first event's own time, and otherwise the 32-bit difference from the previous time, which is the exact difference whenever that fits |
| Replay.WaitNotices | src/NotAnAPI.ReKact.Core/Kact.cs:246-250 | one `OnWait` notice carrying the wait exactly when the wait is positive, none otherwise |
| Replay.Engines | src/NotAnAPI.ReKact.Core/Kact.cs:240-253 | the engine state after `n` iterations starts from reset lists and names only replayed events |
| Replay.RunInvariant | src/NotAnAPI.ReKact.Core/Kact.cs:240-253 | every state of a replay satisfies the replay invariant |
| Replay.Play | src/NotAnAPI.ReKact.Core/Kact.cs:238-254 | a replay keeps keys, text, sensor data and counts, and leaves the counter within its bound |
| Replay.GetLeftoverKeyEvents | src/NotAnAPI.ReKact.Core/Kact.cs:362-365 | the first figure is the number of press-queue entries with code 2 (0 iff none, the queue size iff all), the second is the up-queue size |
| Replay.WaitRule | src/NotAnAPI.ReKact.Core/Kact.cs:245-250 | skipping waits emits none; else event 0 waits its own time and event i its time minus the previous one's; a wait is emitted only when positive |
| Replay.WaitWrapsAround | src/NotAnAPI.ReKact.Core/Kact.cs:245 | the difference is unchecked 32-bit: a gap above `int.MaxValue` wraps to that gap minus 2^32 and emits no wait, and one below `int.MinValue` wraps to the gap plus 2^32 and emits that wait |
| Replay.RunNotices | src/NotAnAPI.ReKact.Core/Kact.cs:243-253 | over the first `n` events each event fires exactly once, in order; each wait notice comes directly before the event it delays and carries that event's positive wait; each event with a positive wait has that notice directly before it |
| Replay.SkippingWaitsFiresOnly | src/NotAnAPI.ReKact.Core/Kact.cs:245-246 | with waits skipped the trace is exactly the fired events 0, 1, 2, ... with no wait notice |
| Replay.RunIgnoresCarry | src/NotAnAPI.ReKact.Core/Kact.cs:240-242 | the queues of a replay do not depend on the characters or the counter carried over |
| Replay.TraceIgnoresCarry | src/NotAnAPI.ReKact.Core/Kact.cs:240-242 | replays from any carried-over state raise the same notices up to the characters |
| Replay.PlayTwice | src/NotAnAPI.ReKact.Core/Kact.cs:238-254 | a second replay ends with the same queues and the same notices up to characters, and keeps the counter within its bound |
| Replay.SecondPlayReportsOtherChar | src/NotAnAPI.ReKact.Core/Kact.cs:114 | the counter is not reset, so a second replay can resolve a KeyDown's character without `force` and report another character |
| Replay.TypedKeyScenario | src/NotAnAPI.ReKact.Core/Kact.cs:265-353 | KeyDown, KeyPress, KeyUp of one sentinel key with a shared hash: one character is synthesized on the KeyDown, and the KeyPress and KeyUp both report it |

## Left out

- `Thread.Sleep` and real time: a wait is a `Waited` notice in the trace, not a delay.
- The C# `event` delegates: each handler call is a notice in the trace. It holds the kind, the
  event's position, its character and snapshots of both queues. Subscribers are not modelled.
- `Globals.Regexes.ValidateKactString` and `ExtractKactFromSensor`: their patterns are not part
  of this model. They are arbitrary functions in `Collaborators`.
- `KeyAct` is not part of this model. Its token decoding is an arbitrary function of the token
  list, and `GetKeyByKeyCode(force)` an arbitrary function of the act and `force`.
- `GetKeyByKeyCode` runs on the mutable `KeyAct` object. The model passes it the decoded act
  and `force`, not the `Char` that an earlier replay may have written into that object.
- `KeyAct.Time` is assumed to be a C# `int`, compiled without overflow checking (the C#
  default). So the difference of two times wraps instead of throwing.
- `GetSummary`'s text layout: the model returns its five figures.
- `GetUnknowns`: a read-only view of the unknowns list, which the engine state exposes directly.
- `ReadableSources`: an input-source enum for the command line, with no logic.
- Concurrency: none exists, and concurrent `Play` calls are not modelled.
- Decoded kinds: the decoder is assumed to produce only KeyDown, KeyPress and KeyUp. The C#
  enum can hold any other `int`, and the `switch` in `FireEvent`
  (`src/NotAnAPI.ReKact.Core/Kact.cs` lines 263-354) has no default case, so such an act would at most
  join the unknowns and would fire no handler; `ActType` has no value for it.
- Replay.Play: requires an existing key list. The C# dereferences `Keys`, which is null when the
  argument was null or validation failed, and then throws.
- Aggregate.GetSummary: requires an existing key list, for the same reason.
- Replay.GetLeftoverKeyEvents: requires that `Play` has run, because the C# dereferences the
  queues, which are null before the first `Play`.
