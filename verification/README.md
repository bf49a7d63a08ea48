# Verified models of the attestation codec, the trace analysis, the toy schedulers and the step adapters

Dafny models of the parts of the repository whose correctness does not show in one body: code whose
answer must agree with a different, simpler description of the same thing, over every input, every run or
every interleaving. `dafny verify dfyconfig.toml` checks them all.

The modules follow the program:

| Module | What it models |
|---|---|
| `Json`, `JsonDecoder`, `JsonGrammar`, `JsonSpelled`, `JsonScanner`, `JsonCodec` | the canonical JSON of a build attestation: printer, decoder with its hooks, every spelling RFC 8259 allows and nothing else, the byte scanner, the resource check over a stack, exact equality |
| `Stamp`, `TreeDigest` | the `FIELD=value` build stamp, and the byte stream a directory tree feeds to its digest |
| `ProcessGroup`, `KernelAnswers`, `Quiescence` | killing a build subprocess group and proving it empty from `/proc` reads that are not atomic: what the group can do meanwhile, when the kernel's answers make the protocol return normally, and that it is then right to |
| `Sweep`, `Segmentation`, `TwoSidedSweep` | the endpoint sweeps over kernel intervals, and the split of a trace on idle gaps |
| `Edf`, `Currency`, `Rotation`, `Burst`, `BurstRuns` | the earliest-deadline check, the charge, the boost rotation and the burst simulator of the toy bench |
| `Requests`, `Timing`, `Streams`, `Adapter` | the SDXL and CogVideoX step adapters: shared scheduler state, deferred timing reads, stream handovers |
| `SignTest` | the exact sign test in its two forms |
| `Ordering`, `Utf8`, `Numbers`, `Wrappers` | Python's stable sort and string order, strict UTF-8, `min` and `max`, optional values and raised exceptions |

Code that loops and updates is a method (or a class with methods) proved against a function of its inputs or
of its old state; the theorems are then lemmas about that function. An exception is a `Raised`, `None` or
`raised` result, never a precondition.

## What is true, and what is not

The main results hold on all inputs. These are the places where the code does not do what its text says, or
does it only on a condition; the lemmas named give the failing case and the condition.

- The scanner's docstring says that it never rejects a document the post-parse bound accepts. The node
  budgets do agree. The depth bounds differ by one, because an opened container counts as a level even if it
  is empty: `JsonScanner.ScannerAgainstTreeLimits` shows the promise fails exactly for documents within
  the node limit nested 65 deep whose containers at the innermost level are all empty, and
  `JsonScanner.ScannerRefusesAcceptableDocument` gives one.
- `optimistic_edf_check` reads a deadline of exactly 0 as no deadline (`Edf.ZeroDeadlineIgnored`). When
  arrivals do not decrease along its order, as when the urgent jobs arrive together, a False answer is always
  right and a True one is right if and only if no urgent deadline is 0 (`Edf.EdfDecidesDeadlines`). Beyond that
  its docstring's "necessary" fails: with staggered arrivals it refuses a schedulable pair
  (`Edf.StaggeredArrivalsRefused`); no exact condition is given for that case.
- `segment` forgets a running end of 0, because `last_end or end` reads it as missing. The running end is the
  latest end if and only if no row ends before 0 while the latest end is 0 (`Segmentation.RunningEndExactly`),
  and, for kernels that take time, busy time is conserved if and only if no cut falls inside an earlier one
  (`Segmentation.BusyConservedExactly`); `Segmentation.ZeroEndForgotten` counts 11 for 10.
- The docstring of `segment` speaks of idle gaps in the union of the kernel intervals. A kernel of no length is
  not in that union, yet it keeps a piece together: `Segmentation.InstantKernelBridges` has 16 idle instants in
  one piece at a gap of 10. For kernels that take time no idle stretch inside a piece is longer than the gap
  (`Segmentation.NoLongIdleInside`).
- Neither adapter saves all of the scheduler. Requests are isolated from each other if and only if no call on a
  solo state sees what earlier calls left there (`Requests.IsolatedExactly`); a multistep scheduler leaks under
  both (`Requests.HistoryLeaks`). The CogVideoX adapter puts even `_step_index` back only if one was saved:
  where nothing unsaved but the index can be seen, it isolates if and only if no step that starts without a
  saved index depends on one left over by another request (`Requests.CogVideoXIsolatesExactly`), and a
  scheduler that counts from an unset index leaks under CogVideoX and not under SDXL
  (`Requests.CountingSchedulerLeaks`).
- The adapter issues nothing that orders steps on the null stream against steps on masked streams
  (`Streams.SidesApart`): its steps are ordered if and only if its assignments do not mix the two, or the
  device's null stream is a legacy one that synchronises with the masked streams (`Streams.OrderedExactly`).
- The timing reading is always of a step run at the reported quota, but it need not be recent: at one quota,
  if `query()` never answers yes, it stays at the first step. `Timing.ReadingExact` says which step it is of.
- One turn of the burst loop raises ValueError (`min` over no later arrivals) if and only if every job has
  arrived and every unfinished one had no more work than the epsilon to begin with (`Burst.StepRaisesExactly`,
  with a raising list in `BurstRuns.NothingToDoRaises`). The whole loop raises for some end time if and only if
  some job has no more work than the epsilon, and then for every end time past a horizon that can be computed
  from the jobs (`BurstRuns.RaisesForSomeEnd`, `BurstRuns.RaisesPastHorizon`); all other jobs finish by then
  (`BurstRuns.AllFinish`).
- The boost rotation has a bounded virtual-time gap over all epochs if and only if neither tenant's boosted
  charge is below the other's unboosted charge (`Rotation.FairExactly`); a bias of 4 on one of two equal tenants
  breaks it (`Rotation.BiasBoostsOneForEver`). Under `fge_progress` it is progress scaled by the predictor's bias
  that is equalised. True progress is equalised too if and only if the bias is the same for both, or, where one
  tenant is boosted for ever, it then moves at the other's speed (`Rotation.ProgressFairExactly`); a bias of 1.3
  lets it drift (`Rotation.BiasLetsProgressDrift`).
- Two all-dead task snapshots can mislead about a group if and only if some running member of it has no SIGKILL
  pending (`Quiescence.SnapshotsMisleadExactly`); the kill before them is what the proof of `Quiesce` uses, and
  after it one snapshot is enough (`Quiescence.SnapshotProves`).
- Three checks can never fail: the re-serialisation at the end of `parse_stamp` (`Stamp.LastCheckNeverFails`),
  the exact-type comparison at the end of verification (`JsonCodec.FinalComparisonNeverFails`), and the clamp
  of the sign test unless wins equal losses (`SignTest.SignTestExact`).

## Model

| member | source | states |
|---|---|---|
| JsonScanner.RejectExcessiveNesting | native/smctrl_probe/build_attestation.py:604-676 | the byte loop over depth, nodes, containers and the string and literal flags passes exactly the inputs whose unlimited count stays in both limits, and otherwise raises at the first byte that leaves them, for the limit that byte leaves |
| JsonScanner.ScanCountsTree | native/smctrl_probe/build_attestation.py:607-616 | for every text the decoder accepts, however spelled, the scan ends balanced with as many nodes as the decoded tree has values (keys not counted) and a peak depth equal to its container nesting |
| JsonScanner.ScanOfSpelling | native/smctrl_probe/build_attestation.py:607-616 | the same for every legal spelling of a tree with unique keys: any white space, any escapes, surrogate pairs |
| JsonScanner.EmptyAtHeight | native/smctrl_probe/build_attestation.py:679-718 | with containers nested at most k+1 deep, the deepest value sits at most k down exactly when every container at level k is empty |
| JsonScanner.ScannerAgainstTreeLimits | native/smctrl_probe/build_attestation.py:607-718 | what the scanner lets through meets the post-parse node and depth limits; the converse fails exactly at nesting 65 with the innermost level of containers empty and the node count in limit |
| JsonScanner.ScannerRefusesAcceptableDocument | native/smctrl_probe/build_attestation.py:612-614 | the counterexample to the docstring: a document the scanner rejects and the post-parse limits accept |
| JsonCodec.ValidateResources | native/smctrl_probe/build_attestation.py:679-718 | the walk over an explicit stack, which stops early, accepts exactly the trees whose recursive measurement is in limits: node count, depth, encodable strings and keys of at most 1 MiB each |
| JsonCodec.ResourcesMean | native/smctrl_probe/build_attestation.py:679-718 | those limits told over paths into the tree: few enough nodes, and wherever a path leads it is at most 64 long, and the string or the keys there are free of lone surrogates and at most 1 MiB in UTF-8 |
| JsonCodec.PushMembers | native/smctrl_probe/build_attestation.py:691-703 | pushing a dict's values, each after its key's check, keeps the verdict: it passes exactly when the members' keys pass and the rest still passes with their values on the stack |
| JsonCodec.EncodeFragments | native/smctrl_probe/build_attestation.py:541-563 | whatever fragments the encoder cuts the text into, encoding them under the byte budget gives the UTF-8 of the whole with a newline, or raises exactly when a surrogate or the budget forbids it |
| Utf8.DecodeEncode | native/smctrl_probe/build_attestation.py:765 | strict UTF-8 decoding of an encoded text gives the text |
| Utf8.EncodeDecode | native/smctrl_probe/build_attestation.py:765 | and it accepts nothing but encodings: no overlong form, no surrogate, nothing beyond U+10FFFF, no stray or missing tail byte |
| Utf8.Rfc3629Examples | native/smctrl_probe/build_attestation.py:556 | two of the encodings printed in section 7 of RFC 3629, with sequences of one to four bytes |
| JsonDecoder.DigitsShortest | native/smctrl_probe/build_attestation.py:585-589 | no digit string of a value is shorter than the printed one, so a value read under the digit bound prints under it |
| JsonDecoder.ParseValueWellFormed | native/smctrl_probe/build_attestation.py:566-589 | whatever the decoder returns has unique keys at every level and integers of at most the bounded number of digits |
| JsonGrammar.CharsBack | native/smctrl_probe/build_attestation.py:765-771 | a string body in any spelling (plain, short escapes, hex escapes, surrogate pairs; RFC 8259 section 7) reads back as its characters, two escapes forming one character only when they are a high and a low half |
| JsonGrammar.NodeBack | native/smctrl_probe/build_attestation.py:765-771 | the decoder reads a legal spelling of any value with unique keys as that value, and stops where it ends |
| JsonGrammar.SpellingDecodes | native/smctrl_probe/build_attestation.py:765-771 | so every legal spelling of a document with unique keys decodes to what it spells |
| JsonSpelled.LoadsExactly | native/smctrl_probe/build_attestation.py:765-771 | and nothing else decodes: the decoder returns a value on a text if and only if its keys are unique and the text is one of its legal spellings, white space around it included, with integers in the digit bound |
| JsonGrammar.CanonicalSpells | native/smctrl_probe/build_attestation.py:546-551 | the printer's text is one of the legal spellings of the value |
| JsonGrammar.RenderShortest | native/smctrl_probe/build_attestation.py:546-551 | no legal spelling of a value is shorter than what the printer writes for it |
| JsonGrammar.ControlEscape | native/smctrl_probe/build_attestation.py:546-551 | a control character with no short escape prints as `\u` and four lower-case hexadecimal digits of its number |
| JsonGrammar.LoadsCanonical | native/smctrl_probe/build_attestation.py:541-563 | the canonical text decodes to the value with sorted keys |
| Json.SortKeysShape | native/smctrl_probe/build_attestation.py:547 | sorting keys changes no measurement: nodes, depth, nesting, digits, text lengths, key uniqueness |
| Json.SortedKeysAscend | native/smctrl_probe/build_attestation.py:546-551 | at every level of the sorted value the keys ascend: of two neighbours' code points the first that differ decide, a prefix coming first |
| Ordering.LexByIndex | native/smctrl_probe/build_attestation.py:547 | the recursive comparison used for sorting is that order told by index: equal, a prefix, or smaller where they first differ |
| Ordering.SortStable | toy_bench/currency_bench.py:403-406 | sorting is stable: the items that tie keep the order they came in |
| JsonCodec.CanonicalEncodable | native/smctrl_probe/build_attestation.py:556 | canonical text is strict UTF-8 exactly when no string and no key of the value holds a lone surrogate |
| JsonCodec.CanonicalDecides | native/smctrl_probe/build_attestation.py:541-563 | two values with unique keys print alike exactly when they are equal up to the order of keys |
| JsonCodec.CanonicalExample | native/smctrl_probe/build_attestation.py:546-563 | a dict filled with b: 2 and then a: 1 prints as the bytes of `{"a":1,"b":2}` and a newline |
| JsonCodec.PrintThenParse | native/smctrl_probe/build_attestation.py:759-781 | every value within the limits prints to bytes that pass the scanner, the decoder, the resource check and the canonical check, and come back as the same value with sorted keys |
| JsonCodec.ParseAcceptsExactly | native/smctrl_probe/build_attestation.py:759-781 | the parser returns a value on some bytes if and only if the value is within the limits with sorted keys and the bytes are its canonical print |
| JsonCodec.ParseDocument | native/smctrl_probe/build_attestation.py:759-781 | the whole parser as it runs (byte scan, strict UTF-8, decoder, stack walk, canonical print of the result) returns exactly what the specification of the two rows above says |
| JsonCodec.ExactEqualDecides | native/smctrl_probe/build_attestation.py:721-756 | exact equality does not raise when either tree is within the depth limit, and is then equality up to key order; null, bool, int and string never collide |
| JsonCodec.ExactEqualTooDeep | native/smctrl_probe/build_attestation.py:721-756 | it raises on any two trees, equal up to key order, that are deeper than the limit |
| JsonCodec.ExactEqualIsByteEquality | native/smctrl_probe/build_attestation.py:721-756 | exact equality holds if and only if the canonical bytes are equal |
| JsonCodec.FinalComparisonNeverFails | native/smctrl_probe/build_attestation.py:2785-2797 | once the stored bytes parse and equal the expected canonical bytes, the exact-type comparison that follows answers True |
| Stamp.WriteStamp | native/smctrl_probe/build_attestation.py:2025-2032 | the loop over the schema writes the lines of all its fields, or raises exactly when one is missing, holds a line break or cannot be encoded |
| Stamp.StampExample | native/smctrl_probe/build_attestation.py:2025-2032 | the field A with value `b=` is written as `A=b=` and a newline |
| Stamp.ReadStamp | native/smctrl_probe/build_attestation.py:2035-2056 | the parser as it runs, its last check included, returns what the specification of the rows below says |
| Stamp.CollectFields | native/smctrl_probe/build_attestation.py:2044-2051 | filling the dict line by line gives the keys in order with their values, or raises on a line without an equals sign, an empty key or a repeated one |
| Stamp.SplitJoin | native/smctrl_probe/build_attestation.py:2045 | joining the split lines gives the text back, and no line holds a newline |
| Stamp.JoinSplit | native/smctrl_probe/build_attestation.py:2032 | splitting joined lines gives the lines back |
| Stamp.SerializeThenParse | native/smctrl_probe/build_attestation.py:2025-2056 | a stamp that could be written parses to the fields of the schema, values containing an equals sign included, if and only if it fits the size limit and no value holds a NUL |
| Stamp.LastCheckNeverFails | native/smctrl_probe/build_attestation.py:2054-2055 | whatever passes the earlier checks of parse_stamp serialises to the very bytes that were read |
| Stamp.ParseInjective | native/smctrl_probe/build_attestation.py:2035-2056 | two byte strings that parse to the same fields are the same |
| TreeDigest.FeedDigest | native/smctrl_probe/build_attestation.py:1558-1563 | the loop of digest updates feeds the NUL-terminated frames of the sorted records |
| TreeDigest.StreamAscends | native/smctrl_probe/build_attestation.py:1558-1563 | the frames fed are those of the records in ascending path order, byte by byte |
| TreeDigest.StreamExample | native/smctrl_probe/build_attestation.py:1559-1563 | the bytes fed for the paths b and a: path, NUL, digest, NUL, first for a |
| TreeDigest.FramesInjective | native/smctrl_probe/build_attestation.py:1559-1563 | frames of NUL-free records can be taken apart again: equal bytes come from equal record sequences |
| TreeDigest.StreamDecides | native/smctrl_probe/build_attestation.py:1537-1564 | two walks feed the same bytes if and only if they saw the same records, in whatever order |
| ProcessGroup.SealedStep | native/smctrl_probe/build_attestation.py:1128-1131 | no step of the kernel or of any program adds a running task to a killed group or takes the mark of the kill off one |
| ProcessGroup.SealedRun | native/smctrl_probe/build_attestation.py:1146-1149 | over any run a killed group only loses running tasks, and each task still running at the end ran in its thread group all along |
| ProcessGroup.KillSeals | native/smctrl_probe/build_attestation.py:1128-1131 | SIGKILL to the group marks every running member |
| Quiescence.MembersThroughout | native/smctrl_probe/build_attestation.py:1125-1131 | a member of a killed group running at the end of a call was live at every instant of the call |
| Quiescence.ListedMember | native/smctrl_probe/build_attestation.py:1159-1171 | a listing taken while the world moves names the thread group (in /proc) or the task (in a task directory) of every member of a killed group still running after it |
| Quiescence.Prober.StatThread | native/smctrl_probe/build_attestation.py:1106-1113 | a thread stat that is absent or zombie proves that the thread does not run in the group, now or later |
| Quiescence.Prober.SnapshotHasLiveThread | native/smctrl_probe/build_attestation.py:1090-1114 | a False answer of one task-directory snapshot proves that no running member of the group is in the thread group; the answer is exactly what the kernel's answers say: a missing directory gives False, an unlistable one True, an oversized one raises, and one that is there gives False only if every thread listed was read as absent or zombie |
| Quiescence.Prober.HasLiveThread | native/smctrl_probe/build_attestation.py:1117-1135 | the same for two snapshots, the second taken only if the first says False |
| Quiescence.Prober.LiveMembers | native/smctrl_probe/build_attestation.py:1138-1183 | an empty list proves that no task of the killed group is running, whatever happened between the reads; the list is exactly the one the kernel's answers give, in `/proc` order, or a raise |
| Quiescence.Prober.Quiesce | native/smctrl_probe/build_attestation.py:1186-1240 | it ends, and if it returns without raising no task of the group is running: over every interleaving of exits, reaps, forks and clones with its calls. It never returns normally after a failed signal or an unreaped child; otherwise it does if the first probe finds no such group, or any scan before the deadline gets answers that say dead |
| KernelAnswers.GroupGoneSettles | native/smctrl_probe/build_attestation.py:1223-1225 | signalled, reaped and no such group at the first probe: it returns normally |
| KernelAnswers.QuietSettles | native/smctrl_probe/build_attestation.py:1186-1240 | signalled, reaped, and some scan before the deadline sees `/proc` in full with every numbered entry absent, in another group, or a zombie whose task directory is missing or lists, within the limit, only absent and zombie threads: it returns normally |
| KernelAnswers.OnlyThenEnds | native/smctrl_probe/build_attestation.py:1222-1240 | the loop returns normally only after a scan that found no member, or after which the second signal found no group |
| KernelAnswers.QuietScanIsEmpty | native/smctrl_probe/build_attestation.py:1138-1183 | a scan that gets such answers finds no member |
| KernelAnswers.DeadTwice | native/smctrl_probe/build_attestation.py:1117-1135 | a thread group is taken for dead exactly when two snapshots in a row say so |
| KernelAnswers.ScanRaises | native/smctrl_probe/build_attestation.py:1138-1162 | a scan raises when the probe is refused or `/proc` cannot be listed within the limit, and otherwise only if some task directory is too long |
| KernelAnswers.MembersAre | native/smctrl_probe/build_attestation.py:1163-1183 | members are numbered entries of `/proc`, and every one whose record cannot be read, or is in the group and not a zombie, is a member |
| Quiescence.SnapshotsMisleadExactly | native/smctrl_probe/build_attestation.py:1125-1131 | from any state, a pair of truthful all-dead snapshots of some thread group can miss a thread of it still running in the group if and only if some running member of the group has no SIGKILL pending |
| Quiescence.SnapshotsMiss | native/smctrl_probe/build_attestation.py:1125-1127 | any such member gets its own thread group past both snapshots: it clones a successor after each listing, and every listed thread exits |
| Quiescence.SnapshotProves | native/smctrl_probe/build_attestation.py:1128-1131 | once every running member has SIGKILL pending, a single all-dead snapshot proves that none of the thread group runs in the group |
| Segmentation.Segment | scripts/analyse_overlap_trace.py:51-62 | the pieces are non-empty, concatenate to the input, and are cut before a row exactly when it starts more than the gap after the running end |
| Segmentation.LoadedRowsAscend | scripts/analyse_overlap_trace.py:47 | rows are loaded in ascending order of start, then end, then queue name |
| Segmentation.RunningEndExactly | scripts/analyse_overlap_trace.py:59 | the running end is the latest end throughout if and only if no row ends before zero while the latest end is zero |
| Segmentation.ZeroEndForgotten | scripts/analyse_overlap_trace.py:59 | the failing family at work: (-10,0), (-9,-8), (-5,-4) with gap 1 are cut at the third row while the first still runs, and the pieces add up to 11 busy against 10 |
| Segmentation.IdleAtCut | scripts/analyse_overlap_trace.py:52 | when no zero is forgotten, the union of intervals is idle at a cut, for longer than the gap |
| Segmentation.NoLongIdleInside | scripts/analyse_overlap_trace.py:52 | when no zero is forgotten and kernels take time, no idle stretch of the union inside a piece is longer than the gap |
| Segmentation.NoLongGapInside | scripts/analyse_overlap_trace.py:52 | with kernels of no length allowed, no stretch inside a piece that no kernel meets, not even one of no length, is longer than the gap |
| Segmentation.InstantKernelBridges | scripts/analyse_overlap_trace.py:52 | a kernel of no length keeps one piece together across an idle stretch of 16 at a gap of 10 |
| Segmentation.PiecesSeparate | scripts/analyse_overlap_trace.py:51-62 | when no cut falls inside an earlier row, every row of a piece starts at or after the end of every row of the earlier pieces |
| Segmentation.SegmentsConserve | scripts/analyse_overlap_trace.py:47-90 | then busy and overlapped, summed over the pieces, equal those of the whole trace |
| Segmentation.LoadedTraceConserved | scripts/analyse_overlap_trace.py:37-90 | so they do for every loaded (sorted) trace in which no zero is forgotten |
| Segmentation.BusyConservedExactly | scripts/analyse_overlap_trace.py:51-90 | for kernels that take time the pieces never add up to less busy time than the trace, and to the same if and only if no cut falls inside an earlier kernel |
| Sweep.BuildEvents | scripts/analyse_overlap_trace.py:72-75 | the loop makes one opening and one closing event per row, in row order |
| Sweep.EventsInOrder | scripts/analyse_overlap_trace.py:76 | they are swept in ascending order of stamp, closings before openings, then queue name |
| Sweep.SweepEvents | scripts/analyse_overlap_trace.py:77-90 | the loop over sorted events with its dict of live counts adds up the spans during which at least one, and at least two, queues have more starts than ends |
| Sweep.Coverage | scripts/analyse_overlap_trace.py:65-90 | the same for the sorted events of the rows |
| Sweep.NetOfRows | scripts/analyse_overlap_trace.py:88 | a queue's starts less ends up to an instant are never negative, and positive exactly when one of its kernels is running then |
| Sweep.LiveIsActive | scripts/analyse_overlap_trace.py:81-83 | between neighbouring stamps the queues counted live are those with a kernel running, whatever order ties were swept in |
| Sweep.SweepExact | scripts/analyse_overlap_trace.py:76-90 | for any stamp-ordered arrangement of the events the sum for k queues is the number of instants with at least k distinct queues running |
| Sweep.CoverageExact | scripts/analyse_overlap_trace.py:65-90 | busy and overlapped are the measures of the instants covered by at least one queue and by at least two distinct queues, zero-length intervals included |
| TwoSidedSweep.SweepSides | scripts/run_amd_overlap_events.py:65-78 | the loop with two fixed live counts computes what the general sweep does on two labels |
| TwoSidedSweep.SidesMeasure | scripts/run_amd_overlap_events.py:57-78 | instants with both sides running, and with either, follow from the two sides: either plus both is one side plus the other |
| TwoSidedSweep.CoverageExact | scripts/run_amd_overlap_events.py:57-78 | both is exactly the time both sides run, busy plus both is the sum of the sides' times, and swapping the sides changes neither |
| Edf.OptimisticEdfCheck | toy_bench/currency_bench.py:400-422 | raises exactly without urgent jobs; otherwise it orders every urgent job as often as it occurs and no other, its verdict is whether that order meets every deadline from the first arrival, which is whether every row is met, and its rows are that schedule |
| Edf.RowsAre | toy_bench/currency_bench.py:410-421 | the row of each job: its name, when it ends if the jobs up to it run in order, and met exactly when that is by its deadline or it has none but zero |
| Edf.UrgentCounts | toy_bench/currency_bench.py:403-404 | each job is among the urgent ones exactly as often as in the list, if it is urgent, and otherwise not at all |
| Edf.EdfOrderAscends | toy_bench/currency_bench.py:403-406 | the order goes by deadline, those without one (or with zero) last, and by name among equals |
| Edf.DemandFits | toy_bench/currency_bench.py:409-412 | an order that meets its deadlines leaves, between any instant and any deadline, no more work that arrives and falls due there than time |
| Edf.EdfMeets | toy_bench/currency_bench.py:402-412 | if any order of the same jobs meets all deadlines, the earliest-deadline order does, as long as no job in it arrives before an earlier one |
| Edf.EdfOptimal | toy_bench/currency_bench.py:401-412 | when arrivals do not decrease along its order, the check is True if and only if some order of the urgent jobs meets every deadline as it reads them |
| Edf.SharedArrivalAgreeable | toy_bench/currency_bench.py:401-412 | which is so whenever the urgent jobs arrive together |
| Edf.EdfDecidesDeadlines | toy_bench/currency_bench.py:401-412 | then, from a non-negative first arrival and with work in every job due at zero, the deadlines as stated can be met if and only if the check is True and no urgent deadline is zero: False is always right, True exactly without a zero |
| Edf.ZeroDeadlineIgnored | toy_bench/currency_bench.py:404 | a single urgent job with work and deadline zero passes the check and misses its deadline |
| Edf.StaggeredArrivalsRefused | toy_bench/currency_bench.py:401 | two jobs the check refuses that the other order finishes in time |
| Rotation.InfiniteTenant.RunEpoch | toy_bench/currency_bench.py:296-316 | one epoch adds work, share, dominant time and the charge of the biased work to the tenant's four fields and leaves its boost count |
| Rotation.BoostRotation | toy_bench/currency_bench.py:282-316 | the loop over two tenant objects leaves them as the recurrence over epochs does |
| Rotation.GapStep | toy_bench/currency_bench.py:287-290 | the tenant behind in virtual time is boosted, ties going to the fewer boosts, and the gap moves by that tenant's step only |
| Rotation.BoostLedger | toy_bench/currency_bench.py:286-316 | boosts add up to the epochs, allocated SM time to the whole machine, and the gap is one step per boost of either tenant |
| Rotation.TenantTotals | toy_bench/currency_bench.py:296-316 | progress, SM time and dominant time of each tenant in closed form: the boosted figure for the epochs it was boosted and the unboosted one for the rest, times the epoch |
| Rotation.GapBounded | toy_bench/currency_bench.py:289-316 | if a boosted charge less the other's unboosted charge lies between 0 and D, the virtual-time gap never exceeds D |
| Rotation.FairExactly | toy_bench/currency_bench.py:289-316 | the gap is bounded over all epochs by something if and only if both of those differences are non-negative |
| Rotation.TimeCurrenciesAlternate | toy_bench/currency_bench.py:155-158 | under sm_time and wall the boost counts stay within one and the gap within half an epoch; under wall it is zero |
| Rotation.VirtualTimeCounts | toy_bench/currency_bench.py:155-165 | what a tenant's virtual time is under each currency: elapsed epochs, its allocated SM time, its dominant-resource time, or its progress times the predictor's bias |
| Rotation.CountedFair | toy_bench/currency_bench.py:289-316 | so it is these that stay within D: under dominant_time the dominant times, under fge_progress the scaled progresses |
| Rotation.ProgressFairExactly | toy_bench/currency_bench.py:308-316 | under fge_progress, with positive speeds and biases, true progress stays within some bound over all epochs if and only if the predictor is biased alike for both tenants; or, where one tenant is boosted for ever, if and only if it then moves at the other's speed |
| Rotation.BiasLetsProgressDrift | toy_bench/currency_bench.py:345-352 | a bias of 1.3 on one of two equal tenants: virtual times stay close and true progress drifts without bound |
| Rotation.BiasBoostsOneForEver | toy_bench/currency_bench.py:345-352 | a bias of 4: a boosted charge falls below the other's unboosted one, one tenant is boosted for ever, and both virtual times and progress drift without bound |
| Burst.CoRun | toy_bench/currency_bench.py:450-516 | the loops over active and running jobs take the epoch of the transition system; a job that runs was active, loses work, progresses within the epoch and is finished exactly when the rest is within the epsilon; other active jobs only get their gap noted; the rest are untouched |
| Burst.ServeRunning | toy_bench/currency_bench.py:495-516 | the in-place loop serves each running job beside the other one at its own share, whichever was served first |
| BurstRuns.BurstLoop | toy_bench/currency_bench.py:439-517 | for any jobs with positive weights and any positive speeds the loop ends; the states at its head form a run of turns from time zero that stops exactly when the guard fails or a turn raises, and each keeps all ledgers; if the end time is past the horizon, it raises if and only if some job has no more work than the epsilon, and every other job finishes |
| BurstRuns.AllFinish | toy_bench/currency_bench.py:440-517 | liveness: past a horizon computed from the jobs before the run (last arrival, then enough epochs at the slowest speed), every job with more work than the epsilon has finished, whatever the currency, the guard and the order of service |
| BurstRuns.EpochNeedsLess | toy_bench/currency_bench.py:495-516 | why: in an epoch no job's need of epochs grows, and the primary's falls |
| BurstRuns.RunWithin | toy_bench/currency_bench.py:440-517 | so at every state of a run the time plus the need still to come is within the horizon |
| BurstRuns.RaisesForSomeEnd | toy_bench/currency_bench.py:446-448 | for given jobs the loop raises at some end time if and only if some job has no more work than the epsilon |
| BurstRuns.RaisesPastHorizon | toy_bench/currency_bench.py:446-448 | and then at every end time past the horizon |
| Burst.AdvanceKeeps | toy_bench/currency_bench.py:495-516 | a job that runs has work done equal to speed times the time it ran, is finished exactly when its remaining work is within the epsilon, and is charged at most its share of the epoch under sm_time |
| Burst.EpochService | toy_bench/currency_bench.py:471-516 | under sm_time weighted virtual times add up to at most the time elapsed, through any epoch |
| Burst.EpochJob | toy_bench/currency_bench.py:489-516 | each job after an epoch: either it ran and has progressed, or nothing but its noted gap changed |
| Burst.StarvingRuns | toy_bench/currency_bench.py:473-487 | the one video job, if it has gone 20 ms without progress, is among those that run whenever it is active |
| Burst.EpochFloor | toy_bench/currency_bench.py:473-493 | once it has progressed, its gap without progress stays below 20 ms plus an epoch |
| Burst.StepKeeps | toy_bench/currency_bench.py:440-517 | every turn keeps every job's ledger (under fge_progress virtual time times weight is work done), the machine's total, the video floor and the jobs' identities, and moves time forward |
| BurstRuns.FinishedStays | toy_bench/currency_bench.py:444-516 | from the state in which a job is finished to the end of the run it is unchanged, so its finish time is set once |
| BurstRuns.TinyNeverFinishes | toy_bench/currency_bench.py:444 | a job with no more work than the epsilon is never run and never finishes, in the whole run |
| Burst.GapRecorded | toy_bench/currency_bench.py:489-493 | the recorded maximum takes in the gap of every active job that has started, whether it then runs or not |
| Burst.StepRaisesExactly | toy_bench/currency_bench.py:446-448 | the minimum over later arrivals is taken of nothing if and only if every job has arrived and every unfinished one had no more work than the epsilon |
| BurstRuns.NothingToDoRaises | toy_bench/currency_bench.py:446-448 | a job list on which the loop raises at once |
| Burst.LeastServiceIsLeast | toy_bench/currency_bench.py:466-468 | no candidate is below the chosen one by virtual time, arrival and name, told on the fields, and every earlier one in the list is above it |
| Burst.PrimaryIsRight | toy_bench/currency_bench.py:450-468 | with the guard on and some urgent job under 12 ms of slack, the primary is one of those with the least slack, then the least virtual time, then the first; otherwise it is the first active job with the least (virtual time, arrival, name) |
| Burst.SecondaryIsRight | toy_bench/currency_bench.py:470-487 | of the other active jobs there runs the first video job if it has gone 20 ms without progress, and otherwise the first with the least (virtual time, arrival, name) |
| Burst.SlackIsRoom | toy_bench/currency_bench.py:454-462 | the slack of a job with a non-zero deadline is the room it has: started that much later, at its predicted solo speed at three quarters it ends on the deadline |
| Burst.RiskyIs | toy_bench/currency_bench.py:453-464 | risky jobs are the urgent ones that at that speed cannot do their work by 12 ms before the deadline |
| Burst.AdvanceServes | toy_bench/currency_bench.py:500-516 | what a running job gets: it runs for the whole epoch or till its work is done, at the speed for its share and its co-runner, and is charged time, share of time, work or dominant share of time over its weight |
| Burst.EpochServes | toy_bench/currency_bench.py:470-516 | the primary is served at the whole machine if it is alone, and otherwise at three quarters beside the secondary at one quarter, each beside the other |
| Burst.NextArrivalIsFirst | toy_bench/currency_bench.py:447 | the clock jumps to the least of the arrivals still to come |
| BurstRuns.LaterShrinks | toy_bench/currency_bench.py:446-448 | a jump to an arrival lowers the count of jobs yet to arrive, and no turn raises it |
| BurstRuns.EpochsLeftFalls | toy_bench/currency_bench.py:440-517 | an epoch lowers the count of epochs to the end time by one |
| BurstRuns.TurnShrinks | toy_bench/currency_bench.py:440-517 | so every turn lowers the jobs yet to arrive, or leaves them and lowers the epochs left: the loop ends |
| Requests.IsolatedExactly | scripts/amd_sdxl_adapter.py:179-217 | with scheduler fields neither adapter saves and a set_timesteps that may depend on what it finds, every request is as if alone over every interleaving if and only if no call made on a solo state sees what the calls before it left in the scheduler; for both adapters |
| Requests.SdxlIsolates | scripts/amd_sdxl_adapter.py:209-215 | if set_timesteps always yields the same schedule and no step from a solo state sees the scheduler fields the adapter does not save, the SDXL adapter isolates its requests over every interleaving and any leftover state |
| Requests.CogVideoXIsolatesExactly | scripts/amd_cogvideox_adapter.py:165-169 | under the same two conditions the CogVideoX adapter isolates if and only if a step without a saved index does not depend on the index another request left |
| Requests.LeakAt | scripts/amd_cogvideox_adapter.py:166-167 | isolation forces that independence: two requests suffice to expose a dependence at any pair of steps |
| Requests.CountingSchedulerLeaks | scripts/amd_cogvideox_adapter.py:166-167 | a scheduler for which CogVideoX leaks and SDXL does not |
| Requests.HistoryLeaks | scripts/amd_sdxl_adapter.py:212-213 | a multistep scheduler, with a history the adapters do not save: requests leak into each other under both |
| Requests.SoloTrace | scripts/amd_sdxl_adapter.py:203-297 | a model that appends the timestep it is given has, after k steps of a request, the first k timesteps of the schedule in order after its initial latent; there is a k-th step exactly up to the length of the schedule |
| Timing.AfterStepAttributed | scripts/amd_sdxl_adapter.py:217-287 | one step leaves a reading at that step's quota, and draining then gives this step's own |
| Timing.ReadingsAttributed | scripts/amd_sdxl_adapter.py:115-128 | for every sequence of quotas and answers of query(), the reading is of a step run at the last quota, and a drain gives the newest step's |
| Timing.ReadingExact | scripts/amd_sdxl_adapter.py:217-287 | which step the reading is of, exactly: with i the last step that is the first, changes the quota or finds query() answering yes, it is i if that is the first or changes the quota, and the step before i if not |
| Timing.LastSettling | scripts/amd_sdxl_adapter.py:217-287 | there is always such a last step, so the reading is determined after every sequence of steps |
| Streams.UniformOrdered | scripts/amd_sdxl_adapter.py:138-144 | on masked streams only, on the null stream only, or beside a legacy null stream, every step happens after all earlier ones |
| Streams.SidesApart | scripts/amd_sdxl_adapter.py:237-243 | nothing the adapter issues orders work on the null stream against work on masked streams |
| Streams.OrderedExactly | scripts/amd_sdxl_adapter.py:235-268 | an adapter's steps are in order if and only if its stream assignments do not mix null and masked, or the null stream is a legacy one that synchronises with the masked streams by itself |
| Streams.HandoverExactly | scripts/amd_sdxl_adapter.py:235-243 | what a step issues: its launch alone, or, on a masked stream other than the last masked one, first an event recorded there and waited for here |
| Adapter.StepAdapter.InitialState | scripts/amd_sdxl_adapter.py:179-201 | set_timesteps is applied to whatever the scheduler holds, and the state is the value-level initial state for that |
| Adapter.StepAdapter.DenoiseOne | scripts/amd_sdxl_adapter.py:203-297 | the model samples at the request's timestep for its step index with the request's scheduler fields put back, and the new state and scheduler hold what it returns, one step on; an exhausted state raises before anything changes; the object's step is the value-level step; the timing fields then speak of a step run at this quota with its true device time, and the issued operations are those of the assigned streams |
| Adapter.StepAdapter.Restore | scripts/amd_cogvideox_adapter.py:165-167 | the request's timesteps are put back, and its step index always (SDXL) or only if one was saved (CogVideoX) |
| Adapter.StepAdapter.DrainTiming | scripts/amd_sdxl_adapter.py:299-313 | with a read outstanding it reports the newest step's time and quota; without one it changes nothing |
| SignTest.Complement | scripts/analyse_campaign.py:61 | the first m and the first n+1-m binomials of a row add up to 2^n |
| SignTest.TailAgainstRow | scripts/analyse_campaign.py:59-62 | twice the tail is below, equal to or above 2^n exactly when wins and losses differ by more than one, by one, or not at all |
| SignTest.SignTestExact | scripts/analyse_campaign.py:49-62 | with unequal counts the value times 2^n is twice the binomial tail; it is a probability that needs its clamp only at ties, is 1 exactly when the counts differ by at most one, is symmetric, and agrees with the second form for n > 0 |
| SignTest.CombFactorial | scripts/analyse_campaign.py:61 | the binomials of the tail: each times k! and (n-k)! is n! |
| SignTest.OutsideTail | scripts/analyse_experiment_a3.py:254-262 | the second form gives 0 for a count outside 0 to n |

The second form of the sign test is at `scripts/analyse_experiment_a3.py:254-262`; the CogVideoX adapter repeats
the timing and stream code of the SDXL one at `scripts/amd_cogvideox_adapter.py:174-262`, and one class with a
variant models both.

## Left out

- JSON floats: how they print is the library's; trees hold null, booleans, integers, strings, lists and objects, and a number with a fraction or exponent does not decode here.
- JsonSpelled.LoadsExactly: the standard library's `json` is modelled by a decoder and a printer written out after RFC 8259; its recursion limit is not.
- Stamp.SerializeThenParse: the 69 names of STAMP_FIELD_ORDER are a parameter, any non-empty list of distinct words of capitals, digits and underscores.
- TwoSidedSweep.CoverageExact: offsets are whole ticks; device times are floats, which are whole multiples of a small enough tick, and the rounding of their sums is not modelled.
- Timestamps of traces are unbounded integers, as Python's are; the toy schedulers use exact reals, so float rounding in them is not modelled. A job's speeds, solo speed and dominant fraction are arbitrary functions, positive where the code divides by them.
- Quiescence.Prober.Quiesce: it rests on stated kernel facts, not on the kernel: a `killpg` that succeeds has signalled every running member of the group (kill(2) itself promises one), a task with SIGKILL pending completes no fork or clone, nobody outside joins the group, a listing names what is live throughout it, a stat tells the truth at some instant of the call. Every call takes some whole number of milliseconds and the sleep is its own, so that the deadline is reached.
- Reading one `/proc` stat record (bytes after the last parenthesis) and the pipes, timeouts and environment of the subprocess.
- Burst.CoRun: jobs are values in a list whose entries are reassigned, so sharing of Job objects is not captured; the five jobs of the benchmark are replaced by any jobs, and there is one co-runner at most, as in the simulator.
- Edf.EdfDecidesDeadlines: arrivals that decrease along the check's order are outside it; deciding schedulability for those is a search over orders, which the code does not do.
- Burst.EpochFloor: the bound is for a single video job, as in the benchmark; with several, only the first is protected by the code.
- The report parts of `boost_rotation` and `burst_deadline_sim`: Jain's index, latencies, misses, rounding.
- Requests.IsolatedExactly: the model, the sampler and `scheduler.set_timesteps` are arbitrary functions of what the code passes them and of the scheduler's fields; the CogVideoX rotary tensor, which is fixed per request, is part of the latent.
- Streams.OrderedExactly: streams are FIFO queues with record and wait events, and whether the null stream is a legacy one is a parameter, since the cited code does not fix it; work that other code puts on the streams is not modelled.
- Adapter.StepAdapter.DenoiseOne: a pair of timing events reports the true device time of the step between them; an exception raised inside the model is not modelled.
- Messages of errors: every AttestationError is one value.
- SHA-256, extended attributes, no-follow directory walks, size and stability checks of `tree_digest`, compiler and CUDA fingerprints, the make guard, ELF headers, the launchers in C: operating-system plumbing or string checks, one branch at a time.
- The runtime, the policies and the trace simulator under `src/burstserve`: not part of this model.
- Mask packing, curve fits, feasibility formulas, CSV and JSON reports, argument parsing.
