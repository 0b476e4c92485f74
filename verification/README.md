# Segment registry of exploring_bloom_fst, modelled in Dafny

The Rust server keeps an in-memory, append-only index of "segments". Each
segment is a Bloom filter over the terms of one ingestion batch. It exposes
two handlers:

- `handle_create_segment` reserves the next segment number under the
  counter lock. It then builds a Bloom filter on a blocking task, outside any
  lock. On success it pushes a `SegmentSummary` onto the shared vector under
  the summaries lock. On failure it reports an error, and the reserved number
  is never used.
- `handle_query_segment` scans the vector for the first summary whose
  `segment_number` equals the queried id. It answers
  `{exists: check(filter, term), segment_number: id}` when one exists and
  "not found" otherwise.

The model treats each locked section as one atomic step. It has three
modules:

- `Base` (base.dfy): the `u32` and `u64` widths, `Term`, and `Option`.
- `SegmentRegistry` (registry.dfy) covers the registry state: the counter and
  the summaries in commit order. It also holds the operations done under a
  lock (`Reserve`, `Append`, the linear `Find`, `Query`) and the facts about
  `Find`.
- `SegmentService` (service.dfy) is the state machine. The state is the
  registry plus two sets kept by the handler tasks: the numbers still
  `building` and those whose build `failed`. A run is any interleaving of
  `ReserveStep`, `CommitStep`, `FailStep` and `QueryStep`. The invariant
  `Inv` says that every number in 1..counter is in exactly one of three
  states: building, failed, or committed exactly once. The module's lemmas
  hold for every valid interleaving.

The Bloom filter is an opaque type parameter `F`. Its membership test is a
parameter `check: (F, Term) -> bool`. The filter library promises "no false
negatives". Where a lemma needs that promise, it takes it as the hypothesis
`NoFalseNegatives(check, build)`.

The summary vector is not sorted by ascending segment number. The code
appends in completion order, so two concurrent creations can commit out of
number order. The model follows the code.
`CompletionOrderIsNotIdOrder` exhibits such a run, and `CommitOrderIrrelevant`
proves that lookup by number is unaffected.

## Model

| member | source | states |
|---|---|---|
| SegmentRegistry.Reserve | src/main.rs:70-74 | the counter grows by exactly one and the new value is the number handed out, so numbers start at 1 and exceed the previous counter; summaries untouched |
| SegmentRegistry.Append | src/main.rs:90-92 | a commit puts the summary at the end of the vector; all earlier entries and the counter are unchanged |
| SegmentRegistry.Find | src/main.rs:135 | the scan returns nothing exactly when no summary has the number, and otherwise the summary at the first position carrying it |
| SegmentRegistry.Query | src/main.rs:131-152 | not-found exactly when no committed summary has the id, echoing the id; otherwise the filter answer of the first matching summary with `segment_number` equal to the queried id |
| SegmentRegistry.FindAppend | src/main.rs:135 | appending a summary keeps the answer for every number already present, and makes the new summary the answer for its own number otherwise |
| SegmentRegistry.FindPrefix | src/main.rs:135 | an answer found in a vector is the same in every extension of that vector |
| SegmentRegistry.FindDistinct | src/main.rs:135 | with distinct numbers, the scan for a number yields exactly the summary in the vector that carries that number, at any position |
| SegmentRegistry.FindIgnoresOrder | src/main.rs:135 | two vectors with distinct numbers and the same elements answer every lookup alike, whatever their order |
| SegmentService.Reserve | src/main.rs:70-74 | reservation hands out counter+1, moves the counter there, and records the number as in flight; summaries and failed numbers untouched |
| SegmentService.Commit | src/main.rs:81-92 | a successful build appends exactly one summary with its reserved number and build times, replies with the number, and leaves the counter unchanged |
| SegmentService.Fail | src/main.rs:117-123 | a failed build leaves the whole registry as it was, with the counter still advanced; the number becomes failed |
| SegmentService.Step | src/main.rs:65-154 | a query leaves the state unchanged and answers from the registry; no step lowers the counter, rewrites earlier summaries, or revives a failed number |
| SegmentService.HandleCreate | src/main.rs:65-125 | an uninterleaved create advances the counter by one and, depending on the build, either commits the summary for counter+1 and replies with it, or replies with the failure and changes no summary |
| SegmentService.StepPreservesInv | src/main.rs:70-92 | every step keeps committed numbers in 1..counter and pairwise distinct, each reservation settled at most once |
| SegmentService.RunPreservesInv | src/main.rs:70-123 | the registry invariant holds after any valid interleaving of creations and queries |
| SegmentService.RunAppendOnly | src/main.rs:70-123 | along any interleaving the counter never decreases, the summary vector only grows at the end, and failed numbers stay failed |
| SegmentService.ReservedIdsIncrease | src/main.rs:70-74 | the numbers handed out along any interleaving are strictly increasing, above the starting counter and at most the final counter |
| SegmentService.FoundStaysFound | src/main.rs:135-140 | once a number is committed, no later interleaving changes the summary a lookup for it returns |
| SegmentService.FailedStaysNotFound | src/main.rs:117-123 | a failed number is never handed out again and queries for it stay not-found after any later interleaving |
| SegmentService.QueryNotFoundIff | src/main.rs:135-152 | a query is not-found if and only if the id is 0, above the counter, still building, or failed |
| SegmentService.QueryFound | src/main.rs:135-140 | a query for a committed number answers with the membership test of the summary carrying it, echoing the number |
| SegmentService.CommitOrderIrrelevant | src/main.rs:79-92 | two in-flight creations committing in either order give vectors in their completion orders but the same counter, bookkeeping and lookup answers |
| SegmentService.CompletionOrderIsNotIdOrder | src/main.rs:79-92 | reserving 1 and 2 and committing 2 first leaves the vector ordered [2, 1] |
| SegmentService.CommittedTermsFound | src/main.rs:135-140 | given a filter without false negatives, each term of a committed build is found in its segment |
| SegmentService.FruitScenario | src/main.rs:65-152 | creating a segment from apple, banana and cherry gives number 1; "apple" is found in it and segment 2 is not found |
| SegmentService.InitialInv | src/main.rs:39-40 | the start-up state `Initial` (the registry `Empty`: `Vec::new()` and `0u32`, with no build in flight or failed) satisfies the registry invariant |
| SegmentService.Run | src/main.rs:65-154 | executes any interleaving of the handlers' locked sections step by step, one reply per step |
| SegmentService.HandleCreateBuiltIsRun | src/main.rs:70-92 | a successful uninterleaved create is exactly the run of a reservation followed by the commit of the reserved number, with the same state and replies |
| SegmentService.HandleCreateErrorIsRun | src/main.rs:70-123 | a failed uninterleaved create is exactly the run of a reservation followed by the failure of the reserved number, with the same state and replies |
| SegmentService.CommittedTermsStayFound | src/main.rs:135-140 | given a filter without false negatives, each term of a committed build is found in its segment after any later valid interleaving |

## Left out

- HTTP routing, query-parameter parsing, JSON serialisation and status codes
  (src/main.rs:25-61, 112-115, 141-152): transport only. A reply is kept as
  `Created(id)`, `CreateFailed`, or `Answer(Found(present, id) | NotFound(id))`.
  The field `exists` of the JSON body is `present` here, because `exists` is a
  Dafny keyword.
- `Arc<Mutex<..>>` and `tokio::task::spawn_blocking`: each locked section is
  one atomic step. The build is not a step on the state. Concurrency is
  modelled as arbitrary interleavings of steps.
- `build_bloom` (src/main.rs:156-182) reads a file. Its `unwrap` panics reach
  the handler as the `Err` arm of the join result. The model therefore takes
  the build outcome as an input: a `CommitStep` carrying some filter, a
  `FailStep`, or `BuildResult` for `HandleCreate`.
- Bloom filter sizing (`new_for_fp_rate` with a float rate and 16,918,463
  expected items), hashing, `set` and `check` belong to the external filter
  library. The filter is opaque and `check` is a parameter. The false-positive
  bound is floating-point and probabilistic, so it is not modelled.
- SegmentService.CommittedTermsFound: the no-false-negatives guarantee is a
  hypothesis (`NoFalseNegatives`), not a proved fact. The library that
  provides it is not part of this model.
- SegmentService.CommittedTermsStayFound: rests on the same
  `NoFalseNegatives` hypothesis, for the same reason.
- SegmentRegistry.Reserve: `*cnt += 1` on a `u32` overflows past 0xFFFF_FFFF.
  With Rust's overflow checks on (the debug profile default) it panics while
  holding the counter lock. That poisons the counter mutex, so no later
  reservation succeeds. With overflow checks off (the release profile default)
  it wraps to 0 and hands out 0, then 1, 2, ... again. Once a segment numbered
  0 is committed, a query for 0 finds it, unlike the `id == 0` case of
  `QueryNotFoundIff`. Committed numbers would then repeat, and the first-match
  scan at src/main.rs:135 would decide which summary a query sees. The model excludes both behaviours by requiring a
  counter below 0xFFFF_FFFF before a reservation.
- Timestamps come from the system clock (`current_time`). They are opaque
  `u64` inputs of `CommitStep`, with no ordering assumed between them.
- SegmentService.Step: lock acquisition is taken as infallible. The memory
  statistics and `println!` diagnostics (src/main.rs:93-109, 134, 142) run
  while the summaries lock is held (taken at src/main.rs:91 and 133). A
  `println!` panics when the write to stdout fails, for example on a closed
  pipe or a full disk, and that panic poisons the summaries mutex. From then
  on every commit and every query panics at the `unwrap` on src/main.rs:91 or
  133. Later commits never reach `push`, so their numbers stay reserved for
  good, and no query gets an answer, even for a committed number. The model
  excludes this, as it excludes counter overflow, so `Commit` and `QueryStep`
  always succeed. `QueryFound`, `FoundStaysFound` and `CommittedTermsStayFound`
  hold only while the mutex is not poisoned. The `println!` at
  src/main.rs:118 holds no lock, and its output is not modelled.
- The commented-out `build_fst` and the unused `fst` imports are dead code.
- `building` and `failed` are not fields of the Rust program. They stand for
  the reserved number each in-flight handler task holds on its stack, and for
  the tasks that took the error branch. `building` also holds numbers whose
  handler ended after reserving without reaching either arm. That happens
  when `current_time` panics at its `unwrap` (src/main.rs:186, called at 75
  and 82), or when the server drops the handler future at the `.await` on
  src/main.rs:79. Nothing forces a building number to settle, so such a number
  simply stays building, and by `QueryNotFoundIff` a query for it stays
  not-found.
