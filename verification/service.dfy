/**
  The segment service: the create and query handlers as a state machine.

  Each locked section of a handler is one atomic step. Creating a segment is
  a `ReserveStep` (bump the counter), a build that happens outside the state,
  then a `CommitStep` (push the summary) or a `FailStep` (build error). Any
  number of creations may be in flight at once, so a run is an arbitrary
  interleaving of these steps and of `QueryStep`s.

  Besides the registry, the state records the numbers whose handler is still
  building (`building`) and those whose build failed (`failed`). In the Rust
  code these live in the handler tasks: the reserved `segment_number` each
  in-flight task holds, and the tasks that ended in the error branch. A
  handler that ends after reserving without reaching either branch (a clock
  panic, a dropped future) leaves its number in `building` for good, and
  queries for it stay not-found.
 */
module SegmentService {
  import opened Base
  import opened SegmentRegistry

  datatype Service<F> = Service(registry: Registry<F>, building: set<u32>, failed: set<u32>)

  /** One atomic step of some handler. */
  datatype Action<F> =
    | ReserveStep
    | CommitStep(id: u32, startTime: u64, endTime: u64, filter: F)
    | FailStep(id: u32)
    | QueryStep(id: u32, term: Term)

  /** What a step hands back to its handler. */
  datatype Reply =
    | Reserved(id: u32)
    | Created(id: u32)
    | CreateFailed
    | Answer(outcome: QueryOutcome)

  /** The result of the filter build that runs between reservation and commit. */
  datatype BuildResult<F> = Built(filter: F) | BuildError

  datatype StepResult<F> = StepResult(service: Service<F>, reply: Reply)

  datatype RunResult<F> = RunResult(service: Service<F>, replies: seq<Reply>)

  /** The state at process start. */
  function Initial<F>(): Service<F>
  {
    Service(Empty(), {}, {})
  }

  /**
    The registry invariant: every number in 1..counter is in exactly one of
    three states (building, failed, committed exactly once), and no number
    outside 1..counter appears anywhere.
   */
  ghost predicate Inv<F>(svc: Service<F>)
  {
    var r := svc.registry;
    && (forall k :: 0 <= k < |r.summaries| ==> 1 <= r.summaries[k].segmentNumber <= r.counter)
    && DistinctIds(r.summaries)
    && (forall id :: id in svc.building ==> 1 <= id <= r.counter && !Has(r.summaries, id))
    && (forall id :: id in svc.failed ==> 1 <= id <= r.counter && !Has(r.summaries, id))
    && svc.building !! svc.failed
    && (forall id: u32 :: 1 <= id <= r.counter ==>
          id in svc.building || id in svc.failed || Has(r.summaries, id))
  }

  /** When a step may happen: reservation needs counter room; commit and fail need an in-flight build. */
  predicate Enabled<F>(svc: Service<F>, a: Action<F>)
  {
    match a
    case ReserveStep => svc.registry.counter < MaxU32
    case CommitStep(id, _, _, _) => id in svc.building
    case FailStep(id) => id in svc.building
    case QueryStep(_, _) => true
  }

  /**
    The locked section at the start of a creation: a fresh number is reserved
    and its build is now in flight.
   */
  function Reserve<F>(svc: Service<F>): (res: StepResult<F>)
    requires svc.registry.counter < MaxU32
    ensures res.reply.Reserved?
    ensures res.reply.id == svc.registry.counter + 1
    ensures res.service.registry.counter == res.reply.id
    ensures res.service.registry.summaries == svc.registry.summaries
    ensures res.service.building == svc.building + {res.reply.id}
    ensures res.service.failed == svc.failed
  {
    var rv := SegmentRegistry.Reserve(svc.registry);
    StepResult(svc.(registry := rv.registry, building := svc.building + {rv.id}), Reserved(rv.id))
  }

  /** The locked section after a successful build: the summary is pushed at the end. */
  function Commit<F>(svc: Service<F>, id: u32, startTime: u64, endTime: u64, filter: F): (res: StepResult<F>)
    requires id in svc.building
    ensures res.reply == Created(id)
    ensures res.service.registry.counter == svc.registry.counter
    ensures res.service.registry.summaries
            == svc.registry.summaries + [Summary(id, startTime, endTime, filter)]
    ensures res.service.building == svc.building - {id}
    ensures res.service.failed == svc.failed
  {
    var r := Append(svc.registry, Summary(id, startTime, endTime, filter));
    StepResult(svc.(registry := r, building := svc.building - {id}), Created(id))
  }

  /** The error branch after a failed build: no lock is taken and the number is never fulfilled. */
  function Fail<F>(svc: Service<F>, id: u32): (res: StepResult<F>)
    requires id in svc.building
    ensures res.reply == CreateFailed
    ensures res.service.registry == svc.registry
    ensures res.service.building == svc.building - {id}
    ensures res.service.failed == svc.failed + {id}
  {
    StepResult(svc.(building := svc.building - {id}, failed := svc.failed + {id}), CreateFailed)
  }

  /** One atomic step. A query leaves the state as it was. */
  function Step<F>(svc: Service<F>, a: Action<F>, check: (F, Term) -> bool): (res: StepResult<F>)
    requires Enabled(svc, a)
    ensures a.QueryStep? ==> res.service == svc
    ensures a.QueryStep? ==> res.reply == Answer(Query(svc.registry, a.id, a.term, check))
    ensures svc.registry.counter <= res.service.registry.counter
    ensures svc.registry.summaries <= res.service.registry.summaries
    ensures svc.failed <= res.service.failed
  {
    match a
    case ReserveStep => Reserve(svc)
    case CommitStep(id, st, et, f) => Commit(svc, id, st, et, f)
    case FailStep(id) => Fail(svc, id)
    case QueryStep(id, term) => StepResult(svc, Answer(Query(svc.registry, id, term, check)))
  }

  /** Every step of the trace is enabled in the state the previous steps reach. */
  predicate Valid<F>(svc: Service<F>, acts: seq<Action<F>>, check: (F, Term) -> bool)
    decreases |acts|
  {
    |acts| == 0 || (Enabled(svc, acts[0]) && Valid(Step(svc, acts[0], check).service, acts[1..], check))
  }

  /** Execute a trace, collecting the reply of every step. */
  function Run<F>(svc: Service<F>, acts: seq<Action<F>>, check: (F, Term) -> bool): (res: RunResult<F>)
    requires Valid(svc, acts, check)
    ensures |res.replies| == |acts|
    decreases |acts|
  {
    if |acts| == 0 then RunResult(svc, [])
    else
      var st := Step(svc, acts[0], check);
      var rest := Run(st.service, acts[1..], check);
      RunResult(rest.service, [st.reply] + rest.replies)
  }

  /** The numbers handed out by the reservations among `replies`, in order. */
  function ReservedIds(replies: seq<Reply>): seq<u32>
  {
    if |replies| == 0 then []
    else (if replies[0].Reserved? then [replies[0].id] else []) + ReservedIds(replies[1..])
  }

  ghost predicate StrictlyIncreasing(xs: seq<int>)
  {
    forall i, j :: 0 <= i < j < |xs| ==> xs[i] < xs[j]
  }

  /**
    One whole creation request without interleaving: reserve, then commit the
    built filter or take the error branch.
   */
  function HandleCreate<F>(svc: Service<F>, build: BuildResult<F>, startTime: u64, endTime: u64): (res: StepResult<F>)
    requires Inv(svc) && svc.registry.counter < MaxU32
    ensures res.service.registry.counter == svc.registry.counter + 1
    ensures res.service.building == svc.building
    ensures build.Built? ==> res.reply == Created(svc.registry.counter + 1)
    ensures build.Built? ==>
              res.service.registry.summaries
              == svc.registry.summaries + [Summary(svc.registry.counter + 1, startTime, endTime, build.filter)]
    ensures build.Built? ==> res.service.failed == svc.failed
    ensures build.BuildError? ==> res.reply == CreateFailed
    ensures build.BuildError? ==> res.service.registry.summaries == svc.registry.summaries
    ensures build.BuildError? ==> res.service.failed == svc.failed + {svc.registry.counter + 1}
  {
    var rv := Reserve(svc);
    match build
    case Built(f) => Commit(rv.service, rv.reply.id, startTime, endTime, f)
    case BuildError => Fail(rv.service, rv.reply.id)
  }

  /** The state at process start satisfies the invariant. */
  lemma InitialInv<F>()
    ensures Inv<F>(Initial())
  {
  }

  /** Every step preserves the invariant: commit and fail each settle one in-flight number. */
  lemma StepPreservesInv<F>(svc: Service<F>, a: Action<F>, check: (F, Term) -> bool)
    requires Inv(svc) && Enabled(svc, a)
    ensures Inv(Step(svc, a, check).service)
  {
  }

  /** Every valid trace preserves the invariant. */
  lemma {:induction false} RunPreservesInv<F>(svc: Service<F>, acts: seq<Action<F>>, check: (F, Term) -> bool)
    requires Inv(svc) && Valid(svc, acts, check)
    ensures Inv(Run(svc, acts, check).service)
    decreases |acts|
  {
    if |acts| > 0 {
      StepPreservesInv(svc, acts[0], check);
      RunPreservesInv(Step(svc, acts[0], check).service, acts[1..], check);
    }
  }

  /**
    Along any trace the registry only grows: the counter never decreases, the
    summaries only get new entries at the end, and failed numbers stay failed.
   */
  lemma {:induction false} RunAppendOnly<F>(svc: Service<F>, acts: seq<Action<F>>, check: (F, Term) -> bool)
    requires Valid(svc, acts, check)
    ensures svc.registry.counter <= Run(svc, acts, check).service.registry.counter
    ensures svc.registry.summaries <= Run(svc, acts, check).service.registry.summaries
    ensures svc.failed <= Run(svc, acts, check).service.failed
    decreases |acts|
  {
    if |acts| > 0 {
      RunAppendOnly(Step(svc, acts[0], check).service, acts[1..], check);
    }
  }

  /**
    The numbers handed out along any trace are strictly increasing, each above
    the counter at the start and at most the counter at the end; so from the
    initial state they start at 1 and none is handed out twice.
   */
  lemma {:induction false} ReservedIdsIncrease<F>(svc: Service<F>, acts: seq<Action<F>>, check: (F, Term) -> bool)
    requires Valid(svc, acts, check)
    ensures var ids := ReservedIds(Run(svc, acts, check).replies);
            && StrictlyIncreasing(ids)
            && forall i :: 0 <= i < |ids| ==>
                 svc.registry.counter < ids[i] <= Run(svc, acts, check).service.registry.counter
    decreases |acts|
  {
    if |acts| > 0 {
      var st := Step(svc, acts[0], check);
      var rest := Run(st.service, acts[1..], check);
      ReservedIdsIncrease(st.service, acts[1..], check);
      RunAppendOnly(st.service, acts[1..], check);
      var replies := [st.reply] + rest.replies;
      assert replies[1..] == rest.replies;
      assert ReservedIds(replies) == (if st.reply.Reserved? then [st.reply.id] else []) + ReservedIds(rest.replies);
      if st.reply.Reserved? {
        assert acts[0].ReserveStep?;
        assert st.reply.id == st.service.registry.counter;
      }
    }
  }

  /** Finding a summary is stable: once committed, later steps never change the answer. */
  lemma FoundStaysFound<F>(svc: Service<F>, acts: seq<Action<F>>, check: (F, Term) -> bool, id: u32)
    requires Valid(svc, acts, check)
    requires Has(svc.registry.summaries, id)
    ensures Find(Run(svc, acts, check).service.registry.summaries, id) == Find(svc.registry.summaries, id)
  {
    RunAppendOnly(svc, acts, check);
    FindPrefix(svc.registry.summaries, Run(svc, acts, check).service.registry.summaries, id);
  }

  /**
    A failed number is never fulfilled: after any later trace it is still
    failed, it was not handed out again, and a query for it is not-found.
   */
  lemma FailedStaysNotFound<F>(svc: Service<F>, acts: seq<Action<F>>, check: (F, Term) -> bool, id: u32, term: Term)
    requires Inv(svc) && Valid(svc, acts, check)
    requires id in svc.failed
    ensures id in Run(svc, acts, check).service.failed
    ensures id !in ReservedIds(Run(svc, acts, check).replies)
    ensures Query(Run(svc, acts, check).service.registry, id, term, check) == NotFound(id)
  {
    RunPreservesInv(svc, acts, check);
    RunAppendOnly(svc, acts, check);
    ReservedIdsIncrease(svc, acts, check);
  }

  /**
    Not-found is exactly the numbers with no committed summary: never
    reserved (0 or above the counter), still building, or failed.
   */
  lemma QueryNotFoundIff<F>(svc: Service<F>, id: u32, term: Term, check: (F, Term) -> bool)
    requires Inv(svc)
    ensures Query(svc.registry, id, term, check).NotFound?
            <==> id == 0 || id > svc.registry.counter || id in svc.building || id in svc.failed
  {
  }

  /**
    A query for a committed number tests the filter of the one summary that
    carries it and echoes the number.
   */
  lemma QueryFound<F>(svc: Service<F>, x: Summary<F>, term: Term, check: (F, Term) -> bool)
    requires Inv(svc)
    requires x in svc.registry.summaries
    ensures Query(svc.registry, x.segmentNumber, term, check) == Found(check(x.filter, term), x.segmentNumber)
  {
  }

  /** Running a trace is its first step followed by the rest. */
  lemma RunCons<F>(svc: Service<F>, a: Action<F>, rest: seq<Action<F>>, check: (F, Term) -> bool)
    requires Enabled(svc, a) && Valid(Step(svc, a, check).service, rest, check)
    ensures Valid(svc, [a] + rest, check)
    ensures Run(svc, [a] + rest, check)
            == RunResult(Run(Step(svc, a, check).service, rest, check).service,
                         [Step(svc, a, check).reply] + Run(Step(svc, a, check).service, rest, check).replies)
  {
  }

  /**
    Two in-flight creations may commit in either order. The two orders give
    different summary sequences, each in its completion order, but the same
    counter and bookkeeping and the same answer to every lookup by number.
   */
  lemma CommitOrderIrrelevant<F>(svc: Service<F>, a: Action<F>, b: Action<F>, check: (F, Term) -> bool)
    requires Inv(svc)
    requires a.CommitStep? && b.CommitStep? && a.id != b.id
    requires a.id in svc.building && b.id in svc.building
    ensures Valid(svc, [a, b], check) && Valid(svc, [b, a], check)
    ensures var ab := Run(svc, [a, b], check).service;
            var ba := Run(svc, [b, a], check).service;
            var xa := Summary(a.id, a.startTime, a.endTime, a.filter);
            var xb := Summary(b.id, b.startTime, b.endTime, b.filter);
            && ab.registry.summaries == svc.registry.summaries + [xa, xb]
            && ba.registry.summaries == svc.registry.summaries + [xb, xa]
            && ab.registry.counter == ba.registry.counter
            && ab.building == ba.building
            && ab.failed == ba.failed
            && forall id :: Find(ab.registry.summaries, id) == Find(ba.registry.summaries, id)
  {
    var sa := Step(svc, a, check).service;
    var sb := Step(svc, b, check).service;
    var ab := Step(sa, b, check).service;
    var ba := Step(sb, a, check).service;
    RunCons(sa, b, [], check);
    RunCons(svc, a, [b], check);
    RunCons(sb, a, [], check);
    RunCons(svc, b, [a], check);
    assert [a] + [b] == [a, b] && [b] + [a] == [b, a];
    StepPreservesInv(svc, a, check);
    StepPreservesInv(svc, b, check);
    StepPreservesInv(sa, b, check);
    StepPreservesInv(sb, a, check);
    var s := svc.registry.summaries;
    var xa := Summary(a.id, a.startTime, a.endTime, a.filter);
    var xb := Summary(b.id, b.startTime, b.endTime, b.filter);
    assert ab.registry.summaries == s + [xa, xb];
    assert ba.registry.summaries == s + [xb, xa];
    forall id: u32
      ensures Find(ab.registry.summaries, id) == Find(ba.registry.summaries, id)
    {
      FindIgnoresOrder(ab.registry.summaries, ba.registry.summaries, id);
    }
  }

  /**
    The summaries are kept in completion order, not number order: with two
    creations in flight, the later-reserved one can be committed first.
   */
  lemma CompletionOrderIsNotIdOrder<F>(f1: F, f2: F, check: (F, Term) -> bool)
    ensures var acts := [ReserveStep, ReserveStep, CommitStep(2, 0, 0, f2), CommitStep(1, 0, 0, f1)];
            && Valid(Initial(), acts, check)
            && Run(Initial(), acts, check).service.registry.summaries
               == [Summary(2, 0, 0, f2), Summary(1, 0, 0, f1)]
  {
    var c1: Action<F> := CommitStep(1, 0, 0, f1);
    var c2: Action<F> := CommitStep(2, 0, 0, f2);
    var s1 := Step(Initial(), ReserveStep, check).service;
    var s2 := Step(s1, ReserveStep, check).service;
    var s3 := Step(s2, c2, check).service;
    RunCons(s3, c1, [], check);
    RunCons(s2, c2, [c1], check);
    RunCons(s1, ReserveStep, [c2] + [c1], check);
    RunCons(Initial(), ReserveStep, [ReserveStep] + ([c2] + [c1]), check);
    assert [ReserveStep] + ([ReserveStep] + ([c2] + [c1])) == [ReserveStep, ReserveStep, c2, c1];
  }

  /**
    The Bloom filter guarantee the service relies on: a filter built from a
    list of terms answers true for each of them. It belongs to the filter
    library, so it is a hypothesis here.
   */
  ghost predicate NoFalseNegatives<F>(check: (F, Term) -> bool, build: seq<Term> -> F)
  {
    forall terms: seq<Term>, t: Term :: t in terms ==> check(build(terms), t)
  }

  /**
    Given a filter without false negatives, once an in-flight creation commits
    the filter built from its terms, every one of those terms is found in it.
   */
  lemma CommittedTermsFound<F>(svc: Service<F>, id: u32, startTime: u64, endTime: u64,
                               terms: seq<Term>, t: Term,
                               check: (F, Term) -> bool, build: seq<Term> -> F)
    requires Inv(svc) && id in svc.building
    requires NoFalseNegatives(check, build)
    requires t in terms
    ensures Query(Commit(svc, id, startTime, endTime, build(terms)).service.registry, id, t, check)
            == Found(true, id)
  {
  }

  /**
    No false negatives, always: once the filter built from `terms` is
    committed, each of those terms is found in that segment after any later
    valid interleaving of steps.
   */
  lemma CommittedTermsStayFound<F>(svc: Service<F>, id: u32, startTime: u64, endTime: u64,
                                   terms: seq<Term>, t: Term, acts: seq<Action<F>>,
                                   check: (F, Term) -> bool, build: seq<Term> -> F)
    requires Inv(svc) && id in svc.building
    requires NoFalseNegatives(check, build)
    requires t in terms
    requires Valid(Commit(svc, id, startTime, endTime, build(terms)).service, acts, check)
    ensures Query(Run(Commit(svc, id, startTime, endTime, build(terms)).service, acts, check).service.registry,
                  id, t, check)
            == Found(true, id)
  {
    var committed := Commit(svc, id, startTime, endTime, build(terms)).service;
    CommittedTermsFound(svc, id, startTime, endTime, terms, t, check, build);
    FoundStaysFound(committed, acts, check, id);
  }

  /**
    The uninterleaved create handler is the two-step run of its locked
    sections: a reservation followed by the commit of the reserved number.
   */
  lemma HandleCreateBuiltIsRun<F>(svc: Service<F>, f: F, startTime: u64, endTime: u64, check: (F, Term) -> bool)
    requires Inv(svc) && svc.registry.counter < MaxU32
    ensures var acts := [ReserveStep, CommitStep(svc.registry.counter + 1, startTime, endTime, f)];
            && Valid(svc, acts, check)
            && Run(svc, acts, check).service == HandleCreate(svc, Built(f), startTime, endTime).service
            && Run(svc, acts, check).replies
               == [Reserved(svc.registry.counter + 1), HandleCreate(svc, Built(f), startTime, endTime).reply]
  {
    var c: Action<F> := CommitStep(svc.registry.counter + 1, startTime, endTime, f);
    var s1 := Step(svc, ReserveStep, check).service;
    RunCons(s1, c, [], check);
    RunCons(svc, ReserveStep, [c], check);
    assert [ReserveStep] + [c] == [ReserveStep, c];
  }

  /**
    The error path of the create handler is the two-step run of a reservation
    followed by the failure of the reserved number.
   */
  lemma HandleCreateErrorIsRun<F>(svc: Service<F>, startTime: u64, endTime: u64, check: (F, Term) -> bool)
    requires Inv(svc) && svc.registry.counter < MaxU32
    ensures var acts: seq<Action<F>> := [ReserveStep, FailStep(svc.registry.counter + 1)];
            && Valid(svc, acts, check)
            && Run(svc, acts, check).service == HandleCreate(svc, BuildError, startTime, endTime).service
            && Run(svc, acts, check).replies
               == [Reserved(svc.registry.counter + 1), HandleCreate(svc, BuildError, startTime, endTime).reply]
  {
    var c: Action<F> := FailStep(svc.registry.counter + 1);
    var s1 := Step(svc, ReserveStep, check).service;
    RunCons(s1, c, [], check);
    RunCons(svc, ReserveStep, [c], check);
    assert [ReserveStep] + [c] == [ReserveStep, c];
  }

  /** The registry right after the worked create answers the two worked queries. */
  lemma FruitAnswers<F>(startTime: u64, endTime: u64, check: (F, Term) -> bool, build: seq<Term> -> F)
    requires NoFalseNegatives(check, build)
    ensures var r := Registry(1, [Summary(1, startTime, endTime, build(["apple", "banana", "cherry"]))]);
            && Query(r, 1, "apple", check) == Found(true, 1)
            && Query(r, 2, "apple", check) == NotFound(2)
  {
  }

  /**
    A worked run: create a segment from the terms "apple", "banana" and
    "cherry", then ask for "apple" in it and in the next, never-created,
    segment.
   */
  lemma FruitScenario<F>(startTime: u64, endTime: u64, check: (F, Term) -> bool, build: seq<Term> -> F)
    requires NoFalseNegatives(check, build)
    ensures var acts := [ReserveStep, CommitStep(1, startTime, endTime, build(["apple", "banana", "cherry"])),
                         QueryStep(1, "apple"), QueryStep(2, "apple")];
            && Valid(Initial(), acts, check)
            && Run(Initial(), acts, check).replies
               == [Reserved(1), Created(1), Answer(Found(true, 1)), Answer(NotFound(2))]
  {
    var c: Action<F> := CommitStep(1, startTime, endTime, build(["apple", "banana", "cherry"]));
    var q1: Action<F> := QueryStep(1, "apple");
    var q2: Action<F> := QueryStep(2, "apple");
    var s1 := Step(Initial(), ReserveStep, check).service;
    assert s1 == Service(Registry(1, []), {1}, {});
    var s2 := Step(s1, c, check).service;
    assert s2.registry == Registry(1, [Summary(1, startTime, endTime, build(["apple", "banana", "cherry"]))]);
    FruitAnswers(startTime, endTime, check, build);
    RunCons(s2, q2, [], check);
    RunCons(s2, q1, [q2], check);
    RunCons(s1, c, [q1] + [q2], check);
    RunCons(Initial(), ReserveStep, [c] + ([q1] + [q2]), check);
    assert [ReserveStep] + ([c] + ([q1] + [q2])) == [ReserveStep, c, q1, q2];
  }
}
