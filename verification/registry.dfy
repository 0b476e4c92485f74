/**
  The segment registry: the shared counter that hands out segment numbers and
  the vector of committed segment summaries, with the operations that the
  create and query handlers perform while holding the corresponding lock.

  The Bloom filter of a summary is an opaque value of type `F`; its membership
  test is a parameter `check: (F, Term) -> bool`.
 */
module SegmentRegistry {
  import opened Base

  /** One committed segment: its number, build start and end times, and its filter. */
  datatype Summary<F> = Summary(segmentNumber: u32, startTime: u64, endTime: u64, filter: F)

  /** The counter (last number handed out) and the summaries in commit order. */
  datatype Registry<F> = Registry(counter: u32, summaries: seq<Summary<F>>)

  /** What a reservation returns: the registry with the bumped counter and the new number. */
  datatype Reservation<F> = Reservation(registry: Registry<F>, id: u32)

  /** The abstract answer of a query: the JSON body `{exists, segment_number}` or not-found. */
  datatype QueryOutcome = Found(present: bool, segmentNumber: u32) | NotFound(id: u32)

  /** The registry at process start: counter 0 and no summaries. */
  function Empty<F>(): Registry<F>
  {
    Registry(0, [])
  }

  /** Some committed summary carries segment number `id`. */
  ghost predicate Has<F>(s: seq<Summary<F>>, id: u32)
  {
    exists k :: 0 <= k < |s| && s[k].segmentNumber == id
  }

  /** `k` is the position of the first summary numbered `id`. */
  ghost predicate IsFirstMatch<F>(s: seq<Summary<F>>, id: u32, k: int)
  {
    && 0 <= k < |s|
    && s[k].segmentNumber == id
    && forall j :: 0 <= j < k ==> s[j].segmentNumber != id
  }

  /** No two summaries carry the same segment number. */
  ghost predicate DistinctIds<F>(s: seq<Summary<F>>)
  {
    forall i, j :: 0 <= i < j < |s| ==> s[i].segmentNumber != s[j].segmentNumber
  }

  /**
    Reserve the next segment number: bump the counter by one and hand out its
    new value. The summaries are not touched.
   */
  function Reserve<F>(r: Registry<F>): (res: Reservation<F>)
    requires r.counter < MaxU32
    ensures res.id == r.counter + 1
    ensures res.registry.counter == res.id
    ensures res.id > r.counter && res.id >= 1
    ensures res.registry.summaries == r.summaries
  {
    var next := r.counter + 1;
    Reservation(r.(counter := next), next)
  }

  /** Push a finished summary at the end of the vector; nothing else changes. */
  function Append<F>(r: Registry<F>, x: Summary<F>): (r': Registry<F>)
    ensures r'.counter == r.counter
    ensures |r'.summaries| == |r.summaries| + 1
    ensures r'.summaries[..|r.summaries|] == r.summaries
    ensures r'.summaries[|r.summaries|] == x
  {
    r.(summaries := r.summaries + [x])
  }

  /** The linear scan for the first summary numbered `id`. */
  function Find<F>(s: seq<Summary<F>>, id: u32): (r: Option<Summary<F>>)
    ensures r.None? <==> !Has(s, id)
    ensures r.Some? ==> exists k :: IsFirstMatch(s, id, k) && s[k] == r.value
  {
    if |s| == 0 then None
    else if s[0].segmentNumber == id then Some(s[0])
    else
      var r := Find(s[1..], id);
      assert r.Some? ==> exists k :: IsFirstMatch(s, id, k) && s[k] == r.value by {
        if r.Some? {
          var k :| IsFirstMatch(s[1..], id, k) && s[1..][k] == r.value;
          assert IsFirstMatch(s, id, k + 1);
        }
      }
      r
  }

  /**
    Answer a query: the membership test of the first summary numbered `id`,
    echoing `id`, or not-found when no committed summary has that number.
   */
  function Query<F>(r: Registry<F>, id: u32, term: Term, check: (F, Term) -> bool): (o: QueryOutcome)
    ensures o.NotFound? <==> !Has(r.summaries, id)
    ensures o.NotFound? ==> o.id == id
    ensures o.Found? ==> o.segmentNumber == id
    ensures o.Found? ==> exists k :: IsFirstMatch(r.summaries, id, k)
                                     && o.present == check(r.summaries[k].filter, term)
  {
    match Find(r.summaries, id)
    case None => NotFound(id)
    case Some(x) => Found(check(x.filter, term), id)
  }

  /** Appending extends `Has` by exactly the appended number. */
  lemma HasAppend<F>(s: seq<Summary<F>>, x: Summary<F>, id: u32)
    ensures Has(s + [x], id) <==> Has(s, id) || x.segmentNumber == id
  {
    if x.segmentNumber == id {
      assert (s + [x])[|s|].segmentNumber == id;
    }
    if Has(s, id) {
      var k :| 0 <= k < |s| && s[k].segmentNumber == id;
      assert (s + [x])[k].segmentNumber == id;
    }
  }

  /** Any first match is the position of the summary `Find` returns. */
  lemma FindAt<F>(s: seq<Summary<F>>, id: u32, k: int)
    requires IsFirstMatch(s, id, k)
    ensures Find(s, id) == Some(s[k])
  {
  }

  /**
    Appending never changes the answer for a number already committed, and
    makes the appended summary the answer for its own number otherwise.
   */
  lemma FindAppend<F>(s: seq<Summary<F>>, x: Summary<F>, id: u32)
    ensures Has(s, id) ==> Find(s + [x], id) == Find(s, id)
    ensures !Has(s, id) && x.segmentNumber == id ==> Find(s + [x], id) == Some(x)
    ensures !Has(s, id) && x.segmentNumber != id ==> Find(s + [x], id) == None
  {
    HasAppend(s, x, id);
    var t := s + [x];
    if Has(s, id) {
      var r := Find(s, id);
      assert r.Some?;
      var k :| IsFirstMatch(s, id, k) && s[k] == r.value;
      assert IsFirstMatch(t, id, k) by {
        forall j | 0 <= j <= k
          ensures t[j] == s[j]
        {
        }
      }
      FindAt(t, id, k);
    } else if x.segmentNumber == id {
      assert IsFirstMatch(t, id, |s|);
      FindAt(t, id, |s|);
    }
  }

  /**
    With distinct numbers, the answer of a lookup is exactly the summary in the
    sequence that carries that number, wherever it sits.
   */
  lemma FindDistinct<F>(s: seq<Summary<F>>, id: u32, x: Summary<F>)
    requires DistinctIds(s)
    ensures Find(s, id) == Some(x) <==> x in s && x.segmentNumber == id
  {
  }

  /**
    A lookup by number does not depend on the order of the summaries: two
    sequences with distinct numbers and the same elements answer alike.
   */
  lemma FindIgnoresOrder<F>(s1: seq<Summary<F>>, s2: seq<Summary<F>>, id: u32)
    requires DistinctIds(s1) && DistinctIds(s2)
    requires forall x :: x in s1 <==> x in s2
    ensures Find(s1, id) == Find(s2, id)
  {
    match Find(s1, id)
    case Some(x) =>
      FindDistinct(s1, id, x);
      FindDistinct(s2, id, x);
    case None =>
      match Find(s2, id)
      case Some(y) =>
        FindDistinct(s1, id, y);
        FindDistinct(s2, id, y);
      case None =>
  }

  /** Extending the sequence at the end keeps the answer for a number already present. */
  lemma FindPrefix<F>(s: seq<Summary<F>>, t: seq<Summary<F>>, id: u32)
    requires s <= t && Has(s, id)
    ensures Find(t, id) == Find(s, id)
  {
  }
}
