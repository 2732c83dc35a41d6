/** The container's table of volumes: a memo table that grows on demand. */
module VolumeCache {
  import opened Bits
  import opened Structures

  type Slots<V> = seq<Option<V>>

  function Slot<V>(slots: Slots<V>, i: nat): Option<V>
  {
    if i < |slots| then slots[i] else None
  }

  /** The index names a volume of the container. */
  predicate Named(oids: seq<u64>, i: nat)
  {
    i < NX_MAX_FILE_SYSTEMS && i < |oids| && oids[i] != 0
  }

  function Grown<V>(slots: Slots<V>, n: nat): (s: Slots<V>)
    ensures |s| == if |slots| < n then n else |slots|
  {
    if |slots| < n then slots + seq(n - |slots|, _ => None) else slots
  }

  /** One request for a volume; made is what initialising a new volume would yield on this call. */
  datatype Request<V> = Request(index: nat, made: Option<V>)

  function AfterRequest<V>(slots: Slots<V>, oids: seq<u64>, r: Request<V>): Slots<V>
  {
    if !Named(oids, r.index) || Slot(slots, r.index).Some? then slots
    else Grown(slots, r.index + 1)[r.index := r.made]
  }

  function Answer<V>(slots: Slots<V>, oids: seq<u64>, r: Request<V>): Option<V>
  {
    if !Named(oids, r.index) then None
    else if Slot(slots, r.index).Some? then Slot(slots, r.index)
    else r.made
  }

  /** The table after a sequence of requests, starting from the empty table. */
  function Run<V>(oids: seq<u64>, rs: seq<Request<V>>): Slots<V>
  {
    if rs == [] then []
    else AfterRequest(Run(oids, rs[..|rs| - 1]), oids, rs[|rs| - 1])
  }

  /** The volume of the first request for an index whose initialisation succeeds. */
  function FirstMade<V>(rs: seq<Request<V>>, i: nat): Option<V>
  {
    if rs == [] then None
    else
      var before := FirstMade(rs[..|rs| - 1], i);
      var last := rs[|rs| - 1];
      if before.Some? then before else if last.index == i then last.made else None
  }

  /** The table, and the answer to any request, are determined by the requests so far: a named index has
      the volume of its first successful request, every other index has none. */
  lemma {:induction false} CacheMeaning<V>(oids: seq<u64>, rs: seq<Request<V>>, i: nat)
    ensures Slot(Run(oids, rs), i) == if Named(oids, i) then FirstMade(rs, i) else None
    ensures |Run(oids, rs)| <= NX_MAX_FILE_SYSTEMS
  {
    if rs != [] {
      CacheMeaning(oids, rs[..|rs| - 1], i);
      CacheMeaning(oids, rs[..|rs| - 1], rs[|rs| - 1].index);
    }
  }

  lemma AnswerMeaning<V>(oids: seq<u64>, rs: seq<Request<V>>, r: Request<V>)
    ensures Answer(Run(oids, rs), oids, r) == if Named(oids, r.index) then FirstMade(rs + [r], r.index) else None
  {
    CacheMeaning(oids, rs, r.index);
    assert (rs + [r])[..|rs|] == rs;
  }

  lemma RunNext<V>(oids: seq<u64>, rs: seq<Request<V>>, r: Request<V>)
    ensures Run(oids, rs + [r]) == AfterRequest(Run(oids, rs), oids, r)
  {
    assert (rs + [r])[..|rs|] == rs;
  }

  /** A slot keeps its volume over every further request, and an answered request has filled its slot. */
  lemma SlotsStay<V>(slots: Slots<V>, oids: seq<u64>, r: Request<V>, i: nat)
    ensures Slot(slots, i).Some? ==> Slot(AfterRequest(slots, oids, r), i) == Slot(slots, i)
    ensures Answer(slots, oids, r).Some? ==> Slot(AfterRequest(slots, oids, r), r.index) == Answer(slots, oids, r)
  {
  }

  lemma {:induction false} FirstMadeStays<V>(rs: seq<Request<V>>, more: seq<Request<V>>, i: nat)
    requires FirstMade(rs, i).Some?
    ensures FirstMade(rs + more, i) == FirstMade(rs, i)
    decreases |more|
  {
    if more == [] {
      assert rs + more == rs;
    } else {
      FirstMadeStays(rs, more[..|more| - 1], i);
      assert (rs + more)[..|rs + more| - 1] == rs + more[..|more| - 1];
    }
  }

  /** Once a request has been answered with a volume, every later request for that index gets the same one. */
  lemma SameVolumeForEver<V>(oids: seq<u64>, rs: seq<Request<V>>, more: seq<Request<V>>,
                             first: Request<V>, later: Request<V>)
    requires first.index == later.index && Answer(Run(oids, rs), oids, first).Some?
    ensures Answer(Run(oids, rs + [first] + more), oids, later) == Answer(Run(oids, rs), oids, first)
  {
    AnswerMeaning(oids, rs, first);
    AnswerMeaning(oids, rs + [first] + more, later);
    FirstMadeStays(rs + [first], more, first.index);
    FirstMadeStays(rs + [first] + more, [later], first.index);
  }

  /** The indices that name a volume. */
  function NamedIndices(oids: seq<u64>): set<nat>
  {
    set i: nat | i < NX_MAX_FILE_SYSTEMS && Named(oids, i)
  }

  function FilledIndices<V>(slots: Slots<V>): set<nat>
  {
    set i: nat | i < |slots| && slots[i].Some?
  }

  /** There are never more cached volumes than named ones. */
  lemma CachedAtMostNamed<V>(oids: seq<u64>, rs: seq<Request<V>>)
    ensures FilledIndices(Run(oids, rs)) <= NamedIndices(oids)
    ensures |FilledIndices(Run(oids, rs))| <= |NamedIndices(oids)|
  {
    forall i | i in FilledIndices(Run(oids, rs)) ensures i in NamedIndices(oids) {
      CacheMeaning(oids, rs, i);
    }
    SubsetSize(FilledIndices(Run(oids, rs)), NamedIndices(oids));
  }

  lemma {:induction false} SubsetSize(a: set<nat>, b: set<nat>)
    requires a <= b
    ensures |a| <= |b|
  {
    if a != {} {
      var x :| x in a;
      SubsetSize(a - {x}, b - {x});
    }
  }
}
