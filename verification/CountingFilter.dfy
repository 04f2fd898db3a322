/** The counting filter: one 32-bit counter per hash slot, incremented and decremented along an edge's hashes. */
module CountingFilter {
  import opened Common

  const LONG: nat := 0x1_0000_0000_0000_0000

  /** An edge with its smaller endpoint first. */
  datatype Edge = Edge(lo: nat, hi: nat)

  /** The edge between two vertices, whichever is named first. */
  function Ordered(v1: nat, v2: nat): (e: Edge)
    ensures e.lo <= e.hi && {e.lo, e.hi} == {v1, v2}
  {
    if v1 > v2 then Edge(v2, v1) else Edge(v1, v2)
  }

  /** The hash functions: `nums` pairs of factors over `size` slots. */
  datatype Hashing = Hashing(nums: nat, size: nat, param1: seq<nat>, param2: seq<nat>) {

    ghost predicate Ok() { size >= 1 && nums <= |param1| && nums <= |param2| }

    /** The `i`-th slot of an edge, computed in 64 bits. */
    function Slot(e: Edge, i: nat): (s: nat)
      requires Ok() && i < nums
      ensures s < size
    {
      ((e.lo * param1[i] + e.hi * param2[i]) % LONG) % size
    }

    /** The slot a delete goes to: it keeps the hash in a 32-bit variable. */
    function DropSlot(e: Edge, i: nat): (s: nat)
      requires Ok() && i < nums
      ensures s < size && s < WORD
      ensures s == Slot(e, i) <==> Slot(e, i) < WORD
    {
      Slot(e, i) % WORD
    }

    /** How many of the first `n` hashes of `e` fall on `slot`. */
    function Hits(e: Edge, slot: nat, n: nat): nat
      requires Ok() && n <= nums
    {
      if n == 0 then 0 else Hits(e, slot, n - 1) + (if Slot(e, n - 1) == slot then 1 else 0)
    }

    /** How many of the first `n` delete slots of `e` are `slot`. */
    function DropHits(e: Edge, slot: nat, n: nat): nat
      requires Ok() && n <= nums
    {
      if n == 0 then 0 else DropHits(e, slot, n - 1) + (if DropSlot(e, n - 1) == slot then 1 else 0)
    }

    /** No hash of the edge is cut off by the 32-bit variable, as always with at most 2^32 slots. */
    ghost predicate Narrow(e: Edge)
      requires Ok()
    {
      forall i :: 0 <= i < nums ==> Slot(e, i) < WORD
    }
  }

  function Wrap(x: nat): (r: nat)
    ensures r < WORD && (x < WORD ==> r == x)
  {
    x % WORD
  }

  lemma WrapNext(x: nat)
    ensures Wrap(Wrap(x) + 1) == Wrap(x + 1)
  {
  }

  /** The counters after an edge was added: wrapping at 32 bits. */
  function Added(h: Hashing, c: seq<nat>, e: Edge): (r: seq<nat>)
    requires h.Ok() && |c| == h.size
    ensures |r| == |c|
  {
    seq(|c|, s requires 0 <= s < |c| => Wrap(c[s] + h.Hits(e, s, h.nums)))
  }

  function Monus(x: nat, y: nat): nat {
    if x >= y then x - y else 0
  }

  /** The counters after an edge was taken out: never below zero. */
  function Removed(h: Hashing, c: seq<nat>, e: Edge): (r: seq<nat>)
    requires h.Ok() && |c| == h.size
    ensures |r| == |c|
  {
    seq(|c|, s requires 0 <= s < |c| => Monus(c[s], h.DropHits(e, s, h.nums)))
  }

  /** The test: some counter of the edge is zero. */
  predicate Excluded(h: Hashing, c: seq<nat>, e: Edge)
    requires h.Ok() && |c| == h.size
  {
    exists i :: 0 <= i < h.nums && c[h.Slot(e, i)] == 0
  }

  class BFilterIntEncode {
    const h: Hashing
    const encode: array<nat>

    ghost predicate Valid()
      reads encode
    {
      h.Ok() && encode.Length == h.size && forall s :: 0 <= s < encode.Length ==> encode[s] < WORD
    }

    constructor (h: Hashing)
      requires h.Ok()
      ensures Valid() && this.h == h && fresh(encode) && encode[..] == seq(h.size, _ => 0)
    {
      this.h := h;
      encode := new nat[h.size](_ => 0);
      new;
      assert encode[..] == seq(h.size, _ => 0);
    }

    method EdgeSet(vertex1: nat, vertex2: nat)
      requires Valid()
      modifies encode
      ensures Valid() && encode[..] == Added(h, old(encode[..]), Ordered(vertex1, vertex2))
    {
      hide Hashing.Slot, Wrap;
      var e := Ordered(vertex1, vertex2);
      for i := 0 to h.nums
        invariant Valid()
        invariant forall s :: 0 <= s < h.size ==> encode[s] == Wrap(old(encode[s]) + h.Hits(e, s, i))
      {
        var s := h.Slot(e, i);
        WrapNext(old(encode[s]) + h.Hits(e, s, i));
        encode[s] := Wrap(encode[s] + 1);
      }
    }

    method InsertPair(vertex1: nat, vertex2: nat)
      requires Valid()
      modifies encode
      ensures Valid() && encode[..] == Added(h, old(encode[..]), Ordered(vertex1, vertex2))
    {
      EdgeSet(vertex1, vertex2);
    }

    method DeletePair(vertex1: nat, vertex2: nat)
      requires Valid()
      modifies encode
      ensures Valid() && encode[..] == Removed(h, old(encode[..]), Ordered(vertex1, vertex2))
    {
      hide Hashing.Slot, Hashing.DropSlot;
      var e := Ordered(vertex1, vertex2);
      for i := 0 to h.nums
        invariant Valid()
        invariant forall s :: 0 <= s < h.size ==> encode[s] == Monus(old(encode[s]), h.DropHits(e, s, i))
      {
        var s := h.DropSlot(e, i);
        if encode[s] > 0 {
          encode[s] := encode[s] - 1;
        }
      }
    }

    method NEpairTest(vertex1: nat, vertex2: nat) returns (r: PairType)
      requires Valid()
      ensures r == if Excluded(h, encode[..], Ordered(vertex1, vertex2)) then NonNeighbor else Uncertain
    {
      hide Hashing.Slot;
      var e := Ordered(vertex1, vertex2);
      for i := 0 to h.nums
        invariant forall j :: 0 <= j < i ==> encode[h.Slot(e, j)] != 0
      {
        if encode[h.Slot(e, i)] == 0 {
          return NonNeighbor;
        }
      }
      return Uncertain;
    }
  }

  // ---- Runs ---------------------------------------------------------------------------------------------------

  datatype Op = Insert(e: Edge) | Delete(e: Edge)

  /** The counters after one operation. */
  function Applied(h: Hashing, c: seq<nat>, op: Op): (r: seq<nat>)
    requires h.Ok() && |c| == h.size
    ensures |r| == |c|
  {
    match op
    case Insert(e) => Added(h, c, e)
    case Delete(e) => Removed(h, c, e)
  }

  /** The counters after a run from the empty filter. */
  function Run(h: Hashing, ops: seq<Op>): (c: seq<nat>)
    requires h.Ok()
    ensures |c| == h.size
  {
    if ops == [] then seq(h.size, _ => 0)
    else
      Applied(h, Run(h, ops[..|ops| - 1]), ops[|ops| - 1])
  }

  /** A list without the last occurrence of an edge. */
  function Without(es: seq<Edge>, e: Edge): seq<Edge> {
    if es == [] then []
    else if es[|es| - 1] == e then es[..|es| - 1]
    else Without(es[..|es| - 1], e) + [es[|es| - 1]]
  }

  function PresentAfter(es: seq<Edge>, op: Op): seq<Edge> {
    match op
    case Insert(e) => es + [e]
    case Delete(e) => Without(es, e)
  }

  /** The edges present after a run, an edge inserted twice being present twice. */
  function Present(ops: seq<Op>): seq<Edge> {
    if ops == [] then []
    else
      PresentAfter(Present(ops[..|ops| - 1]), ops[|ops| - 1])
  }

  /** How many (edge, hash) pairs of the listed edges fall on a slot. */
  function Tally(h: Hashing, es: seq<Edge>, slot: nat): nat
    requires h.Ok()
  {
    if es == [] then 0 else Tally(h, es[..|es| - 1], slot) + h.Hits(es[|es| - 1], slot, h.nums)
  }

  /** An edge between two vertices of the graph. */
  predicate IsEdge(e: Edge, v: nat) {
    1 <= e.lo < e.hi <= v
  }

  /** The run concerns edges of the graph, and deletes only edges present at that point. */
  ghost predicate Legal(v: nat, ops: seq<Op>) {
    ops == [] ||
    (var before, op := ops[..|ops| - 1], ops[|ops| - 1];
     Legal(v, before) && IsEdge(op.e, v) && (op.Delete? ==> op.e in Present(before)))
  }

  /** No insert of the run takes a counter past 32 bits. */
  ghost predicate NoOverflow(h: Hashing, ops: seq<Op>)
    requires h.Ok()
  {
    ops == [] ||
    (var before, op := ops[..|ops| - 1], ops[|ops| - 1];
     NoOverflow(h, before) && (op.Insert? ==> Adds(h, Run(h, before), op.e)))
  }

  /** Adding an edge overflows no counter. */
  ghost predicate Adds(h: Hashing, c: seq<nat>, e: Edge)
    requires h.Ok() && |c| == h.size
  {
    forall s :: 0 <= s < h.size ==> c[s] + h.Hits(e, s, h.nums) < WORD
  }

  /** No delete of the run cuts off a hash. */
  ghost predicate NarrowDeletes(h: Hashing, ops: seq<Op>)
    requires h.Ok()
  {
    forall i :: 0 <= i < |ops| && ops[i].Delete? ==> h.Narrow(ops[i].e)
  }

  lemma {:induction false} NarrowHits(h: Hashing, e: Edge, slot: nat, n: nat)
    requires h.Ok() && n <= h.nums && h.Narrow(e)
    ensures h.DropHits(e, slot, n) == h.Hits(e, slot, n)
  {
    hide Hashing.Slot, Hashing.DropSlot;
    if n > 0 {
      NarrowHits(h, e, slot, n - 1);
    }
  }

  lemma {:induction false} HitsOwnSlot(h: Hashing, e: Edge, i: nat, n: nat)
    requires h.Ok() && i < n <= h.nums
    ensures h.Hits(e, h.Slot(e, i), n) >= 1
  {
    hide Hashing.Slot;
    if i < n - 1 {
      HitsOwnSlot(h, e, i, n - 1);
    }
  }

  lemma {:induction false} WideDropsNothing(h: Hashing, e: Edge, slot: nat, n: nat)
    requires h.Ok() && n <= h.nums && slot >= WORD
    ensures h.DropHits(e, slot, n) == 0
  {
    hide Hashing.Slot, Hashing.DropSlot;
    if n > 0 {
      WideDropsNothing(h, e, slot, n - 1);
    }
  }

  /** A delete undoes an insert exactly when no hash of the edge is cut off at 32 bits. */
  lemma DeleteUndoesIff(h: Hashing, c: seq<nat>, e: Edge)
    requires h.Ok() && |c| == h.size && Adds(h, c, e)
    ensures Removed(h, Added(h, c, e), e) == c <==> h.Narrow(e)
  {
    hide Hashing.Slot, Hashing.DropSlot, Wrap, Hashing.Hits, Hashing.DropHits;
    if h.Narrow(e) {
      forall s | 0 <= s < |c| ensures Removed(h, Added(h, c, e), e)[s] == c[s] {
        NarrowHits(h, e, s, h.nums);
      }
    } else {
      var i :| 0 <= i < h.nums && h.Slot(e, i) >= WORD;
      HitsOwnSlot(h, e, i, h.nums);
      WideDropsNothing(h, e, h.Slot(e, i), h.nums);
      assert Removed(h, Added(h, c, e), e)[h.Slot(e, i)] > c[h.Slot(e, i)];
    }
  }

  lemma {:induction false} TallyWithout(h: Hashing, es: seq<Edge>, e: Edge, slot: nat)
    requires h.Ok() && e in es
    ensures Tally(h, es, slot) == Tally(h, Without(es, e), slot) + h.Hits(e, slot, h.nums)
  {
    var last := es[|es| - 1];
    if last != e {
      var rest := es[..|es| - 1];
      TallyWithout(h, rest, e, slot);
      assert Without(es, e)[..|Without(es, e)| - 1] == Without(rest, e);
    }
  }

  lemma {:induction false} WithoutCounts(es: seq<Edge>, e: Edge)
    requires e in es
    ensures multiset(Without(es, e)) == multiset(es) - multiset{e}
  {
    var rest, last := es[..|es| - 1], es[|es| - 1];
    assert es == rest + [last];
    if last != e {
      WithoutCounts(rest, e);
    }
  }

  /** Only how often each edge is listed matters, not the order. */
  lemma {:induction false} TallyByCount(h: Hashing, xs: seq<Edge>, ys: seq<Edge>, slot: nat)
    requires h.Ok() && multiset(xs) == multiset(ys)
    ensures Tally(h, xs, slot) == Tally(h, ys, slot)
    decreases |xs|
  {
    if xs == [] {
      assert |multiset(ys)| == 0;
    } else {
      var rest, last := xs[..|xs| - 1], xs[|xs| - 1];
      assert xs == rest + [last];
      assert last in multiset(ys);
      TallyWithout(h, ys, last, slot);
      WithoutCounts(ys, last);
      TallyByCount(h, rest, Without(ys, last), slot);
    }
  }

  lemma TallyAppend(h: Hashing, es: seq<Edge>, e: Edge, slot: nat)
    requires h.Ok()
    ensures Tally(h, es + [e], slot) == Tally(h, es, slot) + h.Hits(e, slot, h.nums)
  {
    assert (es + [e])[..|es|] == es;
  }

  lemma RunStep(h: Hashing, ops: seq<Op>, op: Op)
    requires h.Ok()
    ensures Run(h, ops + [op]) == Applied(h, Run(h, ops), op)
    ensures Present(ops + [op]) == PresentAfter(Present(ops), op)
  {
    hide Applied, PresentAfter;
    assert (ops + [op])[..|ops|] == ops;
  }

  /** What one operation does to a counter and to the number it should hold. */
  lemma CounterStep(h: Hashing, c: seq<nat>, es: seq<Edge>, op: Op, s: nat)
    requires h.Ok() && |c| == h.size && s < h.size
    requires if op.Insert? then Adds(h, c, op.e) else op.e in es
    ensures op.Insert? ==>
      && Applied(h, c, op)[s] == c[s] + h.Hits(op.e, s, h.nums)
      && Tally(h, PresentAfter(es, op), s) == Tally(h, es, s) + h.Hits(op.e, s, h.nums)
    ensures op.Delete? ==>
      && Applied(h, c, op)[s] == Monus(c[s], h.DropHits(op.e, s, h.nums))
      && Tally(h, es, s) == Tally(h, PresentAfter(es, op), s) + h.Hits(op.e, s, h.nums)
  {
    hide Hashing.Slot, Hashing.DropSlot, Wrap, Hashing.Hits, Hashing.DropHits;
    match op
    case Insert(e) => TallyAppend(h, es, e, s);
    case Delete(e) => TallyWithout(h, es, e, s);
  }

  /** As long as every delete is narrow, each counter is the number of (present edge, hash) pairs mapped to it. */
  lemma {:induction false} CountersExact(h: Hashing, v: nat, ops: seq<Op>, s: nat)
    requires h.Ok() && Legal(v, ops) && NoOverflow(h, ops) && NarrowDeletes(h, ops) && s < h.size
    ensures Run(h, ops)[s] == Tally(h, Present(ops), s)
  {
    if ops != [] {
      var before, op := ops[..|ops| - 1], ops[|ops| - 1];
      assert ops[|ops| - 1] == op;
      assert NarrowDeletes(h, before);
      assert op.Delete? ==> h.Narrow(op.e);
      CountersExact(h, v, before, s);
      hide Tally, Applied, PresentAfter, Hashing.Narrow, Hashing.Hits, Hashing.DropHits;
      CounterStep(h, Run(h, before), Present(before), op, s);
      if op.Delete? {
        NarrowHits(h, op.e, s, h.nums);
      }
    }
  }

  lemma {:induction false} HitsPositive(h: Hashing, e: Edge, s: nat, n: nat)
    requires h.Ok() && n <= h.nums
    ensures h.Hits(e, s, n) > 0 <==> exists j :: 0 <= j < n && h.Slot(e, j) == s
  {
    hide Hashing.Slot;
    if n > 0 {
      HitsPositive(h, e, s, n - 1);
      if h.Slot(e, n - 1) == s {
        HitsOwnSlot(h, e, n - 1, n);
      }
    }
  }

  lemma {:induction false} TallyPositive(h: Hashing, es: seq<Edge>, s: nat)
    requires h.Ok()
    ensures Tally(h, es, s) > 0 <==> exists f, j :: f in es && 0 <= j < h.nums && h.Slot(f, j) == s
  {
    hide Hashing.Slot, Hashing.Hits;
    if es != [] {
      var front, last := es[..|es| - 1], es[|es| - 1];
      assert es == front + [last];
      TallyPositive(h, front, s);
      HitsPositive(h, last, s, h.nums);
      if j :| 0 <= j < h.nums && h.Slot(last, j) == s {
        assert last in es;
      }
    }
  }

  lemma SlotIs(h: Hashing, e: Edge, i: nat)
    requires h.Ok() && i < h.nums
    ensures h.Slot(e, i) == (e.lo * h.param1[i] + e.hi * h.param2[i]) % LONG % h.size
  {
  }

  /** One hash of `e` and one of `f` fall on the same slot. */
  ghost predicate Meet(h: Hashing, e: Edge, i: nat, f: Edge, j: nat)
    requires h.Ok() && i < h.nums && j < h.nums
  {
    (f.lo * h.param1[j] + f.hi * h.param2[j]) % LONG % h.size
      == (e.lo * h.param1[i] + e.hi * h.param2[i]) % LONG % h.size
  }

  /** The `i`-th hash of `e` meets no hash of a listed edge. */
  ghost predicate MeetsNone(h: Hashing, es: seq<Edge>, e: Edge, i: nat)
    requires h.Ok() && i < h.nums
  {
    forall f, j :: f in es && 0 <= j < h.nums ==> !Meet(h, e, i, f, j)
  }

  /** After a run an edge tests NonNeighbor exactly when one of its hashes meets no hash of a present edge. */
  lemma TestExact(h: Hashing, v: nat, ops: seq<Op>, e: Edge)
    requires h.Ok() && Legal(v, ops) && NoOverflow(h, ops) && NarrowDeletes(h, ops)
    ensures Excluded(h, Run(h, ops), e) <==> exists i :: 0 <= i < h.nums && MeetsNone(h, Present(ops), e, i)
  {
    hide Run, Legal, NoOverflow, NarrowDeletes, Hashing.Slot, MeetsNone;
    if Excluded(h, Run(h, ops), e) {
      var i :| 0 <= i < h.nums && Run(h, ops)[h.Slot(e, i)] == 0;
      CounterMeets(h, v, ops, e, i);
    }
    if i :| 0 <= i < h.nums && MeetsNone(h, Present(ops), e, i) {
      CounterMeets(h, v, ops, e, i);
      assert Run(h, ops)[h.Slot(e, i)] == 0;
    }
  }

  lemma CounterMeets(h: Hashing, v: nat, ops: seq<Op>, e: Edge, i: nat)
    requires h.Ok() && Legal(v, ops) && NoOverflow(h, ops) && NarrowDeletes(h, ops) && i < h.nums
    ensures Run(h, ops)[h.Slot(e, i)] == 0 <==> MeetsNone(h, Present(ops), e, i)
  {
    hide Run, Legal, NoOverflow, NarrowDeletes, Tally, Hashing.Slot, Meet;
    CountersExact(h, v, ops, h.Slot(e, i));
    TallyPositive(h, Present(ops), h.Slot(e, i));
    forall f, j | f in Present(ops) && 0 <= j < h.nums
      ensures Meet(h, e, i, f, j) <==> h.Slot(f, j) == h.Slot(e, i)
    {
      MeetIsSlot(h, e, i, f, j);
    }
  }

  lemma MeetIsSlot(h: Hashing, e: Edge, i: nat, f: Edge, j: nat)
    requires h.Ok() && i < h.nums && j < h.nums
    ensures Meet(h, e, i, f, j) <==> h.Slot(f, j) == h.Slot(e, i)
  {
    hide Hashing.Slot;
    SlotIs(h, e, i);
    SlotIs(h, f, j);
  }

  /** The hits on a slot of all edges the run deletes. */
  function Deleted(h: Hashing, ops: seq<Op>, slot: nat): nat
    requires h.Ok()
  {
    if ops == [] then 0
    else
      var op := ops[|ops| - 1];
      Deleted(h, ops[..|ops| - 1], slot) + if op.Delete? then h.Hits(op.e, slot, h.nums) else 0
  }

  /** Past 2^32 no delete arrives: the counter is too high by all that was deleted. */
  lemma {:induction false} WideCounter(h: Hashing, v: nat, ops: seq<Op>, s: nat)
    requires h.Ok() && Legal(v, ops) && NoOverflow(h, ops) && WORD <= s < h.size
    ensures Run(h, ops)[s] == Tally(h, Present(ops), s) + Deleted(h, ops, s)
  {
    if ops != [] {
      var before, op := ops[..|ops| - 1], ops[|ops| - 1];
      WideCounter(h, v, before, s);
      hide Tally, Applied, PresentAfter, Hashing.Hits, Hashing.DropHits;
      CounterStep(h, Run(h, before), Present(before), op, s);
      WideDropsNothing(h, op.e, s, h.nums);
    }
  }

  lemma {:induction false} DeletedCounts(h: Hashing, ops: seq<Op>, i: nat, slot: nat)
    requires h.Ok() && i < |ops| && ops[i].Delete?
    ensures Deleted(h, ops, slot) >= h.Hits(ops[i].e, slot, h.nums)
  {
    hide Hashing.Hits;
    if i < |ops| - 1 {
      DeletedCounts(h, ops[..|ops| - 1], i, slot);
    }
  }

  /** A wide delete leaves some counter wrong for good. */
  lemma WideDeleteShows(h: Hashing, v: nat, ops: seq<Op>, i: nat) returns (s: nat)
    requires h.Ok() && Legal(v, ops) && NoOverflow(h, ops) && i < |ops| && ops[i].Delete? && !h.Narrow(ops[i].e)
    ensures WORD <= s < h.size && Run(h, ops)[s] > Tally(h, Present(ops), s)
  {
    hide Hashing.Slot, Run, Tally, Deleted, Legal, NoOverflow;
    var e := ops[i].e;
    var j :| 0 <= j < h.nums && h.Slot(e, j) >= WORD;
    s := h.Slot(e, j);
    HitsOwnSlot(h, e, j, h.nums);
    DeletedCounts(h, ops, i, s);
    WideCounter(h, v, ops, s);
  }

  /** After a run all counters are exact if and only if no delete cut off a hash. */
  lemma CountersExactIff(h: Hashing, v: nat, ops: seq<Op>)
    requires h.Ok() && Legal(v, ops) && NoOverflow(h, ops)
    ensures (forall s :: 0 <= s < h.size ==> Run(h, ops)[s] == Tally(h, Present(ops), s)) <==> NarrowDeletes(h, ops)
  {
    hide Run, Tally, Legal, NoOverflow, Hashing.Narrow;
    if NarrowDeletes(h, ops) {
      forall s | 0 <= s < h.size ensures Run(h, ops)[s] == Tally(h, Present(ops), s) {
        CountersExact(h, v, ops, s);
      }
    } else {
      var i :| 0 <= i < |ops| && ops[i].Delete? && !h.Narrow(ops[i].e);
      var s := WideDeleteShows(h, v, ops, i);
    }
  }

  /** The run that inserts the listed edges. */
  function Inserts(es: seq<Edge>): (r: seq<Op>)
    ensures |r| == |es|
  {
    seq(|es|, i requires 0 <= i < |es| => Insert(es[i]))
  }

  lemma {:induction false} InsertsTally(h: Hashing, es: seq<Edge>, s: nat)
    requires h.Ok() && s < h.size && Tally(h, es, s) < WORD
    ensures Run(h, Inserts(es))[s] == Tally(h, es, s)
  {
    hide Hashing.Hits, Wrap;
    if es != [] {
      var front := es[..|es| - 1];
      InsertsTally(h, front, s);
      assert Inserts(es)[..|es| - 1] == Inserts(front);
    }
  }

  /** Counters are as if the edges left over had just been inserted, in any order, iff no delete cut off a hash. */
  lemma HistoryForgottenIff(h: Hashing, v: nat, ops: seq<Op>, es: seq<Edge>)
    requires h.Ok() && Legal(v, ops) && NoOverflow(h, ops) && multiset(es) == multiset(Present(ops))
    ensures Run(h, ops) == Run(h, Inserts(es)) <==> NarrowDeletes(h, ops)
  {
    hide Run, Tally, Legal, NoOverflow, Hashing.Narrow, Inserts;
    if NarrowDeletes(h, ops) {
      forall s | 0 <= s < h.size ensures Run(h, ops)[s] == Run(h, Inserts(es))[s] {
        CountersExact(h, v, ops, s);
        RunBounded(h, ops, s);
        TallyByCount(h, es, Present(ops), s);
        InsertsTally(h, es, s);
      }
    } else {
      var i :| 0 <= i < |ops| && ops[i].Delete? && !h.Narrow(ops[i].e);
      var s := WideDeleteShows(h, v, ops, i);
      RunBounded(h, ops, s);
      TallyByCount(h, es, Present(ops), s);
      InsertsTally(h, es, s);
    }
  }

  lemma {:induction false} RunBounded(h: Hashing, ops: seq<Op>, s: nat)
    requires h.Ok() && s < h.size
    ensures Run(h, ops)[s] < WORD
  {
    hide Hashing.Hits, Hashing.DropHits;
    if ops != [] {
      RunBounded(h, ops[..|ops| - 1], s);
    }
  }

  // ---- When present edges are safe ----------------------------------------------------------------------------

  /** A delete of `e` lowers the counter of `slot` no more often than its insert raised it. */
  ghost predicate Harmless(h: Hashing, e: Edge, slot: nat)
    requires h.Ok()
  {
    h.DropHits(e, slot, h.nums) <= h.Hits(e, slot, h.nums)
  }

  /** If deletes are harmless to a slot, its counter covers the present edges, wide deletes or not. */
  lemma {:induction false} CounterCovers(h: Hashing, v: nat, ops: seq<Op>, s: nat)
    requires h.Ok() && Legal(v, ops) && NoOverflow(h, ops) && s < h.size
    requires forall e :: IsEdge(e, v) ==> Harmless(h, e, s)
    ensures Run(h, ops)[s] >= Tally(h, Present(ops), s)
  {
    if ops != [] {
      var before, op := ops[..|ops| - 1], ops[|ops| - 1];
      CounterCovers(h, v, before, s);
      hide Tally, Applied, PresentAfter, Hashing.Hits, Hashing.DropHits;
      CounterStep(h, Run(h, before), Present(before), op, s);
      assert Harmless(h, op.e, s);
    }
  }

  lemma TallyCovers(h: Hashing, es: seq<Edge>, e: Edge, i: nat)
    requires h.Ok() && e in es && i < h.nums
    ensures Tally(h, es, h.Slot(e, i)) >= 1
  {
    hide Hashing.Slot;
    TallyWithout(h, es, e, h.Slot(e, i));
    HitsOwnSlot(h, e, i, h.nums);
  }

  /** No present edge ever tests NonNeighbor, over all runs on the graph's edges. */
  ghost predicate Sound(h: Hashing, v: nat)
    requires h.Ok()
  {
    forall ops, e :: Legal(v, ops) && NoOverflow(h, ops) && e in Present(ops) ==> !Excluded(h, Run(h, ops), e)
  }

  /** No delete of an edge strays onto a slot of any edge. */
  ghost predicate NoStray(h: Hashing, v: nat)
    requires h.Ok()
  {
    forall e, f, i :: IsEdge(e, v) && IsEdge(f, v) && 0 <= i < h.nums ==> Harmless(h, e, h.Slot(f, i))
  }

  lemma {:induction false} PresentAreEdges(v: nat, ops: seq<Op>, e: Edge)
    requires Legal(v, ops) && e in Present(ops)
    ensures IsEdge(e, v)
  {
    var before, op := ops[..|ops| - 1], ops[|ops| - 1];
    match op
    case Insert(f) =>
      if e != f {
        PresentAreEdges(v, before, e);
      }
    case Delete(f) =>
      WithoutMember(Present(before), f, e);
      PresentAreEdges(v, before, e);
  }

  lemma {:induction false} WithoutMember(es: seq<Edge>, e: Edge, x: Edge)
    requires x in Without(es, e)
    ensures x in es
  {
    var front, last := es[..|es| - 1], es[|es| - 1];
    if last != e && x != last {
      WithoutMember(front, e, x);
    }
  }

  lemma PresentNeverExcluded(h: Hashing, v: nat, ops: seq<Op>, e: Edge)
    requires h.Ok() && Legal(v, ops) && NoOverflow(h, ops) && NoStray(h, v) && e in Present(ops)
    ensures !Excluded(h, Run(h, ops), e)
  {
    hide Hashing.Slot, Run, Legal, NoOverflow, IsEdge, Harmless, Tally;
    PresentAreEdges(v, ops, e);
    forall i | 0 <= i < h.nums ensures Run(h, ops)[h.Slot(e, i)] > 0 {
      CounterCovers(h, v, ops, h.Slot(e, i));
      TallyCovers(h, Present(ops), e, i);
    }
  }

  /** Inserting `kept`, then inserting and deleting `gone` `n` times. */
  function Cycles(kept: Edge, gone: Edge, n: nat): seq<Op> {
    if n == 0 then [Insert(kept)] else Cycles(kept, gone, n - 1) + [Insert(gone)] + [Delete(gone)]
  }

  lemma LegalStep(h: Hashing, v: nat, ops: seq<Op>, op: Op)
    requires h.Ok() && Legal(v, ops) && NoOverflow(h, ops) && IsEdge(op.e, v)
    requires if op.Insert? then Adds(h, Run(h, ops), op.e) else op.e in Present(ops)
    ensures Legal(v, ops + [op]) && NoOverflow(h, ops + [op])
  {
    hide Adds, Run, Present, IsEdge;
    assert (ops + [op])[..|ops|] == ops;
  }

  lemma {:induction false} HitsBound(h: Hashing, e: Edge, slot: nat, n: nat)
    requires h.Ok() && n <= h.nums
    ensures h.Hits(e, slot, n) <= n
  {
    if n > 0 {
      HitsBound(h, e, slot, n - 1);
    }
  }

  /** Counters grow by at most the number of hashes in every turn. */
  ghost predicate Low(c: seq<nat>, bound: nat) {
    forall s :: 0 <= s < |c| ==> c[s] <= bound
  }

  lemma LowAdds(h: Hashing, c: seq<nat>, e: Edge, bound: nat)
    requires h.Ok() && |c| == h.size && h.nums <= 0x4000 && Low(c, bound) && bound + 0x4000 < WORD
    ensures Adds(h, c, e) && Low(Applied(h, c, Insert(e)), bound + 0x4000) && Low(Applied(h, c, Delete(e)), bound)
  {
    hide Hashing.Hits, Hashing.DropHits;
    forall s | 0 <= s < h.size ensures h.Hits(e, s, h.nums) <= 0x4000 {
      HitsBound(h, e, s, h.nums);
    }
  }

  /** The turns are legal, keep `kept` present and wear down every counter `gone` strays onto. */
  lemma {:induction false} CyclesWear(h: Hashing, v: nat, kept: Edge, gone: Edge, n: nat, s: nat)
    requires h.Ok() && h.nums <= 0x4000 && n <= 0x4000 && IsEdge(kept, v) && IsEdge(gone, v) && s < h.size
    requires !Harmless(h, gone, s)
    ensures var ops := Cycles(kept, gone, n);
      && Legal(v, ops) && NoOverflow(h, ops) && Present(ops) == [kept] && Low(Run(h, ops), 0x4000 * (n + 1))
      && Run(h, ops)[s] <= Monus(h.nums, n)
  {
    hide Hashing.Hits, Hashing.DropHits, Legal, NoOverflow, Adds, Low, Run, Present, IsEdge;
    HitsBound(h, kept, s, h.nums);
    if n == 0 {
      EmptyRun(h, v);
      StartRun(h, v, kept, s);
    } else {
      CyclesWear(h, v, kept, gone, n - 1, s);
      OneTurn(h, v, Cycles(kept, gone, n - 1), kept, gone, 0x4000 * n, s);
    }
  }

  lemma EmptyRun(h: Hashing, v: nat)
    requires h.Ok()
    ensures Legal(v, []) && NoOverflow(h, []) && Present([]) == [] && Low(Run(h, []), 0)
  {
  }

  lemma StartRun(h: Hashing, v: nat, kept: Edge, s: nat)
    requires h.Ok() && h.nums <= 0x4000 && IsEdge(kept, v) && s < h.size
    ensures Legal(v, [Insert(kept)]) && NoOverflow(h, [Insert(kept)]) && Present([Insert(kept)]) == [kept]
    ensures Low(Run(h, [Insert(kept)]), 0x4000) && Run(h, [Insert(kept)])[s] <= h.nums
  {
    hide Hashing.Hits, Hashing.DropHits, Legal, NoOverflow, Adds, Run, IsEdge;
    EmptyRun(h, v);
    assert [] + [Insert(kept)] == [Insert(kept)];
    LowAdds(h, Run(h, []), kept, 0);
    LegalStep(h, v, [], Insert(kept));
    RunStep(h, [], Insert(kept));
    CounterStep(h, Run(h, []), [], Insert(kept), s);
    HitsBound(h, kept, s, h.nums);
  }

  lemma OneTurn(h: Hashing, v: nat, ops: seq<Op>, kept: Edge, gone: Edge, bound: nat, s: nat)
    requires h.Ok() && h.nums <= 0x4000 && IsEdge(gone, v) && s < h.size && !Harmless(h, gone, s)
    requires Legal(v, ops) && NoOverflow(h, ops) && Present(ops) == [kept]
    requires Low(Run(h, ops), bound) && bound + 0x8000 < WORD
    ensures var more := ops + [Insert(gone)] + [Delete(gone)];
      && Legal(v, more) && NoOverflow(h, more) && Present(more) == [kept] && Low(Run(h, more), bound + 0x4000)
      && Run(h, more)[s] <= Monus(Run(h, ops)[s], 1)
  {
    hide Hashing.Hits, Hashing.DropHits, Legal, NoOverflow, Adds, Low, Run, IsEdge, Applied;
    var c, mid := Run(h, ops), ops + [Insert(gone)];
    LowAdds(h, c, gone, bound);
    LegalStep(h, v, ops, Insert(gone));
    RunStep(h, ops, Insert(gone));
    LowAdds(h, Run(h, mid), gone, bound + 0x4000);
    assert [kept, gone][..1] == [kept];
    assert Present(mid) == [kept, gone];
    LegalStep(h, v, mid, Delete(gone));
    RunStep(h, mid, Delete(gone));
    CounterStep(h, c, [kept], Insert(gone), s);
    CounterStep(h, Run(h, mid), [kept, gone], Delete(gone), s);
  }

  /** A stray delete, repeated, makes a present edge test NonNeighbor. */
  lemma StrayLoses(h: Hashing, v: nat, kept: Edge, gone: Edge, i: nat)
    requires h.Ok() && h.nums <= 0x4000 && IsEdge(kept, v) && IsEdge(gone, v)
    requires i < h.nums && !Harmless(h, gone, h.Slot(kept, i))
    ensures var ops := Cycles(kept, gone, h.nums);
      Legal(v, ops) && NoOverflow(h, ops) && kept in Present(ops) && Excluded(h, Run(h, ops), kept)
  {
    hide Hashing.Slot, Run, Legal, NoOverflow, Cycles, Low;
    CyclesWear(h, v, kept, gone, h.nums, h.Slot(kept, i));
  }

  /** Over all runs no present edge tests NonNeighbor if and only if no delete strays onto a slot of an edge. */
  lemma SoundIff(h: Hashing, v: nat)
    requires h.Ok() && h.nums <= 0x4000
    ensures Sound(h, v) <==> NoStray(h, v)
  {
    hide Hashing.Slot, Run, Legal, NoOverflow, Harmless, IsEdge, Cycles, Excluded;
    if NoStray(h, v) {
      forall ops, e | Legal(v, ops) && NoOverflow(h, ops) && e in Present(ops)
        ensures !Excluded(h, Run(h, ops), e)
      {
        PresentNeverExcluded(h, v, ops, e);
      }
    } else {
      var gone, kept, i :| IsEdge(gone, v) && IsEdge(kept, v) && 0 <= i < h.nums && !Harmless(h, gone, h.Slot(kept, i));
      StrayLoses(h, v, kept, gone, i);
    }
  }

  /** Up to 2^32 slots nothing strays. */
  lemma SmallFilterSound(h: Hashing, v: nat)
    requires h.Ok() && h.size <= WORD
    ensures NoStray(h, v)
  {
    hide Hashing.Slot, Hashing.DropSlot;
    forall e, f, i | IsEdge(e, v) && IsEdge(f, v) && 0 <= i < h.nums
      ensures Harmless(h, e, h.Slot(f, i))
    {
      NarrowHits(h, e, h.Slot(f, i), h.nums);
    }
  }

  lemma OneHash(h: Hashing, e: Edge, s: nat)
    requires h.Ok() && h.nums == 1
    ensures h.Hits(e, s, 1) == if h.Slot(e, 0) == s then 1 else 0
    ensures h.DropHits(e, s, 1) == if h.DropSlot(e, 0) == s then 1 else 0
  {
    hide Hashing.Slot, Hashing.DropSlot;
    assert h.Hits(e, s, 0) == 0 && h.DropHits(e, s, 0) == 0;
  }

  /** The filter of 988490691 vertices with five words each and one hash function, the first of the source's table. */
  const LARGE: Hashing := Hashing(1, 988490691 * 5, [9191891], [1282517])

  /** In it a delete lowers a counter that only another edge uses, and that edge is lost. */
  lemma LargeFilterUnsound(kept: Edge, gone: Edge)
    requires kept == Edge(759390418, 910912423) && gone == Edge(28618715, 560681795)
    ensures Legal(988490691, Cycles(kept, gone, 1)) && NoOverflow(LARGE, Cycles(kept, gone, 1))
    ensures kept in Present(Cycles(kept, gone, 1)) && Excluded(LARGE, Run(LARGE, Cycles(kept, gone, 1)), kept)
    ensures !Sound(LARGE, 988490691)
  {
    assert LARGE.Slot(kept, 0) == 109240459 && LARGE.Slot(gone, 0) == WORD + 109240459;
    assert LARGE.DropSlot(gone, 0) == 109240459;
    hide Hashing.Slot, Hashing.DropSlot, Run, Legal, NoOverflow, Cycles;
    OneHash(LARGE, gone, 109240459);
    StrayLoses(LARGE, 988490691, kept, gone, 0);
  }
}
