/** Occupancy counts of the hash part, kept incrementally while a window slides over the neighbour list. */
module HashCounting {
  import opened BitSet
  import opened Config

  datatype BlockType = FullHash | LeftMost | RightMost | Middle

  function Slot(key: nat, hashSize: nat): (r: nat)
    ensures hashSize > 0 ==> r < hashSize
  {
    if hashSize == 0 then 0 else key % hashSize
  }

  /** How many of `keys` fall into `slot`. */
  function Occ(keys: seq<nat>, hashSize: nat, slot: nat): nat {
    if keys == [] then 0
    else Occ(keys[..|keys| - 1], hashSize, slot) + (if Slot(keys[|keys| - 1], hashSize) == slot then 1 else 0)
  }

  function Table(keys: seq<nat>, hashSize: nat, n: nat): (t: seq<nat>)
    ensures |t| == n
  {
    seq(n, slot requires 0 <= slot < n => Occ(keys, hashSize, slot))
  }

  function NonZero(a: seq<nat>): (n: nat)
    ensures n <= |a|
  {
    if a == [] then 0 else NonZero(a[..|a| - 1]) + (if a[|a| - 1] == 0 then 0 else 1)
  }

  lemma {:induction false} OccAppend(a: seq<nat>, b: seq<nat>, hashSize: nat, slot: nat)
    ensures Occ(a + b, hashSize, slot) == Occ(a, hashSize, slot) + Occ(b, hashSize, slot)
  {
    if b == [] {
      assert a + b == a;
    } else {
      OccAppend(a, b[..|b| - 1], hashSize, slot);
      assert (a + b)[..|a + b| - 1] == a + b[..|b| - 1];
    }
  }

  lemma {:induction false} OccPositive(keys: seq<nat>, hashSize: nat, slot: nat)
    ensures Occ(keys, hashSize, slot) > 0 <==> exists i :: 0 <= i < |keys| && Slot(keys[i], hashSize) == slot
  {
    if keys != [] {
      var front := keys[..|keys| - 1];
      OccPositive(front, hashSize, slot);
      if i :| 0 <= i < |keys| && Slot(keys[i], hashSize) == slot {
        assert i < |front| ==> front[i] == keys[i];
      }
      if i :| 0 <= i < |front| && Slot(front[i], hashSize) == slot {
        assert keys[i] == front[i];
      }
    }
  }

  /** Some key leaves the remainder `r`. */
  ghost predicate Taken(keys: seq<nat>, h: nat, r: nat)
    requires h > 0
  {
    exists i :: 0 <= i < |keys| && keys[i] % h == r
  }

  lemma OccResidue(keys: seq<nat>, hashSize: nat, slot: nat)
    requires hashSize > 0
    ensures Occ(keys, hashSize, slot) > 0 <==> Taken(keys, hashSize, slot)
  {
    hide Occ;
    OccPositive(keys, hashSize, slot);
    assert forall i :: 0 <= i < |keys| ==> Slot(keys[i], hashSize) == keys[i] % hashSize;
  }

  lemma TableAdd(keys: seq<nat>, key: nat, hashSize: nat, n: nat)
    requires Slot(key, hashSize) < n
    ensures Table(keys + [key], hashSize, n)
            == Table(keys, hashSize, n)[Slot(key, hashSize) := Occ(keys, hashSize, Slot(key, hashSize)) + 1]
  {
    assert (keys + [key])[..|keys|] == keys;
  }

  lemma {:induction false} NonZeroUpdate(a: seq<nat>, i: nat, x: nat)
    requires i < |a|
    ensures NonZero(a[i := x]) == NonZero(a) - (if a[i] == 0 then 0 else 1) + (if x == 0 then 0 else 1)
  {
    var front := a[..|a| - 1];
    if i == |a| - 1 {
      assert a[i := x][..|a| - 1] == front;
    } else {
      NonZeroUpdate(front, i, x);
      assert a[i := x][..|a| - 1] == front[i := x];
    }
  }

  lemma {:induction false} NonZeroPrefix(a: seq<nat>, k: nat)
    requires k <= |a| && forall i :: k <= i < |a| ==> a[i] == 0
    ensures NonZero(a) == NonZero(a[..k])
    decreases |a|
  {
    if k == |a| {
      assert a[..k] == a;
    } else {
      NonZeroPrefix(a[..|a| - 1], k);
      assert a[..|a| - 1][..k] == a[..k];
    }
  }

  /** The neighbours left over by the window of `size` entries from `first` on. */
  function Outside(neighbors: seq<nat>, first: nat, size: nat): seq<nat>
    requires first + size <= |neighbors|
  {
    neighbors[..first] + neighbors[first + size..]
  }

  lemma OutsideSlides(neighbors: seq<nat>, first: nat, size: nat, hashSize: nat, slot: nat)
    requires first + size < |neighbors|
    ensures Occ(Outside(neighbors, first + 1, size), hashSize, slot) + Occ([neighbors[first + size]], hashSize, slot)
            == Occ(Outside(neighbors, first, size), hashSize, slot) + Occ([neighbors[first]], hashSize, slot)
  {
    hide Occ, Slot;
    var l, r := neighbors[..first], neighbors[first + size + 1..];
    assert neighbors[..first + 1] == l + [neighbors[first]];
    assert neighbors[first + size..] == [neighbors[first + size]] + r;
    OccAppend(l, [neighbors[first]], hashSize, slot);
    OccAppend(l + [neighbors[first]], r, hashSize, slot);
    OccAppend([neighbors[first + size]], r, hashSize, slot);
    OccAppend(l, neighbors[first + size..], hashSize, slot);
  }

  /** The key entering the window is counted outside it before the slide. */
  lemma OutsideHas(neighbors: seq<nat>, first: nat, size: nat, hashSize: nat)
    requires first + size < |neighbors|
    ensures Occ(Outside(neighbors, first, size), hashSize, Slot(neighbors[first + size], hashSize)) > 0
  {
    OccPositive(Outside(neighbors, first, size), hashSize, Slot(neighbors[first + size], hashSize));
    assert Outside(neighbors, first, size)[first] == neighbors[first + size];
  }

  lemma {:induction false} NonZeroBound(a: seq<nat>, k: nat)
    requires forall i :: k <= i < |a| ==> a[i] == 0
    ensures NonZero(a) <= k
  {
    if k <= |a| {
      NonZeroPrefix(a, k);
    }
  }

  lemma OutsideShrinksAt(neighbors: seq<nat>, first: nat, size: nat, hashSize: nat, slot: nat)
    requires first + size < |neighbors|
    ensures Occ(Outside(neighbors, first, size), hashSize, slot)
            == Occ(Outside(neighbors, first, size + 1), hashSize, slot)
               + (if Slot(neighbors[first + size], hashSize) == slot then 1 else 0)
  {
    var l, x, r := neighbors[..first], [neighbors[first + size]], neighbors[first + size + 1..];
    assert neighbors[first + size..] == x + r;
    OccAppend(l, x + r, hashSize, slot);
    OccAppend(x, r, hashSize, slot);
    OccAppend(l, r, hashSize, slot);
    assert x[..0] == [];
  }

  /** Widening the window by one entry takes that entry out of the outside count. */
  lemma OutsideShrinks(neighbors: seq<nat>, first: nat, size: nat, hashSize: nat, n: nat)
    requires first + size < |neighbors| && Slot(neighbors[first + size], hashSize) < n
    ensures var s := Slot(neighbors[first + size], hashSize);
      && Occ(Outside(neighbors, first, size), hashSize, s) > 0
      && Table(Outside(neighbors, first, size + 1), hashSize, n)
         == Table(Outside(neighbors, first, size), hashSize, n)
              [s := Occ(Outside(neighbors, first, size), hashSize, s) - 1]
  {
    hide Occ, Slot, Outside;
    forall slot | 0 <= slot < n {
      OutsideShrinksAt(neighbors, first, size, hashSize, slot);
    }
  }

  /** Ids decided by the empty slots when `x` ids are spread over `h` slots. */
  function HashPart(x: nat, h: nat, used: nat): (r: nat)
    requires h > 0 ==> used <= h
    ensures r <= x
  {
    if h == 0 then 0 else
      ScoreFits(x, h, used);
      x / h * (h - used)
  }

  lemma ScoreFits(x: nat, h: nat, used: nat)
    requires h >= 1 && used <= h
    ensures 0 <= x / h * (h - used) <= x
  {
    DivBound(x, h);
    assert x / h * (h - used) + x / h * used == x / h * h;
  }

  /** Score of a window: the ids its value range decides, plus those its empty hash slots decide. */
  function Score(v: nat, neighbors: seq<nat>, first: nat, size: nat, kind: BlockType, hashSize: nat,
                 used: nat): (r: nat)
    requires kind == FullHash || 1 <= size
    requires first + size <= |neighbors| && (hashSize > 0 ==> used <= hashSize)
    requires Bounded(neighbors, v)
    ensures r <= v + 1
  {
    if kind == FullHash then HashPart(v, hashSize, used)
    else
      var lo := if kind == LeftMost then 0 else neighbors[first];
      var hi := if kind == RightMost then v else neighbors[first + size - 1];
      hi - lo + 1 + HashPart(v - (hi - lo), hashSize, used)
  }

  /** A neighbour list in increasing order with ids `1..v`. */
  ghost predicate Bounded(neighbors: seq<nat>, v: nat) {
    && (forall i :: 0 <= i < |neighbors| ==> 1 <= neighbors[i] <= v)
    && (forall i, j :: 0 <= i < j < |neighbors| ==> neighbors[i] < neighbors[j])
  }

  // ---- What a score counts ------------------------------------------------------------------------------------

  /** The ids below `n` whose slot in the table is empty. */
  ghost function FreeIds(t: seq<nat>, n: nat): set<nat>
    requires |t| > 0
  {
    set y: nat | y < n && t[y % |t|] == 0
  }

  /** A value in the range of a window; nothing bounds a leftmost one below or a rightmost one above. */
  predicate Covers(neighbors: seq<nat>, first: nat, size: nat, kind: BlockType, y: nat)
    requires 1 <= size && first + size <= |neighbors|
  {
    (kind == LeftMost || neighbors[first] <= y) && (kind == RightMost || y <= neighbors[first + size - 1])
  }

  /** The ids, 0 included, in the value range of a window. */
  ghost function RangeIds(v: nat, neighbors: seq<nat>, first: nat, size: nat, kind: BlockType): set<nat>
    requires 1 <= size && first + size <= |neighbors|
  {
    set y: nat | y <= v && Covers(neighbors, first, size, kind, y)
  }

  lemma {:induction false} IntervalSize(lo: nat, hi: nat, s: set<nat>)
    requires lo <= hi && forall y: nat :: y in s <==> lo <= y <= hi
    ensures |s| == hi - lo + 1
  {
    if lo == hi {
      assert s == {lo};
    } else {
      IntervalSize(lo, hi - 1, s - {hi});
    }
  }

  /** How many ids the value range covers. */
  lemma RangeSize(v: nat, neighbors: seq<nat>, first: nat, size: nat, kind: BlockType)
    requires 1 <= size && first + size <= |neighbors| && Bounded(neighbors, v)
    ensures var lo := if kind == LeftMost then 0 else neighbors[first];
      var hi := if kind == RightMost then v else neighbors[first + size - 1];
      lo <= hi <= v && |RangeIds(v, neighbors, first, size, kind)| == hi - lo + 1 <= v + 1
  {
    var lo := if kind == LeftMost then 0 else neighbors[first];
    var hi := if kind == RightMost then v else neighbors[first + size - 1];
    assert neighbors[first] <= neighbors[first + size - 1];
    IntervalSize(lo, hi, RangeIds(v, neighbors, first, size, kind));
  }

  lemma RemainderIs(n: nat, h: nat, q: nat, r: nat)
    requires n == q * h + r && r < h
    ensures n % h == r
  {
    var d := n / h - q;
    assert n == n / h * h + n % h;
    assert d * h == r - n % h;
    if d > 0 {
      MulAtLeast(h, d);
    } else if d < 0 {
      MulAtLeast(h, -d);
      assert (-d) * h == n % h - r;
    }
  }

  lemma FreeIdsNext(t: seq<nat>, n: nat, slot: nat)
    requires slot < |t| && n % |t| == slot
    ensures |FreeIds(t, n + 1)| == |FreeIds(t, n)| + if t[slot] == 0 then 1 else 0
  {
    if t[slot] == 0 {
      assert FreeIds(t, n + 1) == FreeIds(t, n) + {n};
    } else {
      assert FreeIds(t, n + 1) == FreeIds(t, n);
    }
  }

  /** After `q` turns through the table and `j` slots more. */
  lemma {:induction false} FreeIdsCount(t: seq<nat>, q: nat, j: nat)
    requires |t| > 0 && j <= |t|
    ensures |FreeIds(t, Span(q, |t|) + j)| == Span(q, |t| - NonZero(t)) + j - NonZero(t[..j])
    decreases q, j
  {
    hide *;
    var h := |t|;
    if j > 0 {
      FreeIdsCount(t, q, j - 1);
      SlotAfterTurns(q, h, j - 1);
      FreeIdsNext(t, Span(q, h) + j - 1, j - 1);
      NonZeroNext(t, j - 1);
    } else {
      NonZeroNone(t);
      SpanTurn(q, h);
      SpanTurn(q, h - NonZero(t));
      if q > 0 {
        FreeIdsCount(t, q - 1, h);
        assert t[..h] == t;
      } else {
        NoFreeIds(t);
      }
    }
  }

  lemma SlotAfterTurns(q: nat, h: nat, j: nat)
    requires j < h
    ensures (Span(q, h) + j) % h == j
  {
    SpanIsProduct(q, h);
    RemainderIs(Span(q, h) + j, h, q, j);
  }

  lemma NonZeroNext(t: seq<nat>, j: nat)
    requires j < |t|
    ensures NonZero(t[..j + 1]) == NonZero(t[..j]) + if t[j] == 0 then 0 else 1
  {
    assert t[..j + 1][..j] == t[..j];
  }

  lemma NonZeroNone(t: seq<nat>)
    ensures NonZero(t[..0]) == 0
  {
  }

  lemma SpanTurn(q: nat, h: nat)
    ensures Span(q, h) == if q == 0 then 0 else Span(q - 1, h) + h
  {
  }

  lemma NoFreeIds(t: seq<nat>)
    requires |t| > 0
    ensures |FreeIds(t, 0)| == 0
  {
    assert FreeIds(t, 0) == {};
  }

  /** The hash part counts the ids of the whole turns through the table whose slot is empty. */
  lemma HashPartCounts(x: nat, t: seq<nat>)
    requires |t| > 0
    ensures HashPart(x, |t|, NonZero(t)) == |FreeIds(t, x / |t| * |t|)|
  {
    var h, q := |t|, x / |t|;
    SpanIsProduct(q, h);
    SpanIsProduct(q, h - NonZero(t));
    FreeIdsCount(t, q, 0);
    NonZeroNone(t);
  }

  /**
   * The ids a window decides, by its value range or by an empty slot of the table `t`: all ids in the range, and of
   * the ids
   * left over, taken as 0, 1, .. and as far as they make whole turns through the table, those with an empty slot.
   */
  ghost function Decided(v: nat, neighbors: seq<nat>, first: nat, size: nat, kind: BlockType, t: seq<nat>): nat
    requires first + size <= |neighbors| && Bounded(neighbors, v) && (kind != FullHash ==> size >= 1)
  {
    var range := if kind == FullHash then {} else RangeIds(v, neighbors, first, size, kind);
    if kind != FullHash then RangeSize(v, neighbors, first, size, kind);
      |range| + DecidedByHash(t, v + 1 - |range|)
    else DecidedByHash(t, v)
  }

  ghost function DecidedByHash(t: seq<nat>, left: nat): nat {
    if t == [] then 0 else |FreeIds(t, left / |t| * |t|)|
  }

  /** A score is the number of ids the window decides. */
  lemma ScoreCounts(v: nat, neighbors: seq<nat>, first: nat, size: nat, kind: BlockType, t: seq<nat>, used: nat)
    requires first + size <= |neighbors| && Bounded(neighbors, v) && (kind != FullHash ==> size >= 1)
    requires |t| > 0 ==> used == NonZero(t)
    ensures Score(v, neighbors, first, size, kind, |t|, used) == Decided(v, neighbors, first, size, kind, t)
  {
    hide HashPart, NonZero, RangeIds, FreeIds;
    if kind == FullHash {
      HashCounts(v, t, used);
    } else {
      RangeSize(v, neighbors, first, size, kind);
      HashCounts(v + 1 - |RangeIds(v, neighbors, first, size, kind)|, t, used);
    }
  }

  lemma HashCounts(x: nat, t: seq<nat>, used: nat)
    requires |t| > 0 ==> used == NonZero(t)
    ensures HashPart(x, |t|, used) == DecidedByHash(t, x)
  {
    if |t| > 0 {
      HashPartCounts(x, t);
    }
  }

  class HashCount {
    const lay: Layout
    const hash_array: array<nat>
    var hash_size: nat
    var hash_count: nat

    /** The count is the number of occupied slots, all of them below the hash size. */
    ghost predicate Valid()
      reads this, hash_array
    {
      && 1 <= hash_array.Length && hash_size <= hash_array.Length
      && hash_count == NonZero(hash_array[..])
      && forall i :: 0 <= i < hash_array.Length && hash_size <= i && 0 < i ==> hash_array[i] == 0
    }

    constructor (lay: Layout)
      requires lay.k >= 1
      ensures Valid() && this.lay == lay && fresh(hash_array) && hash_array.Length == lay.PerBits()
    {
      this.lay := lay;
      hash_array := new nat[lay.PerBits()](_ => 0);
      hash_size := 0;
      hash_count := 0;
      new;
      NonZeroBound(hash_array[..], 0);
    }

    /** A table of exactly `block_size` slots, for counting a whole list. */
    constructor OfSize(lay: Layout, block_size: nat)
      requires block_size >= 1
      ensures Valid() && this.lay == lay && fresh(hash_array) && hash_size == hash_array.Length == block_size
      ensures hash_array[..] == Table([], block_size, block_size)
    {
      this.lay := lay;
      hash_array := new nat[block_size](_ => 0);
      hash_size := block_size;
      hash_count := 0;
      new;
      NonZeroBound(hash_array[..], 0);
    }

    lemma CountBound()
      requires Valid() && hash_size > 0
      ensures hash_count <= hash_size
    {
      NonZeroBound(hash_array[..], hash_size);
    }

    method AddHash(key: nat)
      requires Valid()
      modifies this`hash_count, hash_array
      ensures Valid()
      ensures var s := Slot(key, hash_size); hash_array[..] == old(hash_array[..])[s := old(hash_array[s]) + 1]
    {
      ghost var was := hash_array[..];
      var s := Slot(key, hash_size);
      if hash_array[s] == 0 {
        hash_count := hash_count + 1;
      }
      NonZeroUpdate(was, s, was[s] + 1);
      hash_array[s] := hash_array[s] + 1;
      assert hash_array[..] == was[s := was[s] + 1];
    }

    method RemoveHash(key: nat)
      requires Valid()
      modifies this`hash_count, hash_array
      ensures Valid()
      ensures var s := Slot(key, hash_size);
        hash_array[..]
        == if old(hash_array[s]) == 0 then old(hash_array[..]) else old(hash_array[..])[s := old(hash_array[s]) - 1]
    {
      ghost var was := hash_array[..];
      var s := Slot(key, hash_size);
      if hash_array[s] > 0 {
        NonZeroUpdate(was, s, was[s] - 1);
        hash_array[s] := hash_array[s] - 1;
        assert hash_array[..] == was[s := was[s] - 1];
        if hash_array[s] == 0 {
          hash_count := hash_count - 1;
        }
      }
    }

    method Reset(newSize: nat)
      requires Valid() && newSize <= hash_array.Length
      modifies this, hash_array
      ensures Valid() && hash_size == newSize
      ensures hash_array[..] == Table([], hash_size, hash_array.Length)
    {
      for i := 0 to hash_array.Length
        invariant forall j :: 0 <= j < i ==> hash_array[j] == 0
      {
        hash_array[i] := 0;
      }
      hash_count := 0;
      hash_size := newSize;
      NonZeroBound(hash_array[..], 0);
    }

    method CountRange(neighbors: seq<nat>, start: nat, end: nat)
      requires Valid() && start <= end <= |neighbors|
      requires hash_array[..] == Table([], hash_size, hash_array.Length)
      modifies this`hash_count, hash_array
      ensures Valid() && hash_array[..] == Table(neighbors[start..end], hash_size, hash_array.Length)
    {
      hide Table, Slot, NonZero;
      assert neighbors[start..start] == [];
      for i := start to end
        invariant Valid()
        invariant hash_array[..] == Table(neighbors[start..i], hash_size, hash_array.Length)
      {
        AddOne(neighbors[start..i], neighbors[i]);
        assert neighbors[start..i] + [neighbors[i]] == neighbors[start..i + 1];
      }
    }

    method AddOne(ghost keys: seq<nat>, key: nat)
      requires Valid() && hash_array[..] == Table(keys, hash_size, hash_array.Length)
      modifies this`hash_count, hash_array
      ensures Valid() && hash_array[..] == Table(keys + [key], hash_size, hash_array.Length)
    {
      TableAdd(keys, key, hash_size, hash_array.Length);
      AddHash(key);
    }

    /** Recounts from scratch: entries behind the first window, or those before the last one less its left neighbour. */
    method ReConstruct(neighbors: seq<nat>, block_size: nat, reverse: bool)
      requires Valid() && lay.HashBegin(block_size) <= lay.PerBits() == hash_array.Length
      requires block_size + (if reverse then 1 else 0) <= |neighbors|
      modifies this, hash_array
      ensures Valid() && hash_size == lay.PerBits() - lay.HashBegin(block_size)
      ensures hash_array[..] == Table(
        if reverse then neighbors[..|neighbors| - block_size - 1] else neighbors[block_size..],
        hash_size, hash_array.Length)
    {
      hide Table, Slot, NonZero;
      SpanIsProduct(block_size, lay.vb);
      Reset(lay.PerBits() - lay.BlockBegin() - block_size * lay.vb);
      if reverse {
        CountRange(neighbors, 0, |neighbors| - block_size - 1);
        assert neighbors[0..|neighbors| - block_size - 1] == neighbors[..|neighbors| - block_size - 1];
      } else {
        CountRange(neighbors, block_size, |neighbors|);
        assert neighbors[block_size..|neighbors|] == neighbors[block_size..];
      }
    }

    /** One slide of the window turns the recount of what is outside it into that of the next position. */
    method Slide(neighbors: seq<nat>, first: nat, block_size: nat)
      requires Valid() && first + block_size < |neighbors|
      requires hash_array[..] == Table(Outside(neighbors, first, block_size), hash_size, hash_array.Length)
      modifies this`hash_count, hash_array
      ensures Valid()
      ensures hash_array[..] == Table(Outside(neighbors, first + 1, block_size), hash_size, hash_array.Length)
    {
      ghost var a, b, h := neighbors[first], neighbors[first + block_size], hash_size;
      AddHash(neighbors[first]);
      RemoveHash(neighbors[first + block_size]);
      forall slot | 0 <= slot < hash_array.Length
        ensures hash_array[slot] == Occ(Outside(neighbors, first + 1, block_size), h, slot)
      {
        OutsideSlides(neighbors, first, block_size, h, slot);
        OutsideHas(neighbors, first, block_size, h);
      }
    }

    method GetScore(neighbors: seq<nat>, block_size: nat, first_idx: nat, kind: BlockType) returns (r: nat)
      requires Valid() && first_idx + block_size <= |neighbors|
      requires if kind == FullHash then hash_size > 0 else block_size >= 1
      requires Bounded(neighbors, lay.v)
      ensures hash_size > 0 ==> hash_count <= hash_size
      ensures r == Score(lay.v, neighbors, first_idx, block_size, kind, hash_size, hash_count)
      ensures r == Decided(lay.v, neighbors, first_idx, block_size, kind, hash_array[..hash_size])
    {
      hide NonZero, HashPart, Decided;
      if hash_size > 0 {
        CountBound();
        NonZeroPrefix(hash_array[..], hash_size);
        assert hash_array[..][..hash_size] == hash_array[..hash_size];
      }
      ScoreCounts(lay.v, neighbors, first_idx, block_size, kind, hash_array[..hash_size], hash_count);
      var first, last := 0, 0;
      match kind {
        case FullHash =>
          return HashPart(lay.v, hash_size, hash_count);
        case LeftMost =>
          last := neighbors[first_idx + block_size - 1];
        case RightMost =>
          first := neighbors[first_idx];
          last := lay.v;
        case Middle =>
          first := neighbors[first_idx];
          last := neighbors[first_idx + block_size - 1];
      }
      r := last - first + 1;
      r := r + HashPart(lay.v - last + first, hash_size, hash_count);
    }

    /** Counts a whole list into an empty table. */
    method Construct(neighbors: seq<nat>)
      requires Valid() && hash_array[..] == Table([], hash_size, hash_array.Length)
      modifies this`hash_count, hash_array
      ensures Valid() && hash_array[..] == Table(neighbors, hash_size, hash_array.Length)
    {
      CountRange(neighbors, 0, |neighbors|);
      assert neighbors[0..|neighbors|] == neighbors;
    }

    /** Takes the window's entries out of a copy of the table and counts the slots still occupied. */
    method CountOutside(neighbors: seq<nat>, first_idx: nat, block_size: nat) returns (used: nat)
      requires Valid() && 1 <= hash_size == hash_array.Length
        && hash_array[..] == Table(neighbors, hash_size, hash_size)
      requires first_idx + block_size <= |neighbors|
      ensures used == NonZero(Table(Outside(neighbors, first_idx, block_size), hash_size, hash_size))
    {
      hide NonZero, Slot, Occ;
      var copy := hash_array[..];
      assert Outside(neighbors, first_idx, 0) == neighbors;
      var zeros := hash_size - hash_count;
      for i := 0 to block_size
        invariant copy == Table(Outside(neighbors, first_idx, i), hash_size, hash_size)
        invariant zeros == hash_size - NonZero(copy)
      {
        OutsideShrinks(neighbors, first_idx, i, hash_size, hash_size);
        var val := Slot(neighbors[first_idx + i], hash_size);
        NonZeroUpdate(copy, val, copy[val] - 1);
        if copy[val] == 1 {
          zeros := zeros + 1;
        }
        copy := copy[val := copy[val] - 1];
      }
      used := hash_size - zeros;
    }

    /** The score of a window from the table of the whole list: what a recount of the outside would give. */
    method GetVal(neighbors: seq<nat>, first_idx: nat, block_size: nat, kind: BlockType) returns (r: nat)
      requires Valid() && 1 <= hash_size == hash_array.Length
        && hash_array[..] == Table(neighbors, hash_size, hash_size)
      requires first_idx + block_size <= |neighbors| && Bounded(neighbors, lay.v)
      requires kind != FullHash ==> block_size >= 1
      ensures var t := Table(Outside(neighbors, first_idx, block_size), hash_size, hash_size);
        && r == Score(lay.v, neighbors, first_idx, block_size, kind, hash_size, NonZero(t))
        && r == Decided(lay.v, neighbors, first_idx, block_size, kind, t)
    {
      var used := CountOutside(neighbors, first_idx, block_size);
      hide NonZero, Table, HashPart, Decided;
      ghost var t := Table(Outside(neighbors, first_idx, block_size), hash_size, hash_size);
      ScoreCounts(lay.v, neighbors, first_idx, block_size, kind, t, used);
      var first, last := 0, 0;
      match kind {
        case FullHash =>
          return HashPart(lay.v, hash_size, used);
        case LeftMost =>
          last := neighbors[first_idx + block_size - 1];
        case RightMost =>
          first := neighbors[first_idx];
          last := lay.v;
        case Middle =>
          first := neighbors[first_idx];
          last := neighbors[first_idx + block_size - 1];
      }
      r := last - first + 1;
      r := r + HashPart(lay.v - last + first, hash_size, used);
    }
  }
}
