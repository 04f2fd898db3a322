/** Building all hybrid codes: peel, encode each retired vertex, then encode what is left. */
module HybridBuild {
  import opened Common
  import opened Bits
  import opened BitSet
  import opened Config
  import opened HashCounting
  import opened HybridCode
  import opened HybridQuery
  import opened HybridEncoder
  import opened Peeling
  import opened BucketPeel

  /** The list vertex `x` was encoded with: its neighbours still there when it was retired, or when peeling ended. */
  ghost function EncodedList(adj: seq<seq<nat>>, order: seq<nat>, retired: nat, pos: nat): seq<nat>
    requires retired <= |order| && pos < |order| && order[pos] < |adj|
  {
    Remaining(adj[order[pos]], Members(order[..if pos < retired then pos else retired]))
  }

  /** All codes hold the lists of a peeling order; the retired vertices have short lists. */
  ghost predicate Built(lay: Layout, adj: seq<seq<nat>>, codes: seq<seq<bool>>, order: seq<nat>, retired: nat) {
    && lay.Ok() && IsGraph(adj, lay.v)
    && |codes| == lay.v + 1 == |order| && IsPermutation(order) && retired <= |order|
    && PeelOrder(adj, order[..retired], lay.maxInt)
    && (forall i :: 0 <= i < |order| ==>
      order[i] <= lay.v && Encodes(lay, codes[order[i]], EncodedList(adj, order, retired, i)))
  }

  lemma EncodedListFacts(lay: Layout, adj: seq<seq<nat>>, order: seq<nat>, retired: nat, i: nat)
    requires lay.Ok() && IsGraph(adj, lay.v) && |order| == lay.v + 1 && retired <= |order| && i < |order|
    requires IsPermutation(order) && PeelOrder(adj, order[..retired], lay.maxInt)
    ensures order[i] <= lay.v && Bounded(EncodedList(adj, order, retired, i), lay.v)
    ensures i < retired ==> |EncodedList(adj, order, retired, i)| <= lay.maxCore
  {
    var pos: seq<nat> :| Inverse(order, pos);
    assert Bounded(adj[order[i]], lay.v);
    RemainingBounded(adj[order[i]], Members(order[..if i < retired then i else retired]), lay.v);
    if i < retired {
      assert order[..retired][..i] == order[..i] && order[..retired][i] == order[i];
    }
  }

  /** Whether a neighbour is on the list: exactly when it had not been retired before. */
  lemma ListHas(adj: seq<seq<nat>>, order: seq<nat>, pos: seq<nat>, retired: nat, i: nat, j: nat)
    requires Inverse(order, pos) && retired <= |order| && i < |order| && j < |order| && order[i] < |adj|
    ensures order[j] in EncodedList(adj, order, retired, i)
      <==> order[j] in adj[order[i]] && j >= if i < retired then i else retired
  {
    var n := if i < retired then i else retired;
    RemainingMembers(adj[order[i]], Members(order[..n]));
    PrefixMember(order, pos, n, order[j]);
  }

  /** After a build no query contradicts the graph, and a retired endpoint makes the answer certain. */
  lemma BuiltSound(lay: Layout, simd: bool, adj: seq<seq<nat>>, codes: seq<seq<bool>>, order: seq<nat>, retired: nat,
                   x: nat, y: nat)
    requires Built(lay, adj, codes, order, retired) && 1 <= x <= lay.v && 1 <= y <= lay.v && x != y
    ensures Readable(lay, codes[x]) && Readable(lay, codes[y])
    ensures Correct(PairAnswer(lay, simd, codes[x], codes[y], x, y), y in adj[x])
    ensures x in order[..retired] || y in order[..retired]
      ==> PairAnswer(lay, simd, codes[x], codes[y], x, y) != Uncertain
    ensures PairAnswer(lay, simd, codes[x], codes[y], x, y) == Uncertain
      <==> OneSided(lay, simd, codes[x], y) == Uncertain && OneSided(lay, simd, codes[y], x) == Uncertain
  {
    var pos: seq<nat> :| Inverse(order, pos);
    var i, j := pos[x], pos[y];
    EncodedListFacts(lay, adj, order, retired, i);
    EncodedListFacts(lay, adj, order, retired, j);
    ListHas(adj, order, pos, retired, i, j);
    ListHas(adj, order, pos, retired, j, i);
    assert y in adj[x] <==> x in adj[y];
    PrefixMember(order, pos, retired, x);
    PrefixMember(order, pos, retired, y);
    hide Encodes, IsGraph, OneSided, Readable, PeelOrder, EncodedList, Pow2, Span;
    EncodesSound(lay, simd, codes[x], EncodedList(adj, order, retired, i), y);
    EncodesSound(lay, simd, codes[y], EncodedList(adj, order, retired, j), x);
    UncertainIff(lay, simd, codes[x], codes[y], EncodedList(adj, order, retired, i),
      EncodedList(adj, order, retired, j),
      x, y);
  }

  /** After a build the two-stage query answers as the direct one, for every pair and either search. */
  lemma BuiltQueriesAgree(lay: Layout, simd: bool, adj: seq<seq<nat>>, codes: seq<seq<bool>>, order: seq<nat>,
                          retired: nat, x: nat, y: nat)
    requires Built(lay, adj, codes, order, retired) && 1 <= x <= lay.v && 1 <= y <= lay.v
    ensures Readable(lay, codes[x]) && Readable(lay, codes[y])
    ensures Decoded(lay, codes[x], DecodeOf(lay, codes[x])) && Decoded(lay, codes[y], DecodeOf(lay, codes[y]))
    ensures StagedPair(lay, codes[x], DecodeOf(lay, codes[x]), codes[y], DecodeOf(lay, codes[y]), x, y)
            == PairAnswer(lay, simd, codes[x], codes[y], x, y)
  {
    var pos: seq<nat> :| Inverse(order, pos);
    var i, j := pos[x], pos[y];
    EncodedListFacts(lay, adj, order, retired, i);
    EncodedListFacts(lay, adj, order, retired, j);
    ListHas(adj, order, pos, retired, i, j);
    ListHas(adj, order, pos, retired, j, i);
    assert y in adj[x] <==> x in adj[y];
    hide Encodes, IsGraph, OneSided, Readable, PeelOrder, EncodedList, Pow2, Span, Decoded, DecodeOf, StagedPair,
      PairAnswer;
    QueriesAgree(lay, simd, codes[x], codes[y], EncodedList(adj, order, retired, i),
      EncodedList(adj, order, retired, j), x, y);
  }

  /** All codes of an encoder, by vertex. */
  ghost function Codes(enc: HybridEncode): (r: seq<seq<bool>>)
    requires enc.Valid()
    reads set i | 0 <= i < |enc.encodes| :: enc.encodes[i].data
    ensures |r| == enc.lay.v + 1 && forall i :: 0 <= i <= enc.lay.v ==> r[i] == enc.Code(i)
  {
    seq(enc.lay.v + 1, i
      requires 0 <= i <= enc.lay.v && enc.Valid()
      reads set j | 0 <= j < |enc.encodes| :: enc.encodes[j].data
      => enc.Code(i))
  }

  /** The vertices handled so far carry the codes of their lists, the others are blank. */
  ghost predicate Progress(enc: HybridEncode, adj: seq<seq<nat>>, done: seq<nat>, retired: nat)
    requires enc.Valid() && |adj| == enc.lay.v + 1 && retired <= |done|
    reads set i | 0 <= i < |enc.encodes| :: enc.encodes[i].data
  {
    && (forall i :: 0 <= i < |done| ==>
      done[i] <= enc.lay.v && Encodes(enc.lay, enc.Code(done[i]), EncodedList(adj, done, retired, i)))
    && (forall x :: 0 <= x <= enc.lay.v && x !in done ==> enc.Code(x) == Zeros(enc.lay.PerBits()))
  }

  lemma EncodedListExtends(adj: seq<seq<nat>>, done: seq<nat>, x: nat, retired: nat, retired': nat, i: nat)
    requires i < |done| && done[i] < |adj| && retired <= |done|
    requires retired' == retired || retired == |done| == retired' - 1
    ensures EncodedList(adj, done + [x], retired', i) == EncodedList(adj, done, retired, i)
  {
    var n := if i < retired then i else retired;
    assert (done + [x])[..n] == done[..n];
  }

  method EncodeNext(enc: HybridEncode, adj: seq<seq<nat>>, ghost done: seq<nat>, x: nat, neighbors: seq<nat>,
                    ghost retired: nat, ghost retired': nat)
    requires enc.Valid() && |adj| == enc.lay.v + 1 && retired <= |done| && x <= enc.lay.v && x !in done
    requires retired' == retired || retired == |done| == retired' - 1
    requires neighbors == EncodedList(adj, done + [x], retired', |done|) && Bounded(neighbors, enc.lay.v)
    requires Progress(enc, adj, done, retired)
    modifies enc.encodes[x].data
    ensures Progress(enc, adj, done + [x], retired')
  {
    hide Encodes, EncodedList;
    enc.EncodeVertex(x, neighbors);
    forall y | 0 <= y <= enc.lay.v && y != x
      ensures enc.Code(y) == old(enc.Code(y))
    {
    }
    forall i | 0 <= i < |done| {
      EncodedListExtends(adj, done, x, retired, retired', i);
    }
  }

  ghost function Buffers(enc: HybridEncode): set<object> {
    set i | 0 <= i < |enc.encodes| :: enc.encodes[i].data as object
  }

  lemma Sizes(enc: HybridEncode, adj: seq<seq<nat>>, vert: seq<nat>, pos: seq<nat>)
    requires enc.Valid() && IsGraph(adj, enc.lay.v) && Inverse(vert, pos)
    ensures |pos| == |vert| && |adj| == enc.lay.v + 1 && |enc.encodes| == enc.lay.v + 1
  {
  }

  lemma BufferOf(enc: HybridEncode, x: nat)
    requires x < |enc.encodes|
    ensures enc.encodes[x].data as object in Buffers(enc)
  {
  }

  /** The working arrays of a build, apart from each other and from the code buffers. */
  ghost predicate Apart(enc: HybridEncode, vert: array<nat>, pos: array<nat>, bin: array<nat>, degrees: array<nat>,
                        filtered: array<bool>) {
    && Distinct(vert, pos, bin, degrees)
    && {vert as object, pos as object, bin as object, degrees as object, filtered as object} !! Buffers(enc)
  }

  lemma PrefixOrder(adj: seq<seq<nat>>, vert: seq<nat>, idx: nat, k: nat)
    requires idx < |vert| && vert[idx] < |adj| && PeelOrder(adj, vert[..idx], k)
    requires |Remaining(adj[vert[idx]], Members(vert[..idx]))| <= k
    ensures PeelOrder(adj, vert[..idx + 1], k)
  {
    var order := vert[..idx + 1];
    forall i | 0 <= i < idx + 1
      ensures order[i] < |adj| && |Remaining(adj[order[i]], Members(order[..i]))| <= k
    {
      assert order[..i] == vert[..i];
      if i < idx {
        assert vert[..idx][..i] == vert[..i] && vert[..idx][i] == vert[i];
      }
    }
  }

  /** Facts about the next vertex to retire or to encode. */
  lemma NextVertex(adj: seq<seq<nat>>, v: nat, vert: seq<nat>, pos: seq<nat>, idx: nat)
    requires IsGraph(adj, v) && Inverse(vert, pos) && |vert| == v + 1 && idx < |vert|
    ensures vert[idx] <= v && vert[idx] !in vert[..idx] && vert[..idx + 1] == vert[..idx] + [vert[idx]]
    ensures Bounded(adj[vert[idx]], v)
  {
    PrefixMember(vert, pos, idx, vert[idx]);
  }

  /** Peels while a vertex of degree at most `maxInt` is left, encoding each with the neighbours it still has. */
  method PeelAll(enc: HybridEncode, adj: seq<seq<nat>>, vert: array<nat>, pos: array<nat>, bin: array<nat>,
                 degrees: array<nat>, filtered: array<bool>)
    returns (idx: nat, ghost level: nat)
    requires enc.Valid() && Apart(enc, vert, pos, bin, degrees, filtered) && enc.lay.maxInt + 1 < bin.Length
    requires |adj| == enc.lay.v + 1
    requires PeelState(adj, enc.lay.v, vert[..], pos[..], bin[..], degrees[..], filtered[..], 0, 0)
    requires Progress(enc, adj, [], 0)
    modifies vert, pos, bin, degrees, filtered, Buffers(enc)
    ensures PeelState(adj, enc.lay.v, vert[..], pos[..], bin[..], degrees[..], filtered[..], idx, level)
    ensures level <= enc.lay.maxInt && bin[enc.lay.maxInt + 1] <= idx <= vert.Length
    ensures PeelOrder(adj, vert[..idx], enc.lay.maxInt)
    ensures Progress(enc, adj, vert[..idx], idx)
  {
    hide *;
    var max_kcore := enc.lay.maxInt;
    idx, level := 0, 0;
    assert vert[..0] == [];
    EmptyOrder(adj, max_kcore);
    while idx < bin[max_kcore + 1]
      invariant PeelState(adj, enc.lay.v, vert[..], pos[..], bin[..], degrees[..], filtered[..], idx, level)
      invariant level <= max_kcore && idx <= vert.Length
      invariant PeelOrder(adj, vert[..idx], max_kcore)
      invariant Progress(enc, adj, vert[..idx], idx)
      decreases vert.Length - idx
    {
      PeelNext(adj, enc.lay.v, vert[..], pos[..], bin[..], degrees[..], filtered[..], idx, level, max_kcore);
      level := PeelOne(enc, adj, vert, pos, bin, degrees, filtered, idx, level);
      idx := idx + 1;
    }
  }

  lemma EmptyOrder(adj: seq<seq<nat>>, k: nat)
    ensures PeelOrder(adj, [], k)
  {
  }

  lemma PeelNext(adj: seq<seq<nat>>, v: nat, vert: seq<nat>, pos: seq<nat>, bin: seq<nat>, deg: seq<nat>,
                 filtered: seq<bool>, idx: nat, level: nat, k: nat)
    requires PeelState(adj, v, vert, pos, bin, deg, filtered, idx, level) && k + 1 < |bin| && idx < bin[k + 1]
    ensures idx < |vert| && vert[idx] < |deg| && deg[vert[idx]] <= k
  {
    assert BinAt(vert, deg, k + 1, bin[k + 1]);
  }

  method PeelOne(enc: HybridEncode, adj: seq<seq<nat>>, vert: array<nat>, pos: array<nat>, bin: array<nat>,
                 degrees: array<nat>, filtered: array<bool>, idx: nat, ghost level: nat)
    returns (ghost next: nat)
    requires enc.Valid() && Apart(enc, vert, pos, bin, degrees, filtered) && idx < vert.Length
    requires PeelState(adj, enc.lay.v, vert[..], pos[..], bin[..], degrees[..], filtered[..], idx, level)
    requires degrees[vert[idx]] <= enc.lay.maxInt
    requires PeelOrder(adj, vert[..idx], enc.lay.maxInt) && Progress(enc, adj, vert[..idx], idx)
    modifies vert, pos, bin, degrees, filtered, Buffers(enc)
    ensures PeelState(adj, enc.lay.v, vert[..], pos[..], bin[..], degrees[..], filtered[..], idx + 1, next)
    ensures next <= enc.lay.maxInt
    ensures PeelOrder(adj, vert[..idx + 1], enc.lay.maxInt) && Progress(enc, adj, vert[..idx + 1], idx + 1)
  {
    ghost var was := vert[..idx + 1];
    next := degrees[vert[idx]];
    assert vert[..idx] == was[..idx];
    var neighbors := Retire(adj, enc.lay.v, vert, pos, bin, degrees, filtered, idx, level);
    assert vert[..idx] == was[..idx] && vert[idx] == was[idx];
    NextVertex(adj, enc.lay.v, vert[..], pos[..], idx);
    hide PeelState, Progress, PeelOrder, Buckets, IsGraph;
    RemainingBounded(adj[vert[idx]], Members(vert[..idx]), enc.lay.v);
    PrefixOrder(adj, vert[..], idx, enc.lay.maxInt);
    EncodeNext(enc, adj, vert[..idx], vert[idx], neighbors, idx, idx + 1);
  }

  /** The filtered vertices are those at the first `start` positions. */
  ghost predicate Marks(filtered: seq<bool>, pos: seq<nat>, start: nat) {
    |filtered| == |pos| && forall x :: 0 <= x < |pos| ==> (filtered[x] <==> pos[x] < start)
  }

  method EncodeLeft(enc: HybridEncode, adj: seq<seq<nat>>, vertex: nat, ghost order: seq<nat>, ghost pos: seq<nat>,
                    filtered: array<bool>, ghost start: nat, ghost idx: nat)
    requires enc.Valid() && IsGraph(adj, enc.lay.v) && Inverse(order, pos)
      && |order| == filtered.Length == enc.lay.v + 1
    requires start <= idx < |order| && order[idx] == vertex
    requires Marks(filtered[..], pos, start) && Progress(enc, adj, order[..idx], start)
    modifies enc.encodes[vertex].data
    ensures Progress(enc, adj, order[..idx + 1], start)
  {
    ghost var gone := Members(order[..start]);
    NextVertex(adj, enc.lay.v, order, pos, idx);
    hide Progress, Members, Remaining;
    forall i | 0 <= i < |adj[vertex]|
      ensures adj[vertex][i] <= enc.lay.v && (filtered[adj[vertex][i]] <==> adj[vertex][i] in gone)
    {
      PrefixMember(order, pos, start, adj[vertex][i]);
    }
    var neighbors := LiveNeighbors(adj[vertex], filtered, gone);
    RemainingBounded(adj[vertex], gone, enc.lay.v);
    assert (order[..idx] + [vertex])[..start] == order[..start];
    EncodeNext(enc, adj, order[..idx], vertex, neighbors, start, start);
  }

  /** Encodes the vertices peeling has left, each with its neighbours among them. */
  method EncodeRest(enc: HybridEncode, adj: seq<seq<nat>>, vert: array<nat>, ghost pos: seq<nat>, filtered: array<bool>,
                    start: nat)
    requires enc.Valid() && IsGraph(adj, enc.lay.v) && Inverse(vert[..], pos)
      && vert.Length == filtered.Length == enc.lay.v + 1
    requires vert as object !in Buffers(enc) && filtered as object !in Buffers(enc) && start <= vert.Length
    requires Marks(filtered[..], pos, start) && Progress(enc, adj, vert[..start], start)
    modifies Buffers(enc)
    ensures Progress(enc, adj, vert[..], start)
  {
    hide *;
    Sizes(enc, adj, vert[..], pos);
    ghost var order, marks := vert[..], filtered[..];
    for idx := start to enc.lay.v + 1
      invariant vert[..] == order && filtered[..] == marks
      invariant Progress(enc, adj, order[..idx], start)
    {
      NextVertex(adj, enc.lay.v, order, pos, idx);
      BufferOf(enc, vert[idx]);
      EncodeLeft(enc, adj, vert[idx], order, pos, filtered, start, idx);
    }
    assert order[..enc.lay.v + 1] == order;
  }

  ghost predicate IsMaxDegree(adj: seq<seq<nat>>, m: nat) {
    (forall x :: 0 <= x < |adj| ==> |adj[x]| <= m) && exists x :: 0 <= x < |adj| && |adj[x]| == m
  }

  lemma StartPeel(adj: seq<seq<nat>>, v: nat, vert: seq<nat>, pos: seq<nat>, bin: seq<nat>, deg: seq<nat>,
                  filtered: seq<bool>)
    requires IsGraph(adj, v) && Buckets(vert, pos, bin, deg) && |vert| == |filtered| == v + 1
    requires deg == DegreesOf(adj) && forall x :: 0 <= x <= v ==> !filtered[x]
    ensures PeelState(adj, v, vert, pos, bin, deg, filtered, 0, 0)
  {
    forall x | 0 <= x <= v
      ensures Tracks(adj, deg, x, Members(vert[..0]), 0)
    {
      assert Members(vert[..0]) == {};
      RemainingNone(adj[x]);
    }
  }

  /** Such a star under a real layout: with one word per vertex and thirteen vertices a partial code holds six ids. */
  lemma SmallStarStopsEarly()
    ensures var lay := InitCommonVariables(1, 13);
      && lay.Ok() && lay.maxInt == 6
      && IsGraph(Star(lay.v), lay.v) && IsMaxDegree(Star(lay.v), 12) && !GapsHarmless(DegreesOf(Star(lay.v)), 12)
      && Filled(StarBins(lay.v))[lay.maxInt + 1] == 2
      && !LeavesCore(Star(lay.v), lay.v, Identity(lay.v + 1)[..2], lay.maxInt)
  {
    hide *;
    SmallLayout();
    StarStopsEarly(13, 6);
    StarDegree(13);
  }

  lemma StarDegree(v: nat)
    requires v >= 2
    ensures IsMaxDegree(Star(v), v - 1)
  {
    assert |Star(v)[v]| == v - 1;
  }

  /** Vertices left when peeling stops have more than `k` neighbours left. */
  lemma LeftOver(adj: seq<seq<nat>>, v: nat, vert: seq<nat>, pos: seq<nat>, bin: seq<nat>, deg: seq<nat>,
                 filtered: seq<bool>, idx: nat, level: nat, k: nat, x: nat)
    requires PeelState(adj, v, vert, pos, bin, deg, filtered, idx, level) && level <= k && k + 1 < |bin|
      && bin[k + 1] <= idx
    requires x <= v && x !in vert[..idx]
    ensures |Remaining(adj[x], Members(vert[..idx]))| > k
  {
    PrefixMember(vert, pos, idx, x);
    assert BinAt(vert, deg, k + 1, bin[k + 1]);
    assert Tracks(adj, deg, x, Members(vert[..idx]), level);
    assert vert[pos[x]] == x;
  }

  /** The arrays before peeling. They are a bucket order exactly when the gaps in the degrees are harmless. */
  method Prepare(adj: seq<seq<nat>>, sorted: seq<nat>)
    returns (vert: array<nat>, pos: array<nat>, bin: array<nat>, degrees: array<nat>, max_degree: nat)
    requires |sorted| == |adj| >= 1 && adj[0] == [] && IsPermutation(sorted) && sorted[0] == 0
    requires forall i :: 0 <= i < |sorted| ==> sorted[i] < |adj|
    requires SortedByDegree(sorted, DegreesOf(adj))
    ensures fresh(vert) && fresh(pos) && fresh(bin) && fresh(degrees) && Distinct(vert, pos, bin, degrees)
    ensures IsMaxDegree(adj, max_degree) && bin.Length == max_degree + 1 && vert.Length == |adj|
    ensures degrees[..] == DegreesOf(adj)
    ensures Buckets(vert[..], pos[..], bin[..], degrees[..]) <==> GapsHarmless(DegreesOf(adj), max_degree)
  {
    degrees, max_degree := CountDegrees(adj);
    assert degrees[..] == DegreesOf(adj);
    vert := new nat[|adj|](i requires 0 <= i < |adj| => sorted[i]);
    assert vert[..] == sorted;
    pos, bin := FirstIndices(vert, degrees, max_degree);
    TopPresent(vert[..], pos[..], bin[..], degrees[..]);
    FillIff(vert[..], pos[..], bin[..], degrees[..]);
    hide Buckets, GapsHarmless, Start, Filled;
    FillBins(bin);
  }

  lemma TopPresent(vert: seq<nat>, pos: seq<nat>, raw: seq<nat>, deg: seq<nat>)
    requires Start(vert, pos, raw, deg) && exists x :: 0 <= x < |deg| && deg[x] == |raw| - 1
    ensures raw[0] == 0 && (|raw| > 1 ==> raw[|raw| - 1] != 0)
  {
    assert !Absent(deg, |raw| - 1);
  }

  /** The build, for every order in which sorting may leave vertices of equal degree. */
  method BuildEncoding(enc: HybridEncode, adj: seq<seq<nat>>, sorted: seq<nat>, ghost max: nat)
    returns (ghost order: seq<nat>, ghost retired: nat)
    requires enc.Valid() && IsGraph(adj, enc.lay.v)
    requires forall x :: 0 <= x <= enc.lay.v ==> enc.Code(x) == Zeros(enc.lay.PerBits())
    requires |sorted| == |adj| && IsPermutation(sorted) && sorted[0] == 0
    requires forall i :: 0 <= i < |sorted| ==> sorted[i] < |adj|
    requires SortedByDegree(sorted, DegreesOf(adj))
    requires IsMaxDegree(adj, max) && max > enc.lay.maxInt && GapsHarmless(DegreesOf(adj), max)
    modifies Buffers(enc)
    ensures Built(enc.lay, adj, Codes(enc), order, retired)
    ensures LeavesCore(adj, enc.lay.v, order[..retired], enc.lay.maxInt)
  {
    var vert, pos, bin, degrees, max_degree := Prepare(adj, sorted);
    assert max_degree == max;
    var filtered := new bool[enc.lay.v + 1](_ => false);
    StartPeel(adj, enc.lay.v, vert[..], pos[..], bin[..], degrees[..], filtered[..]);
    hide SortedByDegree, GapsHarmless, DegreesOf, Built, PeelState, IsPermutation, IsGraph, Remaining, Encodes;
    order, retired := PeelAndEncode(enc, adj, vert, pos, bin, degrees, filtered);
  }

  /** Queries after a build: both forms give one answer, and it never contradicts the graph. */
  method Query(enc: HybridEncode, ghost adj: seq<seq<nat>>, ghost order: seq<nat>, ghost retired: nat, x: nat, y: nat)
    returns (direct: PairType, staged: PairType)
    requires enc.Valid() && Built(enc.lay, adj, Codes(enc), order, retired)
    requires 1 <= x <= enc.lay.v && 1 <= y <= enc.lay.v && x != y
    ensures direct == staged && |adj| == enc.lay.v + 1 && Correct(direct, y in adj[x])
    ensures x in order[..retired] || y in order[..retired] ==> direct != Uncertain
  {
    BuiltSound(enc.lay, enc.hsimd, adj, Codes(enc), order, retired, x, y);
    BuiltQueriesAgree(enc.lay, enc.hsimd, adj, Codes(enc), order, retired, x, y);
    BuiltSizes(enc.lay, adj, Codes(enc), order, retired);
    hide Built, PairAnswer, StagedPair, Readable, Decoded, DecodeOf;
    direct := enc.NEpairTest(x, y);
    var info1 := enc.Decode(x);
    var info2 := enc.Decode(y);
    staged := enc.NEpairTestDecoded(x, info1, y, info2);
  }

  lemma BuiltSizes(lay: Layout, adj: seq<seq<nat>>, codes: seq<seq<bool>>, order: seq<nat>, retired: nat)
    requires Built(lay, adj, codes, order, retired)
    ensures |adj| == lay.v + 1 && retired <= |order|
  {
  }

  method PeelAndEncode(enc: HybridEncode, adj: seq<seq<nat>>, vert: array<nat>, pos: array<nat>, bin: array<nat>,
                       degrees: array<nat>, filtered: array<bool>)
    returns (ghost order: seq<nat>, ghost retired: nat)
    requires enc.Valid() && Apart(enc, vert, pos, bin, degrees, filtered) && enc.lay.maxInt + 1 < bin.Length
    requires PeelState(adj, enc.lay.v, vert[..], pos[..], bin[..], degrees[..], filtered[..], 0, 0)
    requires forall x :: 0 <= x <= enc.lay.v ==> enc.Code(x) == Zeros(enc.lay.PerBits())
    modifies vert, pos, bin, degrees, filtered, Buffers(enc)
    ensures Built(enc.lay, adj, Codes(enc), order, retired)
    ensures LeavesCore(adj, enc.lay.v, order[..retired], enc.lay.maxInt)
  {
    var idx: nat;
    ghost var level: nat;
    idx, level := PeelAll(enc, adj, vert, pos, bin, degrees, filtered);
    ghost var vs, ps, bs, ds, fs := vert[..], pos[..], bin[..], degrees[..], filtered[..];
    order, retired := vs, idx;
    forall x | 0 <= x <= enc.lay.v && x !in order[..retired]
      ensures |Remaining(adj[x], Members(order[..retired]))| > enc.lay.maxInt
    {
      LeftOver(adj, enc.lay.v, vs, ps, bs, ds, fs, idx, level, enc.lay.maxInt, x);
    }
    PeelingLeavesCore(adj, enc.lay.v, order[..retired], enc.lay.maxInt);
    hide LeavesCore;
    assert Inverse(order, ps) && Marks(fs, ps, idx);
    hide Marks, Progress, Buckets, PeelOrder, Tracks, Inverse, Remaining, Encodes;
    EncodeRest(enc, adj, vert, ps, filtered, idx);
    Assemble(enc, adj, order, retired, ps);
  }

  lemma Assemble(enc: HybridEncode, adj: seq<seq<nat>>, order: seq<nat>, retired: nat, pos: seq<nat>)
    requires enc.Valid() && IsGraph(adj, enc.lay.v) && |order| == enc.lay.v + 1 && Inverse(order, pos)
      && retired <= |order|
    requires PeelOrder(adj, order[..retired], enc.lay.maxInt) && Progress(enc, adj, order, retired)
    ensures Built(enc.lay, adj, Codes(enc), order, retired)
  {
    hide Encodes, EncodedList, PeelOrder;
  }
}
