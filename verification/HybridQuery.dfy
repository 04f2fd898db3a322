/** Edge queries over two hybrid codes: the direct form and the two-stage form over decoded headers. */
module HybridQuery {
  import opened Common
  import opened Bits
  import opened BitSet
  import opened Config
  import opened HashCounting
  import opened HybridCode

  /** The code of a neighbour list: all of it when it fits, otherwise its first highest-scoring window and hash bits. */
  ghost predicate Encodes(lay: Layout, bits: seq<bool>, neighbors: seq<nat>)
    requires lay.Shape()
  {
    && Bounded(neighbors, lay.v)
    && if |neighbors| <= lay.maxCore then bits == FullBits(lay, neighbors) else BestCode(lay, neighbors, bits)
  }

  /** The flag tells whether the list was short, and no answer contradicts the list; short lists get exact answers. */
  lemma EncodesSound(lay: Layout, simd: bool, bits: seq<bool>, neighbors: seq<nat>, x: nat)
    requires lay.Ok() && Bounded(neighbors, lay.v) && Encodes(lay, bits, neighbors) && 1 <= x <= lay.v
    ensures Readable(lay, bits) && (bits[0] <==> |neighbors| <= lay.maxCore)
    ensures Truthful(OneSided(lay, simd, bits, x), x, neighbors)
    ensures bits[0] ==> OneSided(lay, simd, bits, x) != Uncertain
  {
    hide OneSided, Readable, FullBits, WindowBits, Pow2, Span, BestCode, Candidates;
    if |neighbors| <= lay.maxCore {
      FullExact(lay, simd, neighbors, x);
    } else {
      var w := BestIsWindow(lay, neighbors, bits);
      PartialSound(lay, simd, neighbors, w, x);
    }
  }

  /** The numeric codes of the answers order them: a certain answer wins, and Neighbor over NonNeighbor. */
  function PairCode(r: PairType): nat {
    match r
    case Neighbor => 1
    case NonNeighbor => 2
    case Uncertain => 4
  }

  function MinAnswer(a: PairType, b: PairType): PairType {
    if PairCode(b) < PairCode(a) then b else a
  }

  /** The answer about a pair does not contradict the graph. */
  ghost predicate Correct(r: PairType, edge: bool) {
    (r == Neighbor ==> edge) && (r == NonNeighbor ==> !edge)
  }

  /** The direct query: a lone decodable code decides, otherwise the smaller answer of both. */
  function PairAnswer(lay: Layout, simd: bool, bits1: seq<bool>, bits2: seq<bool>, x1: nat, x2: nat): PairType
    requires Readable(lay, bits1) && Readable(lay, bits2)
  {
    var type1 := OneSided(lay, simd, bits1, x2);
    var type2 := OneSided(lay, simd, bits2, x1);
    if bits1[0] && !bits2[0] then type1
    else if !bits1[0] && bits2[0] then type2
    else MinAnswer(type1, type2)
  }

  datatype DecodeInfo = DecodeInfo(decodable: bool, block_num: nat, hash_begin: nat, min: nat, max: nat)

  function TypeCode(kind: BlockType): nat {
    match kind
    case FullHash => 1
    case LeftMost => 2
    case RightMost => 4
    case Middle => 8
  }

  /** Reading a header once for many queries. */
  function DecodeOf(lay: Layout, bits: seq<bool>): DecodeInfo
    requires Readable(lay, bits)
  {
    if bits[0] then DecodeInfo(true, 0, 0, 0, 0)
    else
      var ids := StoredIds(lay, bits);
      var n := |ids|;
      if n == 0 then DecodeInfo(false, 0, lay.BlockBegin(), 0, 0)
      else
        var code := TypeCode(ReadKind(bits));
        DecodeInfo(false, n, lay.HashBegin(n),
                   if And(code, 0x0d, 4) != 0 then ids[0] else 0,
                   if And(code, 0x0b, 4) != 0 then ids[n - 1] else lay.v + 1)
  }

  function StagedOneSided(lay: Layout, bits: seq<bool>, info: DecodeInfo, x: nat): PairType
    requires Readable(lay, bits) && info == DecodeOf(lay, bits)
    requires x < 0x1_0000_0000 && info.min < 0x1_0000_0000 && info.max < 0x1_0000_0000
  {
    if info.decodable then Scan(StoredIds(lay, bits), x)
    else if Sub32(x, info.min) <= Sub32(info.max, info.min) then Scan(StoredIds(lay, bits), x)
    else
      lay.HashBeginWithin(info.block_num);
      HashAnswer(lay, bits, info.block_num, x)
  }

  ghost predicate Decoded(lay: Layout, bits: seq<bool>, info: DecodeInfo) {
    Readable(lay, bits) && info == DecodeOf(lay, bits) && info.min < 0x1_0000_0000 && info.max < 0x1_0000_0000
  }

  /** The two-stage query: the first certain answer, decodable codes first. */
  function StagedPair(lay: Layout, bits1: seq<bool>, info1: DecodeInfo, bits2: seq<bool>, info2: DecodeInfo, x1: nat,
                      x2: nat): PairType
    requires Decoded(lay, bits1, info1) && Decoded(lay, bits2, info2) && x1 < 0x1_0000_0000 && x2 < 0x1_0000_0000
  {
    var type1 := StagedOneSided(lay, bits1, info1, x2);
    var type2 := StagedOneSided(lay, bits2, info2, x1);
    if info1.decodable && !info2.decodable then type1
    else if !info1.decodable && info2.decodable then type2
    else if info1.decodable && info2.decodable then
      if And(PairCode(type1), 0x01, 4) != 0 then Neighbor else type2
    else
      if And(PairCode(type1), 0x03, 4) != 0 then type1 else type2
  }

  lemma Nibbles()
    ensures ToBits(1, 4) == [false, false, false, true] && ToBits(2, 4) == [false, false, true, false]
    ensures ToBits(4, 4) == [false, true, false, false] && ToBits(8, 4) == [true, false, false, false]
  {
  }

  lemma Masks()
    ensures ToBits(0x0d, 4) == [true, true, false, true] && ToBits(0x0b, 4) == [true, false, true, true]
    ensures ToBits(0x03, 4) == [false, false, true, true]
  {
  }

  /** A one-bit code meets a mask exactly in its own bit. */
  lemma MaskHit(code: nat, mask: nat, i: nat)
    requires i < 4 && forall j :: 0 <= j < 4 ==> ToBits(code, 4)[j] == (j == i)
    ensures And(code, mask, 4) != 0 <==> ToBits(mask, 4)[i]
  {
    if ToBits(mask, 4)[i] {
      AndHit(code, mask, 4, i);
    } else {
      AndZero(code, mask, 4);
    }
  }

  lemma TypeMasks(kind: BlockType)
    ensures And(TypeCode(kind), 0x0d, 4) != 0 <==> kind != LeftMost
    ensures And(TypeCode(kind), 0x0b, 4) != 0 <==> kind != RightMost
  {
    Nibbles();
    Masks();
    hide And, ToBits;
    var i := match kind case FullHash => 3 case LeftMost => 2 case RightMost => 1 case Middle => 0;
    MaskHit(TypeCode(kind), 0x0d, i);
    MaskHit(TypeCode(kind), 0x0b, i);
  }

  lemma AnswerMasks(r: PairType)
    ensures And(PairCode(r), 0x01, 4) != 0 <==> r == Neighbor
    ensures And(PairCode(r), 0x03, 4) != 0 <==> r != Uncertain
  {
    Nibbles();
    Masks();
    hide And, ToBits;
    var i := match r case Neighbor => 3 case NonNeighbor => 2 case Uncertain => 1;
    MaskHit(PairCode(r), 0x01, i);
    MaskHit(PairCode(r), 0x03, i);
  }

  /** The decoded range is the one the direct test uses, and the wrapped comparison tests it. */
  lemma WrappedRange(x: nat, min: nat, max: nat)
    requires x < 0x1_0000_0000 && min <= max < 0x1_0000_0000
    ensures Sub32(x, min) <= Sub32(max, min) <==> min <= x <= max
  {
  }

  /** A window's code holds the window, and an empty one is marked as neither end. */
  lemma WindowShape(lay: Layout, neighbors: seq<nat>, w: Window)
    requires lay.Ok() && Bounded(neighbors, lay.v) && WindowOk(lay, neighbors, w)
    ensures var bits := WindowBits(lay, neighbors, w);
      && Readable(lay, bits) && !bits[0] && StoredIds(lay, bits) == neighbors[w.first..w.first + w.size]
      && (w.size == 0 ==> ReadKind(bits) == Middle)
  {
    hide PartialBits, StoredIds, Readable, Outside, Field, Pow2, Span;
    IdsFit(lay, neighbors);
    PartialReads(lay, w.kind, neighbors[w.first..w.first + w.size], Outside(neighbors, w.first, w.size));
  }

  /** What the readers rely on: sorted ids, then zeros; and in a partial code nothing but sorted ids. */
  ghost predicate WellStored(lay: Layout, bits: seq<bool>) {
    && Readable(lay, bits)
    && (exists n :: ZeroTailed(StoredIds(lay, bits), n))
    && (!bits[0] ==> Bounded(StoredIds(lay, bits), lay.v) && (StoredIds(lay, bits) == [] ==> ReadKind(bits) == Middle))
  }

  lemma StoredShape(lay: Layout, bits: seq<bool>, neighbors: seq<nat>)
    requires lay.Ok() && Bounded(neighbors, lay.v) && Encodes(lay, bits, neighbors)
    ensures WellStored(lay, bits)
  {
    hide FullBits, WindowBits, StoredIds, Readable, Field, Pow2, Span, BestCode, Candidates;
    if |neighbors| <= lay.maxCore {
      FullReads(lay, neighbors);
      assert ZeroTailed(StoredIds(lay, bits), |neighbors|);
    } else {
      var w := BestIsWindow(lay, neighbors, bits);
      WindowShape(lay, neighbors, w);
      assert ZeroTailed(StoredIds(lay, bits), w.size);
    }
  }

  /** One-sided: decoding first changes no answer. */
  lemma StagedOneSidedAgrees(lay: Layout, simd: bool, bits: seq<bool>, x: nat)
    requires WellStored(lay, bits) && 1 <= x <= lay.v
    ensures Decoded(lay, bits, DecodeOf(lay, bits))
    ensures StagedOneSided(lay, bits, DecodeOf(lay, bits), x) == OneSided(lay, simd, bits, x)
    ensures DecodeOf(lay, bits).decodable == bits[0]
  {
    hide StoredIds, And, HashAnswer, Scan, LaneScan, Pow2, Span, Field;
    var ids := StoredIds(lay, bits);
    var m :| ZeroTailed(ids, m);
    ScansAgree(ids, m, x);
    if !bits[0] {
      TypeMasks(ReadKind(bits));
      var info := DecodeOf(lay, bits);
      WrappedRange(x, info.min, info.max);
    }
  }

  /** Both query forms use all there is: they are uncertain only if neither side is certain. */
  lemma UncertainIff(lay: Layout, simd: bool, bits1: seq<bool>, bits2: seq<bool>, list1: seq<nat>, list2: seq<nat>,
                     x1: nat, x2: nat)
    requires lay.Ok() && 1 <= x1 <= lay.v && 1 <= x2 <= lay.v
    requires Bounded(list1, lay.v) && Encodes(lay, bits1, list1) && Bounded(list2, lay.v) && Encodes(lay, bits2, list2)
    ensures Readable(lay, bits1) && Readable(lay, bits2)
    ensures Decoded(lay, bits1, DecodeOf(lay, bits1)) && Decoded(lay, bits2, DecodeOf(lay, bits2))
    ensures PairAnswer(lay, simd, bits1, bits2, x1, x2) == Uncertain
      <==> OneSided(lay, simd, bits1, x2) == Uncertain && OneSided(lay, simd, bits2, x1) == Uncertain
    ensures StagedPair(lay, bits1, DecodeOf(lay, bits1), bits2, DecodeOf(lay, bits2), x1, x2) == Uncertain
      <==> OneSided(lay, simd, bits1, x2) == Uncertain && OneSided(lay, simd, bits2, x1) == Uncertain
  {
    hide Encodes, Bounded, OneSided, StagedOneSided, Readable, WellStored, DecodeOf, And, Pow2, Span;
    StoredShape(lay, bits1, list1);
    StoredShape(lay, bits2, list2);
    StagedOneSidedAgrees(lay, simd, bits1, x2);
    StagedOneSidedAgrees(lay, simd, bits2, x1);
    EncodesSound(lay, simd, bits1, list1, x2);
    EncodesSound(lay, simd, bits2, list2, x1);
    AnswerMasks(OneSided(lay, simd, bits1, x2));
  }

  /** In a state where two partial codes agree on the edge, both query forms give the same answer. */
  lemma QueriesAgree(lay: Layout, simd: bool, bits1: seq<bool>, bits2: seq<bool>, list1: seq<nat>, list2: seq<nat>,
                     x1: nat, x2: nat)
    requires lay.Ok() && 1 <= x1 <= lay.v && 1 <= x2 <= lay.v
    requires Bounded(list1, lay.v) && Encodes(lay, bits1, list1) && Bounded(list2, lay.v) && Encodes(lay, bits2, list2)
    requires |list1| > lay.maxCore && |list2| > lay.maxCore ==> (x2 in list1 <==> x1 in list2)
    ensures Readable(lay, bits1) && Readable(lay, bits2)
    ensures Decoded(lay, bits1, DecodeOf(lay, bits1)) && Decoded(lay, bits2, DecodeOf(lay, bits2))
    ensures StagedPair(lay, bits1, DecodeOf(lay, bits1), bits2, DecodeOf(lay, bits2), x1, x2)
            == PairAnswer(lay, simd, bits1, bits2, x1, x2)
  {
    hide Encodes, Bounded, OneSided, StagedOneSided, Readable, WellStored, DecodeOf, And, Pow2, Span;
    StoredShape(lay, bits1, list1);
    StoredShape(lay, bits2, list2);
    StagedOneSidedAgrees(lay, simd, bits1, x2);
    StagedOneSidedAgrees(lay, simd, bits2, x1);
    EncodesSound(lay, simd, bits1, list1, x2);
    EncodesSound(lay, simd, bits2, list2, x1);
    AnswerMasks(OneSided(lay, simd, bits1, x2));
  }
}
