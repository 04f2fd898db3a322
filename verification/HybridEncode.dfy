/** The hybrid encoder: one bit buffer per vertex, written by `EncodeVertex` and read by the edge tests. */
module HybridEncoder {
  import opened Common
  import opened Bits
  import opened BitSet
  import opened Config
  import opened HashCounting
  import opened HybridCode
  import opened HybridQuery

  class HybridEncode {
    const lay: Layout
    const hsimd: bool
    const encodes: seq<BitSetSIMD>

    ghost predicate Valid() {
      && lay.Ok()
      && |encodes| == lay.v + 1
      && (forall i :: 0 <= i < |encodes| ==> 8 * encodes[i].data.Length == lay.PerBits())
      && (forall i, j :: 0 <= i < j < |encodes| ==> encodes[i].data != encodes[j].data)
    }

    ghost function Code(vertex: nat): (s: seq<bool>)
      requires Valid() && vertex <= lay.v
      reads encodes[vertex].data
      ensures |s| == lay.PerBits()
    {
      encodes[vertex].Bits()
    }

    constructor (lay: Layout, hsimd: bool)
      requires lay.Ok()
      ensures Valid() && this.lay == lay && this.hsimd == hsimd
      ensures forall i :: 0 <= i <= lay.v ==> fresh(encodes[i].data) && Code(i) == Zeros(lay.PerBits())
    {
      var list: seq<BitSetSIMD> := [];
      for i := 0 to lay.v + 1
        invariant |list| == i
        invariant forall j :: 0 <= j < i ==> fresh(list[j].data) && 8 * list[j].data.Length == lay.PerBits()
        invariant forall j :: 0 <= j < i ==> list[j].Bits() == Zeros(lay.PerBits())
        invariant forall j, l :: 0 <= j < l < i ==> list[j].data != list[l].data
      {
        var b := new BitSetSIMD(lay.PerBits());
        assert b.Bits() == Zeros(lay.PerBits());
        list := list + [b];
      }
      this.lay := lay;
      this.hsimd := hsimd;
      encodes := list;
    }

    method SetBlockModel(bitset: BitSetSIMD, kind: BlockType)
      requires bitset.data.Length >= 1
      modifies bitset.data
      ensures bitset.Bits() == Splice(old(bitset.Bits()), 1, ToBits(KindCode(kind), 2))
    {
      assert Pow2(2) == 4;
      match kind {
        case LeftMost => bitset.BlockSet(1, 2, 0);
        case FullHash => bitset.BlockSet(1, 2, 1);
        case Middle => bitset.BlockSet(1, 2, 1);
        case RightMost => bitset.BlockSet(1, 2, 3);
      }
    }

    method WriteIds(bitset: BitSetSIMD, begin: nat, ids: seq<nat>)
      requires lay.Ok() && 8 * bitset.data.Length == lay.PerBits()
      requires begin + Span(|ids|, lay.vb) <= lay.PerBits()
      requires forall i :: 0 <= i < |ids| ==> ids[i] < Pow2(lay.vb)
      modifies bitset.data
      ensures bitset.Bits() == WriteFields(old(bitset.Bits()), begin, lay.vb, ids)
    {
      hide BitsOf, Splice, ToBits, Pow2;
      ghost var before := bitset.Bits();
      var index := begin;
      assert ids[..0] == [];
      for i := 0 to |ids|
        invariant index == begin + Span(i, lay.vb) && index <= lay.PerBits()
        invariant bitset.Bits() == WriteFields(before, begin, lay.vb, ids[..i])
      {
        SpanMono(i, |ids|, lay.vb);
        bitset.BlockSet(index, lay.vb, ids[i]);
        assert ids[..i + 1][..i] == ids[..i];
        index := index + lay.vb;
      }
      assert ids[..|ids|] == ids;
    }

    method WriteHeader(bitset: BitSetSIMD, kind: BlockType, n: nat)
      requires lay.Ok() && 8 * bitset.data.Length == lay.PerBits() && n <= lay.maxInt
      modifies bitset.data
      ensures bitset.Bits() == HeaderBits(lay, kind, n)
    {
      hide ToBits, BitsOf, Splice, Pow2, Span;
      lay.HashBeginWithin(n);
      bitset.Clear();
      assert bitset.Bits() == Zeros(lay.PerBits());
      bitset.SetZero(0);
      SetBlockModel(bitset, kind);
      bitset.BlockSet(3, lay.logK, n);
    }

    method WriteHashes(bitset: BitSetSIMD, hashBegin: nat, rest: seq<nat>)
      requires 8 * bitset.data.Length == lay.PerBits() && hashBegin < lay.PerBits()
      modifies bitset.data
      ensures bitset.Bits() == SetHashes(lay, old(bitset.Bits()), hashBegin, rest)
    {
      hide BitsOf, Splice, HashPos;
      ghost var before := bitset.Bits();
      assert rest[..0] == [];
      for i := 0 to |rest|
        invariant bitset.Bits() == SetHashes(lay, before, hashBegin, rest[..i])
      {
        bitset.SetOne(HashPos(lay, rest[i], hashBegin));
        assert rest[..i + 1][..i] == rest[..i];
      }
      assert rest[..|rest|] == rest;
    }

    method SetNonDecodable(block: seq<nat>, rest: seq<nat>, kind: BlockType, bitset: BitSetSIMD)
      requires lay.Ok() && 8 * bitset.data.Length == lay.PerBits() && |block| <= lay.maxInt
      requires forall i :: 0 <= i < |block| ==> block[i] < Pow2(lay.vb)
      modifies bitset.data
      ensures bitset.Bits() == PartialBits(lay, kind, block, rest)
    {
      hide BitsOf, HeaderBits, WriteFields, SetHashes, Pow2, Span;
      lay.HashBeginWithin(|block|);
      WriteHeader(bitset, kind, |block|);
      WriteIds(bitset, lay.BlockBegin(), block);
      SpanIsProduct(|block|, lay.vb);
      var hashBegin := |block| * lay.vb + lay.logK + 3;
      if hashBegin != lay.PerBits() {
        WriteHashes(bitset, hashBegin, rest);
      }
    }

    /** Installs the window when it scores strictly higher than the best so far. */
    method ChooseHighest(neighbors: seq<nat>, best: nat, bitset: BitSetSIMD, counter: HashCount,
                         block_size: nat, first_idx: nat, kind: BlockType)
      returns (max: nat, score: nat)
      requires lay.Ok() && 8 * bitset.data.Length == lay.PerBits() && Bounded(neighbors, lay.v)
      requires counter.Valid() && counter.lay == lay && WindowOk(lay, neighbors, Window(kind, first_idx, block_size))
      requires kind == FullHash ==> counter.hash_size > 0
      requires counter.hash_array as object != bitset.data
      modifies bitset.data
      ensures counter.hash_size > 0 ==> counter.hash_count <= counter.hash_size
      ensures score == Score(lay.v, neighbors, first_idx, block_size, kind, counter.hash_size, counter.hash_count)
      ensures if best < score
              then max == score && bitset.Bits() == WindowBits(lay, neighbors, Window(kind, first_idx, block_size))
              else max == best && bitset.Bits() == old(bitset.Bits())
    {
      hide BitsOf, Score, PartialBits, NonZero, Pow2, Span;
      score := counter.GetScore(neighbors, block_size, first_idx, kind);
      max := best;
      if best < score {
        max := score;
        IdsFit(lay, neighbors);
        var block := neighbors[first_idx..first_idx + block_size];
        var rest := neighbors[..first_idx] + neighbors[first_idx + block_size..];
        SetNonDecodable(block, rest, kind, bitset);
      }
    }

    /** One candidate, behind the windows tried so far. */
    method Try(neighbors: seq<nat>, best: nat, bitset: BitSetSIMD, counter: HashCount, w: Window,
               ghost tried: seq<Window>)
      returns (max: nat)
      requires lay.Ok() && 8 * bitset.data.Length == lay.PerBits() && Bounded(neighbors, lay.v)
      requires counter.Valid() && counter.lay == lay && counter.hash_array.Length == lay.PerBits()
      requires WindowOk(lay, neighbors, w) && counter.hash_array as object != bitset.data
      requires counter.hash_size + lay.HashBegin(w.size) == lay.PerBits()
      requires counter.hash_array[..] == Table(Counted(neighbors, w), counter.hash_size, lay.PerBits())
      requires Chosen(lay, neighbors, tried, best, bitset.Bits())
      modifies bitset.data
      ensures Chosen(lay, neighbors, tried + [w], max, bitset.Bits())
      ensures max >= best && (w.kind == LeftMost ==> max >= 1)
    {
      hide BitsOf, WindowBits, Chosen, NonZero, Pow2, Table, Outside, Counted;
      if w.kind == FullHash {
        SpanMono(1, lay.maxInt, lay.vb);
      }
      var score: nat;
      max, score := ChooseHighest(neighbors, best, bitset, counter, w.size, w.first, w.kind);
      CounterScores(lay, neighbors, w, counter.hash_size, counter.hash_count);
      ChosenStep(lay, neighbors, tried, best, old(bitset.Bits()), w);
    }

    /** The middle windows of one size, by sliding the counter from the leftmost one. */
    method TryMiddles(neighbors: seq<nat>, best: nat, bitset: BitSetSIMD, counter: HashCount, block_size: nat,
                      ghost tried: seq<Window>)
      returns (max: nat)
      requires lay.Ok() && 8 * bitset.data.Length == lay.PerBits() && Bounded(neighbors, lay.v) && best >= 1
      requires counter.Valid() && counter.lay == lay && counter.hash_array.Length == lay.PerBits()
      requires 2 <= block_size <= lay.maxInt && block_size < |neighbors| && counter.hash_array as object != bitset.data
      requires counter.hash_size + lay.HashBegin(block_size) == lay.PerBits()
      requires counter.hash_array[..] == Table(Outside(neighbors, 0, block_size), counter.hash_size, lay.PerBits())
      requires Chosen(lay, neighbors, tried, best, bitset.Bits())
      modifies bitset.data, counter`hash_count, counter.hash_array
      ensures counter.Valid() && max >= 1
      ensures counter.hash_array[..]
        == Table(Outside(neighbors, |neighbors| - block_size - 1, block_size), counter.hash_size, lay.PerBits())
      ensures Chosen(lay, neighbors, tried + Middles(|neighbors| - block_size - 1, block_size), max, bitset.Bits())
    {
      hide BitsOf, Chosen, NonZero, Pow2, Table, Span, Outside, Middles;
      var first_idx := 1;
      max := best;
      NoMiddles(tried, block_size);
      while first_idx <= |neighbors| - block_size - 1
        invariant 1 <= first_idx <= |neighbors| - block_size && max >= 1 && counter.Valid()
        invariant counter.hash_array[..]
          == Table(Outside(neighbors, first_idx - 1, block_size), counter.hash_size, lay.PerBits())
        invariant Chosen(lay, neighbors, tried + Middles(first_idx - 1, block_size), max, bitset.Bits())
      {
        counter.Slide(neighbors, first_idx - 1, block_size);
        ghost var done := tried + Middles(first_idx - 1, block_size);
        max := Try(neighbors, max, bitset, counter, Window(Middle, first_idx, block_size), done);
        MiddlesNext(tried, first_idx - 1, block_size);
        first_idx := first_idx + 1;
      }
    }

    /** All windows of one size: leftmost, the middle ones, rightmost. */
    method TrySize(neighbors: seq<nat>, best: nat, bitset: BitSetSIMD, counter: HashCount, block_size: nat,
                   ghost tried: seq<Window>)
      returns (max: nat)
      requires lay.Ok() && 8 * bitset.data.Length == lay.PerBits() && Bounded(neighbors, lay.v)
      requires counter.Valid() && counter.lay == lay && counter.hash_array.Length == lay.PerBits()
      requires 1 <= block_size <= lay.maxInt && block_size < |neighbors| && counter.hash_array as object != bitset.data
      requires Chosen(lay, neighbors, tried, best, bitset.Bits())
      modifies bitset.data, counter, counter.hash_array
      ensures counter.Valid()
      ensures Chosen(lay, neighbors, tried + SizeCandidates(|neighbors|, block_size), max, bitset.Bits()) && max >= 1
    {
      hide BitsOf, Chosen, NonZero, Pow2, Table, Span, Middles, SizeCandidates;
      var n := |neighbors|;
      ghost var first := Window(LeftMost, 0, block_size);
      lay.HashBeginWithin(block_size);
      counter.ReConstruct(neighbors, block_size, false);
      assert Outside(neighbors, 0, block_size) == neighbors[block_size..];
      SizeWindows(tried, n, block_size);
      max := Try(neighbors, best, bitset, counter, Window(LeftMost, 0, block_size), tried);
      if block_size == 1 {
        counter.ReConstruct(neighbors, block_size, true);
        max := Try(neighbors, max, bitset, counter, Window(RightMost, n - block_size, block_size), tried + [first]);
      } else {
        max := TryMiddles(neighbors, max, bitset, counter, block_size, tried + [first]);
        ghost var done := tried + [first] + Middles(n - block_size - 1, block_size);
        max := Try(neighbors, max, bitset, counter, Window(RightMost, n - block_size, block_size), done);
      }
    }

    /** Chooses the best-scoring window over all sizes and leaves its code in the vertex's buffer. */
    method DynamicChoose(vertex: nat, neighbors: seq<nat>) returns (count: nat)
      requires Valid() && vertex <= lay.v && Bounded(neighbors, lay.v) && |neighbors| > lay.maxCore
      modifies encodes[vertex].data
      ensures Chosen(lay, neighbors, Candidates(|neighbors|, lay.maxInt), count, Code(vertex)) && 1 <= count
    {
      hide BitsOf, NonZero, Pow2, Table, Span, WindowBits, Wins;
      var bitset := encodes[vertex];
      var counter := new HashCount(lay);
      lay.HashBeginWithin(0);
      counter.ReConstruct(neighbors, 0, false);
      assert Outside(neighbors, 0, 0) == neighbors[0..];
      count := Try(neighbors, 0, bitset, counter, Window(FullHash, 0, 0), []);
      assert [] + [Window(FullHash, 0, 0)] == Candidates(|neighbors|, 0);
      for block_size := 1 to lay.maxInt + 1
        invariant counter.Valid() && fresh(counter) && fresh(counter.hash_array)
        invariant Chosen(lay, neighbors, Candidates(|neighbors|, block_size - 1), count, bitset.Bits())
        invariant block_size > 1 ==> count >= 1
      {
        count := TrySize(neighbors, count, bitset, counter, block_size, Candidates(|neighbors|, block_size - 1));
      }
    }

    method EncodeVertex(vertex: nat, neighbors: seq<nat>)
      requires Valid() && vertex <= lay.v && Bounded(neighbors, lay.v)
      requires Code(vertex) == Zeros(lay.PerBits())
      modifies encodes[vertex].data
      ensures Encodes(lay, Code(vertex), neighbors)
    {
      hide BitsOf, NonZero, Pow2, WriteFields;
      if |neighbors| <= lay.maxCore {
        var encode := encodes[vertex];
        encode.SetOne(0);
        SpanMono(|neighbors|, lay.maxCore, lay.vb);
        IdsFit(lay, neighbors);
        WriteIds(encode, 1, neighbors);
      } else {
        var _ := DynamicChoose(vertex, neighbors);
      }
    }

    method FindIds(vertex: nat, begin: nat, num: nat, x: nat) returns (r: PairType)
      requires Valid() && vertex <= lay.v && begin + Span(num, lay.vb) <= lay.PerBits()
      ensures r == Search(hsimd, Fields(Code(vertex), begin, lay.vb, num), x)
    {
      if hsimd {
        r := encodes[vertex].BlockFindSIMD(begin, lay.vb, num, x);
      } else {
        r := encodes[vertex].BlockFind(begin, lay.vb, num, x);
      }
    }

    /** What the code of `vertex1` says about `vertex2`. */
    method NonNeighborTest(vertex1: nat, vertex2: nat) returns (r: PairType)
      requires Valid() && vertex1 <= lay.v && Readable(lay, Code(vertex1))
      ensures r == OneSided(lay, hsimd, Code(vertex1), vertex2)
    {
      hide BitsOf, Field, Fields, Scan, LaneScan, Pow2;
      var encode := encodes[vertex1];
      var decodable := encode.IsOne(0);
      if decodable {
        r := FindIds(vertex1, 1, lay.maxCore, vertex2);
        return;
      }
      var min, max := 0, lay.v + 1;
      var block_num := encode.BlockGet(3, lay.logK);
      lay.HashBeginWithin(block_num);
      var kind := GetBlockModel(encode);
      SpanIsProduct(block_num, lay.vb);
      var hash_begin := block_num * lay.vb + 3 + lay.logK;
      if kind != LeftMost {
        min := FirstId(encode, block_num);
      }
      if kind != RightMost {
        max := LastId(encode, block_num);
      }
      if vertex2 < min || vertex2 > max {
        r := HashTest(encode, hash_begin, vertex2);
      } else {
        r := FindIds(vertex1, lay.BlockBegin(), block_num, vertex2);
      }
    }

    method GetBlockModel(encode: BitSetSIMD) returns (kind: BlockType)
      requires encode.data.Length >= 1
      ensures kind == ReadKind(encode.Bits())
    {
      var second := encode.IsOne(1);
      var third := encode.IsOne(2);
      return if second then RightMost else if !third then LeftMost else Middle;
    }

    method FirstId(encode: BitSetSIMD, block_num: nat) returns (id: nat)
      requires lay.Shape() && 8 * encode.data.Length == lay.PerBits() && block_num <= lay.maxInt
      ensures lay.HashBegin(block_num) <= lay.PerBits()
      ensures var ids := Fields(encode.Bits(), lay.BlockBegin(), lay.vb, block_num);
        id == if block_num == 0 then 0 else ids[0]
    {
      hide Fields, Field, BitsOf, Pow2;
      lay.HashBeginWithin(block_num);
      if block_num == 0 {
        return 0;
      }
      FieldsAt(encode.Bits(), lay.BlockBegin(), lay.vb, block_num, 0);
      id := encode.BlockGet(3 + lay.logK, lay.vb);
    }

    method LastId(encode: BitSetSIMD, block_num: nat) returns (id: nat)
      requires lay.Shape() && 8 * encode.data.Length == lay.PerBits() && block_num <= lay.maxInt
      ensures lay.HashBegin(block_num) <= lay.PerBits()
      ensures var ids := Fields(encode.Bits(), lay.BlockBegin(), lay.vb, block_num);
        id == if block_num == 0 then 0 else ids[block_num - 1]
    {
      hide Fields, Field, BitsOf, Pow2;
      lay.HashBeginWithin(block_num);
      if block_num == 0 {
        return 0;
      }
      FieldsAt(encode.Bits(), lay.BlockBegin(), lay.vb, block_num, block_num - 1);
      SpanIsProduct(block_num - 1, lay.vb);
      id := encode.BlockGet(3 + lay.logK + (block_num - 1) * lay.vb, lay.vb);
    }

    method HashTest(encode: BitSetSIMD, hash_begin: nat, x: nat) returns (r: PairType)
      requires 8 * encode.data.Length == lay.PerBits() && hash_begin <= lay.PerBits()
      ensures r == if hash_begin
        == lay.PerBits() || encode.Bits()[HashPos(lay, x, hash_begin)] then Uncertain else NonNeighbor
    {
      if hash_begin == lay.PerBits() {
        return Uncertain;
      }
      var one := encode.IsOne(HashPos(lay, x, hash_begin));
      return if one then Uncertain else NonNeighbor;
    }

    /** The direct edge query. */
    method NEpairTest(v1: nat, v2: nat) returns (r: PairType)
      requires Valid() && v1 <= lay.v && v2 <= lay.v && Readable(lay, Code(v1)) && Readable(lay, Code(v2))
      ensures r == PairAnswer(lay, hsimd, Code(v1), Code(v2), v1, v2)
    {
      hide OneSided, BitsOf, Field, Pow2, Span;
      var vertex1, vertex2 := v1, v2;
      var type1 := encodes[v1].IsOne(0);
      var type2 := encodes[v2].IsOne(0);
      if !type1 && type2 {
        type1, type2 := type2, type1;
        vertex1, vertex2 := vertex2, vertex1;
      }
      r := NonNeighborTest(vertex1, vertex2);
      if !(type1 && !type2) {
        var r2 := NonNeighborTest(vertex2, vertex1);
        r := MinAnswer(r, r2);
      }
    }

    method Decode(vertex: nat) returns (info: DecodeInfo)
      requires Valid() && vertex <= lay.v && Readable(lay, Code(vertex))
      ensures info == DecodeOf(lay, Code(vertex))
    {
      hide BitsOf, Field, Fields, Pow2, And;
      var encode := encodes[vertex];
      var decodable := encode.IsOne(0);
      if decodable {
        return DecodeInfo(true, 0, 0, 0, 0);
      }
      var block_num := encode.BlockGet(3, lay.logK);
      if block_num == 0 {
        return DecodeInfo(false, 0, lay.BlockBegin(), 0, 0);
      }
      var kind := GetBlockModel(encode);
      var min, max := 0, lay.v + 1;
      if And(TypeCode(kind), 0x0d, 4) != 0 {
        min := FirstId(encode, block_num);
      }
      if And(TypeCode(kind), 0x0b, 4) != 0 {
        max := LastId(encode, block_num);
      }
      SpanIsProduct(block_num, lay.vb);
      return DecodeInfo(false, block_num, lay.BlockBegin() + block_num * lay.vb, min, max);
    }

    method NonNeighborTestDecoded(vertex1: nat, info: DecodeInfo, vertex2: nat) returns (r: PairType)
      requires Valid() && vertex1 <= lay.v && vertex2 < 0x1_0000_0000 && Decoded(lay, Code(vertex1), info)
      ensures r == StagedOneSided(lay, Code(vertex1), info, vertex2)
    {
      hide BitsOf, Field, Scan, LaneScan, Pow2, And;
      var encode := encodes[vertex1];
      if info.decodable {
        r := encode.BlockFind(1, lay.vb, lay.maxCore, vertex2);
      } else if Sub32(vertex2, info.min) <= Sub32(info.max, info.min) {
        lay.HashBeginWithin(info.block_num);
        r := encode.BlockFind(lay.BlockBegin(), lay.vb, info.block_num, vertex2);
      } else {
        lay.HashBeginWithin(info.block_num);
        r := HashTest(encode, info.hash_begin, vertex2);
      }
    }

    /** The edge query over headers decoded beforehand. */
    method NEpairTestDecoded(vertex1: nat, info1: DecodeInfo, vertex2: nat, info2: DecodeInfo) returns (r: PairType)
      requires Valid() && vertex1 <= lay.v && vertex2 <= lay.v
      requires Decoded(lay, Code(vertex1), info1) && Decoded(lay, Code(vertex2), info2)
      ensures r == StagedPair(lay, Code(vertex1), info1, Code(vertex2), info2, vertex1, vertex2)
    {
      hide BitsOf, StagedOneSided, Decoded, Pow2, Span;
      if info1.decodable && !info2.decodable {
        r := NonNeighborTestDecoded(vertex1, info1, vertex2);
      } else if !info1.decodable && info2.decodable {
        r := NonNeighborTestDecoded(vertex2, info2, vertex1);
      } else if info1.decodable && info2.decodable {
        r := NonNeighborTestDecoded(vertex1, info1, vertex2);
        if And(PairCode(r), 0x01, 4) != 0 {
          return Neighbor;
        }
        r := NonNeighborTestDecoded(vertex2, info2, vertex1);
      } else {
        r := NonNeighborTestDecoded(vertex1, info1, vertex2);
        if And(PairCode(r), 0x03, 4) == 0 {
          r := NonNeighborTestDecoded(vertex2, info2, vertex1);
        }
      }
    }
  }
}
