/** The hybrid code of one vertex as a bit string, and what the one-sided test answers on it. */
module HybridCode {
  import opened Common
  import opened Bits
  import opened BitSet
  import opened Config
  import opened HashCounting

  function Zeros(n: nat): (s: seq<bool>)
    ensures |s| == n
  {
    seq(n, _ => false)
  }

  function KindCode(kind: BlockType): nat {
    match kind
    case LeftMost => 0
    case FullHash => 1
    case Middle => 1
    case RightMost => 3
  }

  /** What the two model bits are read as. */
  function ReadKind(bits: seq<bool>): BlockType
    requires |bits| >= 3
  {
    if bits[1] then RightMost else if !bits[2] then LeftMost else Middle
  }

  /** The bit an id hashes to behind `hashBegin`. */
  function HashPos(lay: Layout, id: nat, hashBegin: nat): (p: nat)
    requires hashBegin < lay.PerBits()
    ensures hashBegin <= p < lay.PerBits()
  {
    Slot(id, lay.PerBits() - hashBegin) + hashBegin
  }

  /** A buffer whose stored block lies inside it. */
  ghost predicate Readable(lay: Layout, bits: seq<bool>) {
    && lay.Shape()
    && |bits| == lay.PerBits()
    && lay.BlockBegin() <= lay.PerBits()
    && (bits[0] || Field(bits, 3, lay.logK) <= lay.maxInt)
  }

  function Search(simd: bool, fields: seq<nat>, x: nat): PairType {
    if simd then LaneScan(fields, x) else Scan(fields, x)
  }

  function StoredIds(lay: Layout, bits: seq<bool>): (r: seq<nat>)
    requires Readable(lay, bits)
  {
    if bits[0] then Fields(bits, 1, lay.vb, lay.maxCore)
    else
      lay.HashBeginWithin(Field(bits, 3, lay.logK));
      Fields(bits, lay.BlockBegin(), lay.vb, Field(bits, 3, lay.logK))
  }

  /** The hash part's answer: an empty slot excludes, anything else decides nothing. */
  function HashAnswer(lay: Layout, bits: seq<bool>, n: nat, x: nat): (r: PairType)
    requires |bits| == lay.PerBits() && lay.HashBegin(n) <= lay.PerBits()
    ensures r != Neighbor
  {
    if lay.HashBegin(n) == lay.PerBits() || bits[HashPos(lay, x, lay.HashBegin(n))] then Uncertain else NonNeighbor
  }

  /** The one-sided test: what the code of one vertex says about id `x`. */
  function OneSided(lay: Layout, simd: bool, bits: seq<bool>, x: nat): PairType
    requires Readable(lay, bits)
  {
    var ids := StoredIds(lay, bits);
    if bits[0] then Search(simd, ids, x)
    else
      var n := |ids|;
      lay.HashBeginWithin(n);
      var kind := ReadKind(bits);
      var min := if kind == LeftMost || n == 0 then 0 else ids[0];
      var max := if kind == RightMost then lay.v + 1 else if n == 0 then 0 else ids[n - 1];
      if x < min || x > max then HashAnswer(lay, bits, n, x) else Search(simd, ids, x)
  }

  /** A fully decodable code: the flag, the ids, zeros. */
  function FullBits(lay: Layout, ids: seq<nat>): (r: seq<bool>)
    requires lay.Shape() && |ids| <= lay.maxCore
    ensures |r| == lay.PerBits()
  {
    SpanMono(|ids|, lay.maxCore, lay.vb);
    WriteFields(Splice(Zeros(lay.PerBits()), 0, [true]), 1, lay.vb, ids)
  }

  function SetHashes(lay: Layout, bits: seq<bool>, hashBegin: nat, keys: seq<nat>): (r: seq<bool>)
    requires |bits| == lay.PerBits() && hashBegin < lay.PerBits()
    ensures |r| == |bits|
    decreases |keys|
  {
    if keys == [] then bits
    else
      var n := |keys| - 1;
      Splice(SetHashes(lay, bits, hashBegin, keys[..n]), HashPos(lay, keys[n], hashBegin), [true])
  }

  /** The header of a partial code: flag off, block model, block size. */
  function Header(per: nat, kind: BlockType, n: nat, logK: nat): (r: seq<bool>)
    requires 3 + logK <= per
    ensures |r| == per
  {
    Splice(Splice(Splice(Zeros(per), 0, [false]), 1, ToBits(KindCode(kind), 2)), 3, ToBits(n, logK))
  }

  function HeaderBits(lay: Layout, kind: BlockType, n: nat): (r: seq<bool>)
    requires lay.Shape() && n <= lay.maxInt
    ensures |r| == lay.PerBits()
  {
    lay.HashBeginWithin(n);
    Header(lay.PerBits(), kind, n, lay.logK)
  }

  /** A partial code: header, the block's ids, and a set bit for every id left over. */
  function PartialBits(lay: Layout, kind: BlockType, block: seq<nat>, rest: seq<nat>): (r: seq<bool>)
    requires lay.Shape() && |block| <= lay.maxInt
    ensures |r| == lay.PerBits()
  {
    lay.HashBeginWithin(|block|);
    var bits := WriteFields(HeaderBits(lay, kind, |block|), lay.BlockBegin(), lay.vb, block);
    if lay.HashBegin(|block|) == lay.PerBits() then bits else SetHashes(lay, bits, lay.HashBegin(|block|), rest)
  }

  lemma {:induction false} SetHashesAt(lay: Layout, bits: seq<bool>, hashBegin: nat, keys: seq<nat>, p: nat)
    requires |bits| == lay.PerBits() && hashBegin < lay.PerBits() && p < |bits|
    ensures SetHashes(lay, bits, hashBegin, keys)[p]
            <==> bits[p] || exists i :: 0 <= i < |keys| && HashPos(lay, keys[i], hashBegin) == p
    decreases |keys|
  {
    if keys != [] {
      var n := |keys| - 1;
      var front := keys[..n];
      SetHashesAt(lay, bits, hashBegin, front, p);
      if i :| 0 <= i < |keys| && HashPos(lay, keys[i], hashBegin) == p {
        assert i < n ==> front[i] == keys[i];
      }
      if i :| 0 <= i < |front| && HashPos(lay, front[i], hashBegin) == p {
        assert keys[i] == front[i];
      }
    }
  }

  /** What a partial code reads back as. */
  lemma PartialReads(lay: Layout, kind: BlockType, block: seq<nat>, rest: seq<nat>)
    requires lay.Shape() && |block| <= lay.maxInt
    requires forall i :: 0 <= i < |block| ==> block[i] < Pow2(lay.vb)
    ensures var bits := PartialBits(lay, kind, block, rest);
      && Readable(lay, bits) && !bits[0] && StoredIds(lay, bits) == block
      && ReadKind(bits) == if kind == FullHash then Middle else kind
  {
    var h, n, b := HeaderBits(lay, kind, |block|), |block|, lay.BlockBegin();
    lay.HashBeginWithin(n);
    var w := WriteFields(h, b, lay.vb, block);
    var bits := PartialBits(lay, kind, block, rest);
    HeaderReads(lay, kind, n);
    WriteFieldsOutside(h, b, lay.vb, block);
    WriteFieldsRead(h, b, lay.vb, block);
    assert forall p :: 0 <= p < lay.HashBegin(n) ==> bits[p] == w[p] by {
      if lay.HashBegin(n) < lay.PerBits() {
        forall p | 0 <= p < lay.HashBegin(n) ensures bits[p] == w[p] {
          SetHashesAt(lay, w, lay.HashBegin(n), rest, p);
        }
      }
    }
    FieldSameBits(h, bits, 3, lay.logK);
    FieldsSameBits(w, bits, b, lay.vb, n);
  }

  lemma FieldSameBits(s: seq<bool>, r: seq<bool>, begin: nat, size: nat)
    requires begin + size <= |s| == |r|
    requires forall p :: begin <= p < begin + size ==> s[p] == r[p]
    ensures Field(s, begin, size) == Field(r, begin, size)
  {
    assert s[begin..begin + size] == r[begin..begin + size];
  }

  lemma HeaderReads(lay: Layout, kind: BlockType, n: nat)
    requires lay.Shape() && n <= lay.maxInt
    ensures var h := HeaderBits(lay, kind, n);
      && !h[0] && Field(h, 3, lay.logK) == n
      && ReadKind(h) == (if kind == FullHash then Middle else kind)
      && forall p :: lay.BlockBegin() <= p < |h| ==> !h[p]
  {
    lay.HashBeginWithin(n);
    HeaderFields(lay.PerBits(), kind, n, lay.logK);
  }

  lemma HeaderFields(per: nat, kind: BlockType, n: nat, logK: nat)
    requires 3 + logK <= per && n < Pow2(logK)
    ensures var h := Header(per, kind, n, logK);
      && !h[0] && Field(h, 3, logK) == n
      && ReadKind(h) == (if kind == FullHash then Middle else kind)
      && forall p :: 3 + logK <= p < |h| ==> !h[p]
  {
    KindBits(kind);
    hide ToBits, Field, Pow2, KindCode, Splice, Zeros;
    var flag, model, size := [false], ToBits(KindCode(kind), 2), ToBits(n, logK);
    var z := Splice(Zeros(per), 0, flag);
    var s := Splice(z, 1, model);
    var h := Splice(s, 3, size);
    ReadBack(s, 3, logK, n);
    forall p | 0 <= p < per && !(3 <= p < 3 + logK)
      ensures h[p] == if p == 1 then kind == RightMost else p == 2 && kind != LeftMost
    {
      ZerosAt(per, p);
      SpliceAt(Zeros(per), 0, flag, p);
      SpliceAt(z, 1, model, p);
      SpliceAt(s, 3, size, p);
    }
    assert !h[0] && h[1] == (kind == RightMost) && h[2] == (kind != LeftMost);
  }

  lemma ZerosAt(n: nat, p: nat)
    requires p < n
    ensures !Zeros(n)[p]
  {
  }

  lemma KindBits(kind: BlockType)
    ensures ToBits(KindCode(kind), 2) == [kind == RightMost, kind != LeftMost]
  {
    assert ToBits(0, 2) == [false, false];
    assert ToBits(1, 2) == [false, true];
    assert ToBits(3, 2) == [true, true];
  }

  /** A contiguous window of a neighbour list; its kind says which end of the id range it reaches. */
  datatype Window = Window(kind: BlockType, first: nat, size: nat)

  ghost predicate WindowOk(lay: Layout, neighbors: seq<nat>, w: Window) {
    && w.size <= lay.maxInt && w.first + w.size <= |neighbors|
    && (w.kind == FullHash <==> w.size == 0)
    && (w.kind == LeftMost ==> w.first == 0)
    && (w.kind == RightMost ==> w.first >= 1 && w.first + w.size == |neighbors|)
  }

  function WindowBits(lay: Layout, neighbors: seq<nat>, w: Window): (r: seq<bool>)
    requires lay.Shape() && WindowOk(lay, neighbors, w)
    ensures |r| == lay.PerBits()
  {
    PartialBits(lay, w.kind, neighbors[w.first..w.first + w.size], Outside(neighbors, w.first, w.size))
  }

  lemma IdsFit(lay: Layout, neighbors: seq<nat>)
    requires lay.Ok() && Bounded(neighbors, lay.v)
    ensures forall i :: 0 <= i < |neighbors| ==> neighbors[i] < Pow2(lay.vb)
  {
  }

  lemma SearchExact(simd: bool, ids: seq<nat>, n: nat, x: nat)
    requires ZeroTailed(ids, n) && x >= 1
    ensures Search(simd, ids, x) == if x in ids then Neighbor else NonNeighbor
  {
    ScanExact(ids, n, x);
  }

  /** Entries of a sorted list that lie between the ends of a window are in the window. */
  lemma WindowCaptures(neighbors: seq<nat>, v: nat, w: Window, x: nat)
    requires Bounded(neighbors, v) && w.first + w.size <= |neighbors| && w.size >= 1
    requires w.kind == LeftMost ==> w.first == 0
    requires w.kind == RightMost ==> w.first + w.size == |neighbors|
    requires w.kind != LeftMost ==> neighbors[w.first] <= x
    requires w.kind != RightMost ==> x <= neighbors[w.first + w.size - 1]
    ensures x in neighbors <==> x in neighbors[w.first..w.first + w.size]
  {
    var block := neighbors[w.first..w.first + w.size];
    if x in neighbors {
      var i :| 0 <= i < |neighbors| && neighbors[i] == x;
      assert w.first <= i < w.first + w.size;
      assert block[i - w.first] == x;
    }
  }

  lemma OutsideCaptures(neighbors: seq<nat>, first: nat, size: nat, x: nat)
    requires first + size <= |neighbors| && x in neighbors && x !in neighbors[first..first + size]
    ensures x in Outside(neighbors, first, size)
  {
    assert neighbors == neighbors[..first] + neighbors[first..first + size] + neighbors[first + size..];
  }

  predicate InRange(kind: BlockType, block: seq<nat>, x: nat) {
    && block != []
    && (kind == LeftMost || block[0] <= x)
    && (kind == RightMost || x <= block[|block| - 1])
  }

  /** On a partial code the test searches the block or the hash part, by the block's value range. */
  lemma PartialAnswer(lay: Layout, simd: bool, kind: BlockType, block: seq<nat>, rest: seq<nat>, x: nat)
    requires lay.Shape() && |block| <= lay.maxInt && 1 <= x <= lay.v && (kind == FullHash <==> block == [])
    requires forall i :: 0 <= i < |block| ==> block[i] < Pow2(lay.vb)
    ensures var bits := PartialBits(lay, kind, block, rest);
      && Readable(lay, bits) && !bits[0] && lay.HashBegin(|block|) <= lay.PerBits()
      && OneSided(lay, simd, bits, x)
         == if InRange(kind, block, x) then Search(simd, block, x) else HashAnswer(lay, bits, |block|, x)
  {
    PartialReads(lay, kind, block, rest);
    lay.HashBeginWithin(|block|);
    hide PartialBits, StoredIds, HashAnswer, Search, Field, Readable;
  }

  lemma HashPartBlank(lay: Layout, kind: BlockType, block: seq<nat>, p: nat)
    requires lay.Shape() && |block| <= lay.maxInt && lay.HashBegin(|block|) <= p < lay.PerBits()
    ensures !WriteFields(HeaderBits(lay, kind, |block|), lay.BlockBegin(), lay.vb, block)[p]
  {
    HeaderReads(lay, kind, |block|);
    hide HeaderBits;
    WriteFieldsOutside(HeaderBits(lay, kind, |block|), lay.BlockBegin(), lay.vb, block);
  }

  lemma HashBitTaken(lay: Layout, kind: BlockType, block: seq<nat>, rest: seq<nat>, slot: nat)
    requires lay.Shape() && |block| <= lay.maxInt && lay.HashBegin(|block|) + slot < lay.PerBits()
    ensures var hb := lay.HashBegin(|block|);
      PartialBits(lay, kind, block, rest)[hb + slot] <==> Occ(rest, lay.PerBits() - hb, slot) > 0
  {
    hide HeaderBits, WriteFields, SetHashes, Occ, Slot, Pow2, Span;
    var hb := lay.HashBegin(|block|);
    var w := WriteFields(HeaderBits(lay, kind, |block|), lay.BlockBegin(), lay.vb, block);
    HashPartBlank(lay, kind, block, hb + slot);
    SetHashesAt(lay, w, hb, rest, hb + slot);
    OccPositive(rest, lay.PerBits() - hb, slot);
    assert forall i :: 0 <= i < |rest| ==> HashPos(lay, rest[i], hb) == Slot(rest[i], lay.PerBits() - hb) + hb;
  }

  /** A hash bit is on exactly when some left-over id leaves its slot as the remainder modulo the size of the part. */
  lemma HashBitAt(lay: Layout, kind: BlockType, block: seq<nat>, rest: seq<nat>, slot: nat)
    requires lay.Shape() && |block| <= lay.maxInt && lay.HashBegin(|block|) + slot < lay.PerBits()
    ensures var hb := lay.HashBegin(|block|);
      PartialBits(lay, kind, block, rest)[hb + slot] <==> Taken(rest, lay.PerBits() - hb, slot)
  {
    hide *;
    HashBitTaken(lay, kind, block, rest, slot);
    OccResidue(rest, lay.PerBits() - lay.HashBegin(|block|), slot);
  }

  /** The hash part excludes an id exactly when no left-over id is congruent to it modulo the size of the part. */
  lemma HashAnswerIs(lay: Layout, kind: BlockType, block: seq<nat>, rest: seq<nat>, x: nat)
    requires lay.Shape() && |block| <= lay.maxInt
    ensures lay.HashBegin(|block|) <= lay.PerBits()
    ensures var h := lay.PerBits() - lay.HashBegin(|block|);
      HashAnswer(lay, PartialBits(lay, kind, block, rest), |block|, x)
      == if h > 0 && !Taken(rest, h, x % h) then NonNeighbor else Uncertain
  {
    lay.HashBeginWithin(|block|);
    hide *;
    var h := lay.PerBits() - lay.HashBegin(|block|);
    HashAnswerBit(lay, PartialBits(lay, kind, block, rest), |block|, x);
    if h > 0 {
      HashBitAt(lay, kind, block, rest, x % h);
    }
  }

  lemma HashAnswerBit(lay: Layout, bits: seq<bool>, n: nat, x: nat)
    requires |bits| == lay.PerBits() && lay.HashBegin(n) <= lay.PerBits()
    ensures var h := lay.PerBits() - lay.HashBegin(n);
      HashAnswer(lay, bits, n, x) == if h == 0 || bits[lay.HashBegin(n) + x % h] then Uncertain else NonNeighbor
  {
    hide Span;
  }

  /**
   * The one-sided answer on a stored window, for every kind of window and every id: exact by membership in its value
   * range, and elsewhere NonNeighbor exactly when the id's residue is free of left-over ids.
   */
  lemma WindowAnswer(lay: Layout, simd: bool, neighbors: seq<nat>, w: Window, x: nat)
    requires lay.Ok() && Bounded(neighbors, lay.v) && WindowOk(lay, neighbors, w) && 1 <= x <= lay.v
    ensures Readable(lay, WindowBits(lay, neighbors, w)) && !WindowBits(lay, neighbors, w)[0]
    ensures lay.HashBegin(w.size) <= lay.PerBits()
    ensures var out, h := Outside(neighbors, w.first, w.size), lay.PerBits() - lay.HashBegin(w.size);
      OneSided(lay, simd, WindowBits(lay, neighbors, w), x)
      == if w.size > 0 && (w.kind == LeftMost || neighbors[w.first] <= x)
           && (w.kind == RightMost || x <= neighbors[w.first + w.size - 1])
         then if x in neighbors then Neighbor else NonNeighbor
         else if h > 0 && !Taken(out, h, x % h) then NonNeighbor
         else Uncertain
  {
    hide HashAnswer, HashPos, PartialBits, OneSided, Outside, Search, Readable;
    var block, rest := neighbors[w.first..w.first + w.size], Outside(neighbors, w.first, w.size);
    IdsFit(lay, neighbors);
    assert WindowBits(lay, neighbors, w) == PartialBits(lay, w.kind, block, rest);
    PartialAnswer(lay, simd, w.kind, block, rest, x);
    assert w.size > 0 ==> block[0] == neighbors[w.first] && block[|block| - 1] == neighbors[w.first + w.size - 1];
    if InRange(w.kind, block, x) {
      SearchExact(simd, block, |block|, x);
      WindowCaptures(neighbors, lay.v, w, x);
    } else {
      HashAnswerIs(lay, w.kind, block, rest, x);
    }
  }

  /** Whichever window was stored, the one-sided test never contradicts the list. */
  lemma PartialSound(lay: Layout, simd: bool, neighbors: seq<nat>, w: Window, x: nat)
    requires lay.Ok() && Bounded(neighbors, lay.v) && WindowOk(lay, neighbors, w) && 1 <= x <= lay.v
    ensures Readable(lay, WindowBits(lay, neighbors, w)) && !WindowBits(lay, neighbors, w)[0]
    ensures Truthful(OneSided(lay, simd, WindowBits(lay, neighbors, w), x), x, neighbors)
  {
    hide WindowBits, OneSided, Outside, Readable;
    WindowAnswer(lay, simd, neighbors, w, x);
    BlockInRange(neighbors, lay.v, w, x);
    if x in neighbors && x !in neighbors[w.first..w.first + w.size] {
      OutsideCaptures(neighbors, w.first, w.size, x);
    }
  }

  lemma BlockInRange(neighbors: seq<nat>, v: nat, w: Window, x: nat)
    requires Bounded(neighbors, v) && w.first + w.size <= |neighbors|
    ensures x in neighbors[w.first..w.first + w.size] ==>
      && w.size > 0 && (w.kind == LeftMost || neighbors[w.first] <= x)
      && (w.kind == RightMost || x <= neighbors[w.first + w.size - 1])
  {
    var block := neighbors[w.first..w.first + w.size];
    if i :| 0 <= i < |block| && block[i] == x {
      assert neighbors[w.first + i] == x;
    }
  }

  lemma FullReads(lay: Layout, ids: seq<nat>)
    requires lay.Ok() && |ids| <= lay.maxCore && Bounded(ids, lay.v)
    ensures var bits := FullBits(lay, ids);
      && Readable(lay, bits) && bits[0]
      && StoredIds(lay, bits) == ids + seq(lay.maxCore - |ids|, _ => 0)
  {
    lay.HashBeginWithin(0);
    IdsFit(lay, ids);
    var s := Splice(Zeros(lay.PerBits()), 0, [true]);
    SpanMono(|ids|, lay.maxCore, lay.vb);
    WriteOverBlank(s, 1, lay.vb, ids, lay.maxCore);
    WriteFieldsOutside(s, 1, lay.vb, ids);
  }

  /** A decodable code answers exactly by membership. */
  lemma FullExact(lay: Layout, simd: bool, ids: seq<nat>, x: nat)
    requires lay.Ok() && |ids| <= lay.maxCore && Bounded(ids, lay.v) && 1 <= x <= lay.v
    ensures Readable(lay, FullBits(lay, ids)) && FullBits(lay, ids)[0]
    ensures OneSided(lay, simd, FullBits(lay, ids), x) == if x in ids then Neighbor else NonNeighbor
  {
    FullReads(lay, ids);
    var all := ids + seq(lay.maxCore - |ids|, _ => 0);
    SearchExact(simd, all, |ids|, x);
  }

  /** With a power-of-two vertex count no decodable code can hold the top id. */
  lemma TopIdLost(lay: Layout, simd: bool, bits: seq<bool>)
    requires Readable(lay, bits) && bits[0] && lay.v == Pow2(lay.vb)
    ensures OneSided(lay, simd, bits, lay.v) == NonNeighbor
  {
    var ids := StoredIds(lay, bits);
    forall t | 0 <= t < |ids|
      ensures ids[t] < lay.v
    {
      FieldsAt(bits, 1, lay.vb, lay.maxCore, t);
    }
    ScanBelow(ids, lay.v);
  }

  lemma {:induction false} ScanBelow(fields: seq<nat>, value: nat)
    requires forall i :: 0 <= i < |fields| ==> fields[i] < value
    ensures Scan(fields, value) == NonNeighbor
  {
    if fields != [] {
      ScanBelow(fields[1..], value);
    }
  }

  /** A buffer from which every id is answered exactly by membership in `ids`. */
  ghost predicate Exact(lay: Layout, bits: seq<bool>, ids: seq<nat>) {
    && Readable(lay, bits) && bits[0]
    && forall x, simd {:trigger OneSided(lay, simd, bits, x)} ::
      1 <= x <= lay.v ==> OneSided(lay, simd, bits, x) == if x in ids then Neighbor else NonNeighbor
  }

  /** Every short list has an exact decodable code if and only if the vertex count is no power of two. */
  lemma DecodableIff(k: nat, v: nat)
    requires 1 <= k <= 64 && 2 <= v < 0xFFFF_FFFF
    ensures var lay := InitCommonVariables(k, v);
      lay.maxInt >= 1 ==> (!IsPowerOfTwo(v) <==>
      forall ids: seq<nat> :: Bounded(ids, lay.v) && |ids| <= lay.maxCore ==> exists bits :: Exact(lay, bits, ids))
  {
    hide *;
    InitOk(k, v);
    if InitCommonVariables(k, v).maxInt >= 1 {
      FieldsHoldIds(InitCommonVariables(k, v));
      SameCount(k, v);
    }
  }

  lemma SameCount(k: nat, v: nat)
    requires 1 <= k && 2 <= v
    ensures InitCommonVariables(k, v).v == v
  {
  }

  lemma FieldsHoldIds(lay: Layout)
    requires lay.Shape()
    ensures lay.Ok() <==>
      forall ids: seq<nat> :: Bounded(ids, lay.v) && |ids| <= lay.maxCore ==> exists bits :: Exact(lay, bits, ids)
  {
    if lay.v != Pow2(lay.vb) {
      forall ids: seq<nat> | Bounded(ids, lay.v) && |ids| <= lay.maxCore
        ensures exists bits :: Exact(lay, bits, ids)
      {
        FullReads(lay, ids);
        var bits := FullBits(lay, ids);
        forall x, simd | 1 <= x <= lay.v {
          FullExact(lay, simd, ids, x);
        }
        assert Exact(lay, bits, ids);
      }
    } else {
      var ids: seq<nat> := [lay.v];
      assert Bounded(ids, lay.v);
      forall bits
        ensures !Exact(lay, bits, ids)
      {
        if Readable(lay, bits) && bits[0] {
          TopIdLost(lay, false, bits);
        }
      }
    }
  }

  function CountTrue(s: seq<bool>): nat {
    if s == [] then 0 else CountTrue(s[..|s| - 1]) + (if s[|s| - 1] then 1 else 0)
  }

  lemma {:induction false} CountsAgree(s: seq<bool>, a: seq<nat>)
    requires |s| == |a| && forall i :: 0 <= i < |s| ==> (s[i] <==> a[i] > 0)
    ensures CountTrue(s) == NonZero(a)
  {
    if s != [] {
      CountsAgree(s[..|s| - 1], a[..|a| - 1]);
    }
  }

  /** The number of occupied slots of the left-over ids is the number of hash bits the code sets. */
  lemma HashBitsCounted(lay: Layout, kind: BlockType, block: seq<nat>, rest: seq<nat>)
    requires lay.Shape() && |block| <= lay.maxInt && lay.HashBegin(|block|) < lay.PerBits()
    ensures var hb := lay.HashBegin(|block|);
      CountTrue(PartialBits(lay, kind, block, rest)[hb..])
        == NonZero(Table(rest, lay.PerBits() - hb, lay.PerBits() - hb))
  {
    hide PartialBits, Occ, NonZero, CountTrue;
    var hb := lay.HashBegin(|block|);
    var h := lay.PerBits() - hb;
    var bits, table := PartialBits(lay, kind, block, rest)[hb..], Table(rest, h, h);
    forall slot | 0 <= slot < h
      ensures bits[slot] <==> table[slot] > 0
    {
      HashBitTaken(lay, kind, block, rest, slot);
    }
    CountsAgree(bits, table);
  }

  /**
   * What the counter has counted when a window is scored: the entries outside it, except that the counter is not slid
   * to the rightmost window, and that the rebuild for the rightmost single entry stops one entry short.
   */
  function Counted(neighbors: seq<nat>, w: Window): seq<nat>
    requires w.first + w.size <= |neighbors| && (w.kind == RightMost ==> w.first >= 1)
  {
    if w.kind != RightMost then Outside(neighbors, w.first, w.size)
    else if w.size == 1 then neighbors[..w.first - 1]
    else Outside(neighbors, w.first - 1, w.size)
  }

  /** The score a window is given. */
  ghost function WindowScore(lay: Layout, neighbors: seq<nat>, w: Window): (r: nat)
    requires lay.Shape() && Bounded(neighbors, lay.v) && WindowOk(lay, neighbors, w)
    ensures r <= lay.v + 1
  {
    lay.HashBeginWithin(w.size);
    var h := lay.PerBits() - lay.HashBegin(w.size);
    Score(lay.v, neighbors, w.first, w.size, w.kind, h, NonZero(Table(Counted(neighbors, w), h, h)))
  }

  /** It is the number of ids the window decides, by the table of what is counted for it. */
  lemma WindowScoreCounts(lay: Layout, neighbors: seq<nat>, w: Window)
    requires lay.Shape() && Bounded(neighbors, lay.v) && WindowOk(lay, neighbors, w)
    ensures lay.HashBegin(w.size) <= lay.PerBits()
    ensures var h := lay.PerBits() - lay.HashBegin(w.size);
      WindowScore(lay, neighbors, w)
      == Decided(lay.v, neighbors, w.first, w.size, w.kind, Table(Counted(neighbors, w), h, h))
  {
    lay.HashBeginWithin(w.size);
    hide Table, NonZero, Score, Decided, Counted;
    var h := lay.PerBits() - lay.HashBegin(w.size);
    var t := Table(Counted(neighbors, w), h, h);
    ScoreCounts(lay.v, neighbors, w.first, w.size, w.kind, t, NonZero(t));
  }

  lemma NonZeroAdd(keys: seq<nat>, key: nat, h: nat)
    requires h >= 1
    ensures NonZero(Table(keys, h, h)) <= NonZero(Table(keys + [key], h, h)) <= NonZero(Table(keys, h, h)) + 1
  {
    TableAdd(keys, key, h, h);
    NonZeroUpdate(Table(keys, h, h), Slot(key, h), Occ(keys, h, Slot(key, h)) + 1);
  }

  /** The slots counted for a window are those its code sets, and off by at most one for a rightmost window. */
  lemma CountedSlots(neighbors: seq<nat>, w: Window, h: nat)
    requires w.first + w.size <= |neighbors| && h >= 1
    requires w.kind == RightMost ==> w.first >= 1 && w.size >= 1 && w.first + w.size == |neighbors|
    ensures var used, exact := NonZero(Table(Counted(neighbors, w), h, h)),
      NonZero(Table(Outside(neighbors, w.first, w.size), h, h));
      && (w.kind != RightMost ==> used == exact)
      && exact - 1 <= used <= exact + 1
  {
    hide Table, NonZero, Slot;
    if w.kind == RightMost {
      var front := neighbors[..w.first - 1];
      assert Outside(neighbors, w.first, w.size) == front + [neighbors[w.first - 1]];
      NonZeroAdd(front, neighbors[w.first - 1], h);
      if w.size > 1 {
        assert Outside(neighbors, w.first - 1, w.size) == front + [neighbors[|neighbors| - 1]];
        NonZeroAdd(front, neighbors[|neighbors| - 1], h);
      }
    }
  }

  /** `bits` encodes the first of the windows tried with the highest score, and `best` is that score. */
  ghost predicate Chosen(lay: Layout, neighbors: seq<nat>, tried: seq<Window>, best: nat, bits: seq<bool>)
    requires lay.Shape() && Bounded(neighbors, lay.v)
  {
    && (forall j :: 0 <= j < |tried| ==>
      WindowOk(lay, neighbors, tried[j]) && WindowScore(lay, neighbors, tried[j]) <= best)
    && (best > 0 ==> exists k :: 0 <= k < |tried| && Wins(lay, neighbors, tried, k, best, bits))
  }

  ghost predicate Wins(lay: Layout, neighbors: seq<nat>, tried: seq<Window>, k: nat, best: nat, bits: seq<bool>)
    requires lay.Shape() && Bounded(neighbors, lay.v) && k < |tried|
  {
    && WindowOk(lay, neighbors, tried[k]) && WindowScore(lay, neighbors, tried[k]) == best
    && bits == WindowBits(lay, neighbors, tried[k])
    && forall j :: 0 <= j < k ==> WindowOk(lay, neighbors, tried[j]) && WindowScore(lay, neighbors, tried[j]) < best
  }

  /** One more window replaces the choice only by a strictly higher score. */
  lemma ChosenStep(lay: Layout, neighbors: seq<nat>, tried: seq<Window>, best: nat, bits: seq<bool>, w: Window)
    requires lay.Shape() && Bounded(neighbors, lay.v) && Chosen(lay, neighbors, tried, best, bits)
    requires WindowOk(lay, neighbors, w)
    ensures var score := WindowScore(lay, neighbors, w);
      if best < score then Chosen(lay, neighbors, tried + [w], score, WindowBits(lay, neighbors, w))
      else Chosen(lay, neighbors, tried + [w], best, bits)
  {
    hide WindowBits, WindowScore, WindowOk, Bounded;
    var more, score := tried + [w], WindowScore(lay, neighbors, w);
    if best < score {
      assert Wins(lay, neighbors, more, |tried|, score, WindowBits(lay, neighbors, w));
    } else if best > 0 {
      var k :| 0 <= k < |tried| && Wins(lay, neighbors, tried, k, best, bits);
      assert Wins(lay, neighbors, more, k, best, bits);
    }
  }

  function Middles(count: nat, size: nat): seq<Window> {
    seq(count, i requires 0 <= i < count => Window(Middle, i + 1, size))
  }

  lemma NoMiddles(tried: seq<Window>, size: nat)
    ensures tried + Middles(0, size) == tried
  {
  }

  lemma MiddlesNext(tried: seq<Window>, count: nat, size: nat)
    ensures tried + Middles(count + 1, size) == tried + Middles(count, size) + [Window(Middle, count + 1, size)]
  {
    assert Middles(count + 1, size) == Middles(count, size) + [Window(Middle, count + 1, size)];
  }

  /** The windows of one size in the order they are tried. */
  function SizeCandidates(n: nat, size: nat): seq<Window>
    requires 1 <= size < n
  {
    [Window(LeftMost, 0, size)] + (if size == 1 then [] else Middles(n - size - 1, size))
      + [Window(RightMost, n - size, size)]
  }

  lemma SizeWindows(tried: seq<Window>, n: nat, size: nat)
    requires 1 <= size < n
    ensures var first, last := Window(LeftMost, 0, size), Window(RightMost, n - size, size);
      tried + SizeCandidates(n, size)
      == if size == 1 then tried + [first] + [last] else tried + [first] + Middles(n - size - 1, size) + [last]
  {
    hide Middles;
  }

  /** All windows of a list of `n` entries up to `sizes` entries long, in the order they are tried. */
  function Candidates(n: nat, sizes: nat): seq<Window>
    requires sizes < n
  {
    if sizes == 0 then [Window(FullHash, 0, 0)] else Candidates(n, sizes - 1) + SizeCandidates(n, sizes)
  }

  /** The code of a list too long to be stored whole: that of its first highest-scoring window. */
  ghost predicate BestCode(lay: Layout, neighbors: seq<nat>, bits: seq<bool>)
    requires lay.Shape() && Bounded(neighbors, lay.v) && lay.maxInt < |neighbors|
  {
    exists count: nat :: count >= 1 && Chosen(lay, neighbors, Candidates(|neighbors|, lay.maxInt), count, bits)
  }

  lemma BestIsWindow(lay: Layout, neighbors: seq<nat>, bits: seq<bool>) returns (w: Window)
    requires lay.Shape() && Bounded(neighbors, lay.v) && lay.maxInt < |neighbors| && BestCode(lay, neighbors, bits)
    ensures WindowOk(lay, neighbors, w) && bits == WindowBits(lay, neighbors, w)
    ensures w in Candidates(|neighbors|, lay.maxInt)
  {
    hide WindowBits, WindowScore, WindowOk, Bounded, Candidates;
    var tried := Candidates(|neighbors|, lay.maxInt);
    var count: nat :| count >= 1 && Chosen(lay, neighbors, tried, count, bits);
    var k :| 0 <= k < |tried| && Wins(lay, neighbors, tried, k, count, bits);
    w := tried[k];
  }

  /** Slots past the hash size stay empty, so the whole table has as many occupied slots as its used part. */
  lemma TableTail(keys: seq<nat>, h: nat, n: nat)
    requires 1 <= h <= n
    ensures NonZero(Table(keys, h, n)) == NonZero(Table(keys, h, h))
  {
    forall i | h <= i < n
      ensures Table(keys, h, n)[i] == 0
    {
      OccPositive(keys, h, i);
    }
    NonZeroPrefix(Table(keys, h, n), h);
    assert Table(keys, h, n)[..h] == Table(keys, h, h);
  }

  /** A counter that holds what is counted for a window gives it that window's score. */
  lemma CounterScores(lay: Layout, neighbors: seq<nat>, w: Window, h: nat, count: nat)
    requires lay.Shape() && Bounded(neighbors, lay.v) && WindowOk(lay, neighbors, w)
    requires h + lay.HashBegin(w.size) == lay.PerBits()
    requires count == NonZero(Table(Counted(neighbors, w), h, lay.PerBits())) && (h > 0 ==> count <= h)
    ensures Score(lay.v, neighbors, w.first, w.size, w.kind, h, count) == WindowScore(lay, neighbors, w)
  {
    hide Table, NonZero, Outside, Counted;
    if h > 0 {
      TableTail(Counted(neighbors, w), h, lay.PerBits());
    }
  }
}
