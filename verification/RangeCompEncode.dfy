/** The range encoder over the delta byte codec: a flag word, then a whole list or its best window. */
module RangeCompEncoder {
  import opened Common
  import opened Bits
  import opened BitSet
  import opened HashCounting
  import opened Vbyte
  import opened ByteStream
  import opened DeltaCode
  import opened HybridQuery

  /** Bits left behind the flag word. */
  function Room(k: nat): nat {
    if k == 0 then 0 else 32 * k - 32
  }

  function CodeBytes(k: nat, full: bool, values: seq<nat>): (r: seq<byte>)
    requires k >= 1 && |Codes(values)| <= 4 * k - 4
    ensures |r| == 4 * k
  {
    [0, 0, 0, if full then 1 else 0] + Codes(values) + ZeroFill(4 * k - 4 - |Codes(values)|)
  }

  /** A list between the smallest and the largest sentinel. */
  function Padded(list: seq<nat>, v: nat): (r: seq<nat>)
    ensures |r| == |list| + 2
  {
    [0] + list + [v + 1]
  }

  lemma PaddedAscending(list: seq<nat>, v: nat)
    requires Bounded(list, v)
    ensures Ascending(list) && Ascending(Padded(list, v))
    ensures forall i :: 1 <= i <= |list| ==> Padded(list, v)[i] == list[i - 1]
  {
  }

  ghost predicate Stored(k: nat, v: nat, bytes: seq<byte>, list: seq<nat>)
    requires k >= 1 && Bounded(list, v)
  {
    PaddedAscending(list, v);
    if DeltaCost(list) <= Room(k) then
      |Codes(DeltasFrom(0, list))| <= 4 * k - 4 && bytes == CodeBytes(k, true, DeltasFrom(0, list))
    else
      exists i: nat, j: nat :: StoredWindow(k, Padded(list, v), bytes, i, j)
  }

  ghost predicate StoredWindow(k: nat, padded: seq<nat>, bytes: seq<byte>, i: nat, j: nat)
    requires k >= 1 && Ascending(padded)
  {
    && BestWindow(padded, Room(k), i, j)
    && |Codes(WindowValues(padded, i, j))| <= 4 * k - 4
    && bytes == CodeBytes(k, false, WindowValues(padded, i, j))
  }

  predicate Flag(bytes: seq<byte>)
    requires |bytes| >= 4
  {
    Field(BitsOf(bytes), 0, 32) != 0
  }

  /** A buffer that can be decoded to its end, with both window ends present in a partial code. */
  ghost predicate Decodable(bytes: seq<byte>) {
    && |bytes| >= 8 && bytes[|bytes| - 1] < 128
    && (Flag(bytes) || |Values(bytes, 4)| >= 2)
  }

  /** What the code of one vertex says about id `x`. */
  function CodeAnswer(bytes: seq<byte>, x: nat): PairType
    requires Decodable(bytes)
  {
    if Flag(bytes) then FindDelta(Values(bytes, 4), 0, x) else FindPartial(Values(bytes, 4), x)
  }

  lemma WordBytes(b: byte)
    ensures ToBits(b, 32) == BitsOf([0, 0, 0, b])
  {
    hide *;
    var z := ToBits(0, 8);
    Shr8(b);
    ToBitsSplit(b, 24, 8);
    ThreeZeros();
    WordOfBytes(0, 0, 0, b);
    assert ((z + z) + z) + ToBits(b, 8) == z + (z + (z + ToBits(b, 8)));
  }

  lemma ThreeZeros()
    ensures ToBits(0, 24) == ToBits(0, 8) + ToBits(0, 8) + ToBits(0, 8)
  {
    hide *;
    Shr8(0);
    ToBitsSplit(0, 16, 8);
    ToBitsSplit(0, 8, 8);
  }

  lemma WordOfBytes(a: byte, b: byte, c: byte, d: byte)
    ensures BitsOf([a, b, c, d]) == ToBits(a, 8) + (ToBits(b, 8) + (ToBits(c, 8) + ToBits(d, 8)))
  {
    assert BitsOf([]) == [];
    hide *;
    BitsOfCons(d, []);
    BitsOfCons(c, [d]);
    BitsOfCons(b, [c, d]);
    BitsOfCons(a, [b, c, d]);
    assert [d] + [] == [d] && [c] + [d] == [c, d] && [b] + [c, d] == [b, c, d] && [a] + [b, c, d] == [a, b, c, d];
    assert ToBits(d, 8) + [] == ToBits(d, 8);
  }

  lemma FlagReads(k: nat, full: bool, values: seq<nat>)
    requires k >= 2 && |Codes(values)| <= 4 * k - 4
    ensures Flag(CodeBytes(k, full, values)) == full
  {
    var bytes, b := CodeBytes(k, full, values), if full then 1 else 0;
    var head: seq<byte> := [0, 0, 0, b];
    WordBytes(b);
    hide ToBits, CodeBytes, BitsOf;
    assert bytes[..4] == head by { HeadOf(k, full, values); }
    forall p | 0 <= p < 32
      ensures BitsOf(bytes)[p] == BitsOf(head)[p]
    {
      BitsOfAt(bytes, p / 8, p % 8);
      BitsOfAt(head, p / 8, p % 8);
      assert bytes[p / 8] == bytes[..4][p / 8];
    }
    assert BitsOf(bytes)[0..32] == ToBits(b, 32);
    Pow2Word();
    Pow2Mono(8, 32);
    ValToBits(b, 32);
  }

  lemma HeadOf(k: nat, full: bool, values: seq<nat>)
    requires k >= 2 && |Codes(values)| <= 4 * k - 4
    ensures CodeBytes(k, full, values)[..4] == [0, 0, 0, if full then 1 else 0]
  {
  }

  /** A buffer with the codes of `values` decodes to them, followed by zeros. */
  lemma CodeReads(k: nat, full: bool, values: seq<nat>)
    requires k >= 2 && |Codes(values)| <= 4 * k - 4 && forall i :: 0 <= i < |values| ==> values[i] < 0x1000_0000
    ensures var bytes := CodeBytes(k, full, values);
      && bytes[|bytes| - 1] < 128 && Flag(bytes) == full
      && Values(bytes, 4) == values + ZeroFill(4 * k - 4 - |Codes(values)|)
  {
    hide *;
    CodeLayout(k, full, values);
    FlagReads(k, full, values);
    ValuesOfCodes(CodeBytes(k, full, values), 4, values);
  }

  lemma CodeLayout(k: nat, full: bool, values: seq<nat>)
    requires k >= 2 && |Codes(values)| <= 4 * k - 4
    ensures var bytes, n := CodeBytes(k, full, values), |Codes(values)|;
      bytes[4..4 + n] == Codes(values) && forall i :: 4 + n <= i < |bytes| ==> bytes[i] == 0
  {
    hide Codes;
  }

  lemma {:induction false} DeltasSmall(pre: nat, list: seq<nat>, bound: nat)
    requires Ascending(list) && (list != [] ==> pre <= list[0]) && forall i :: 0 <= i < |list| ==> list[i] < bound
    ensures forall i :: 0 <= i < |list| ==> DeltasFrom(pre, list)[i] < bound
    decreases |list|
  {
    if list != [] {
      DeltasSmall(list[0], list[1..], bound);
    }
  }

  /** A whole list is answered exactly. */
  lemma FullCodeExact(k: nat, v: nat, list: seq<nat>, x: nat)
    requires 2 <= k && v < 0x1000_0000 && Bounded(list, v) && Ascending(list) && 1 <= x <= v
    requires |Codes(DeltasFrom(0, list))| <= 4 * k - 4
    ensures var bytes := CodeBytes(k, true, DeltasFrom(0, list));
      Decodable(bytes) && Flag(bytes) && CodeAnswer(bytes, x) == if x in list then Neighbor else NonNeighbor
  {
    hide Codes, Flag, Values, DeltasFrom, FindDelta, CodeBytes;
    var values := DeltasFrom(0, list);
    DeltasSmall(0, list, 0x1000_0000);
    CodeReads(k, true, values);
    FindDeltaExact(0, list, 4 * k - 4 - |Codes(values)|, x);
  }

  /** The plain byte code of a whole list is answered exactly too: the zero padding matches no id. */
  lemma PlainCodeExact(k: nat, v: nat, list: seq<nat>, x: nat)
    requires 2 <= k && v < 0x1000_0000 && Bounded(list, v) && 1 <= x <= v && |Codes(list)| <= 4 * k - 4
    ensures var bytes := CodeBytes(k, true, list);
      && bytes[|bytes| - 1] < 128 && Flag(bytes)
      && Scan(Values(bytes, 4), x) == if x in list then Neighbor else NonNeighbor
  {
    hide Codes, Flag, Values, CodeBytes, Scan;
    CodeReads(k, true, list);
    ScanPadded(list, 4 * k - 4 - |Codes(list)|, x);
  }

  /** The entries strictly between two ends of a window are its inner ones. */
  lemma BetweenEnds(list: seq<nat>, v: nat, i: nat, j: nat, x: nat)
    requires Bounded(list, v) && i < j <= |list| + 1 && 1 <= x <= v
    requires var p := Padded(list, v); p[i] < x < p[j]
    ensures x in list <==> x in Padded(list, v)[i + 1..j]
  {
    var p := Padded(list, v);
    PaddedAscending(list, v);
    if x in list {
      var t :| 0 <= t < |list| && list[t] == x;
      assert p[t + 1] == x;
      assert i < t + 1 < j;
      assert p[i + 1..j][t - i] == x;
    }
    if x in p[i + 1..j] {
      var t :| 0 <= t < |p[i + 1..j]| && p[i + 1..j][t] == x;
      assert p[i + 1 + t] == x && list[i + t] == x;
    }
  }

  /** A stored window decides exactly the ids between its ends, by membership in the list it was cut from. */
  lemma WindowCodeExact(k: nat, v: nat, bytes: seq<byte>, list: seq<nat>, i: nat, j: nat, x: nat)
    requires 2 <= k && v < 0x1000_0000 && Bounded(list, v) && 1 <= x <= v
    requires Ascending(Padded(list, v)) && StoredWindow(k, Padded(list, v), bytes, i, j)
    ensures i < j <= |list| && Decodable(bytes) && !Flag(bytes)
    ensures var p := Padded(list, v);
      CodeAnswer(bytes, x)
      == if p[i] <= x <= p[j] then if x in list then Neighbor else NonNeighbor else Uncertain
  {
    StoredWindowMeans(k, list, v, bytes, i, j);
    hide *;
    WindowFits28(list, v, i, j);
    var values := WindowValues(Padded(list, v), i, j);
    CodeReads(k, false, values);
    PartialForm(k, values, x);
    PartialExact(list, v, i, j, 4 * k - 4 - |Codes(values)|, x);
  }

  lemma StoredWindowMeans(k: nat, list: seq<nat>, v: nat, bytes: seq<byte>, i: nat, j: nat)
    requires 2 <= k && Ascending(Padded(list, v)) && StoredWindow(k, Padded(list, v), bytes, i, j)
    ensures i < j <= |list| && |Codes(WindowValues(Padded(list, v), i, j))| <= 4 * k - 4
    ensures bytes == CodeBytes(k, false, WindowValues(Padded(list, v), i, j))
    ensures |WindowValues(Padded(list, v), i, j)| >= 2
  {
    hide Codes, CodeBytes, WindowCost;
  }

  lemma PartialForm(k: nat, values: seq<nat>, x: nat)
    requires k >= 2 && |Codes(values)| <= 4 * k - 4 && |values| >= 2
    requires var bytes := CodeBytes(k, false, values);
      bytes[|bytes| - 1] < 128 && !Flag(bytes) && Values(bytes, 4) == values + ZeroFill(4 * k - 4 - |Codes(values)|)
    ensures var bytes := CodeBytes(k, false, values);
      Decodable(bytes) && CodeAnswer(bytes, x) == FindPartial(values + ZeroFill(4 * k - 4 - |Codes(values)|), x)
  {
    hide Codes, Flag, Values, CodeBytes, FindPartial;
  }

  lemma PartialExact(list: seq<nat>, v: nat, i: nat, j: nat, n: nat, x: nat)
    requires v < 0x1000_0000 && Bounded(list, v) && Ascending(Padded(list, v)) && i < j <= |list| && 1 <= x <= v
    ensures var p := Padded(list, v);
      FindPartial(WindowValues(p, i, j) + ZeroFill(n), x)
      == if p[i] <= x <= p[j] then if x in list then Neighbor else NonNeighbor else Uncertain
  {
    var p := Padded(list, v);
    var all := WindowValues(p, i, j) + ZeroFill(n);
    assert all[0] == p[i] && all[1] == p[j] && all[2..] == DeltasFrom(p[i], p[i + 1..j]) + ZeroFill(n);
    assert p[i] < p[j];
    hide DeltasFrom, FindDelta, WindowValues, Ascending, Padded;
    if p[i] < x < p[j] {
      InnerExact(list, v, i, j, n, x);
      BetweenEnds(list, v, i, j, x);
    } else {
      EndsAreEntries(list, v, i, j, x);
    }
  }

  lemma WindowFits28(list: seq<nat>, v: nat, i: nat, j: nat)
    requires v < 0x1000_0000 && Bounded(list, v) && Ascending(Padded(list, v)) && i < j <= |list|
    ensures forall t :: 0 <= t < |WindowValues(Padded(list, v), i, j)| ==>
      WindowValues(Padded(list, v), i, j)[t] < 0x1000_0000
  {
    var p := Padded(list, v);
    InnerShape(list, v, i, j);
    hide Ascending, Padded;
    DeltasSmall(p[i], p[i + 1..j], 0x1000_0000);
    EndsSmall(list, v, i, j);
  }

  lemma EndsSmall(list: seq<nat>, v: nat, i: nat, j: nat)
    requires v < 0x1000_0000 && Bounded(list, v) && i < j <= |list|
    ensures Padded(list, v)[i] < 0x1000_0000 && Padded(list, v)[j] < 0x1000_0000
  {
    PaddedAscending(list, v);
  }

  /** The entries inside a window are in order, behind its left end, and ids. */
  lemma InnerShape(list: seq<nat>, v: nat, i: nat, j: nat)
    requires v < 0x1000_0000 && Bounded(list, v) && Ascending(Padded(list, v)) && i < j <= |list|
    ensures var p := Padded(list, v);
      var inner := p[i + 1..j];
      && Ascending(inner) && (inner != [] ==> p[i] <= inner[0])
      && forall t :: 0 <= t < |inner| ==> inner[t] < 0x1000_0000
  {
    var p := Padded(list, v);
    var inner := p[i + 1..j];
    PaddedAscending(list, v);
    forall t | 0 <= t < |inner|
      ensures inner[t] < 0x1000_0000
    {
      assert inner[t] == p[i + 1 + t] == list[i + t];
    }
  }

  lemma InnerExact(list: seq<nat>, v: nat, i: nat, j: nat, n: nat, x: nat)
    requires v < 0x1000_0000 && Bounded(list, v) && Ascending(Padded(list, v)) && i < j <= |list| && 1 <= x <= v
    requires Padded(list, v)[i] < x
    ensures var p := Padded(list, v);
      FindDelta(DeltasFrom(p[i], p[i + 1..j]) + ZeroFill(n), p[i], x)
        == if x in p[i + 1..j] then Neighbor else NonNeighbor
  {
    var p := Padded(list, v);
    InnerShape(list, v, i, j);
    hide *;
    FindDeltaExact(p[i], p[i + 1..j], n, x);
  }

  lemma EndsAreEntries(list: seq<nat>, v: nat, i: nat, j: nat, x: nat)
    requires Bounded(list, v) && i < j <= |list| + 1 && 1 <= x <= v
    ensures x == Padded(list, v)[i] || x == Padded(list, v)[j] ==> x in list
  {
    PaddedAscending(list, v);
  }

  /** Every stored code is decodable, exact when it holds the whole list, and never contradicts the list. */
  lemma StoredSound(k: nat, v: nat, bytes: seq<byte>, list: seq<nat>, x: nat)
    requires 3 <= k && v < 0x1000_0000 && Bounded(list, v) && Ascending(list) && Stored(k, v, bytes, list)
      && 1 <= x <= v
    ensures Decodable(bytes) && Truthful(CodeAnswer(bytes, x), x, list)
    ensures Flag(bytes) <==> DeltaCost(list) <= Room(k)
    ensures DeltaCost(list) <= Room(k) ==> CodeAnswer(bytes, x) != Uncertain
  {
    hide Codes, Flag, DeltasFrom, CodeAnswer, Decodable, CodeBytes, WindowValues, Padded, DeltaCost;
    PaddedAscending(list, v);
    if DeltaCost(list) <= Room(k) {
      FullCodeExact(k, v, list, x);
    } else {
      var i: nat, j: nat :| StoredWindow(k, Padded(list, v), bytes, i, j);
      WindowCodeExact(k, v, bytes, list, i, j, x);
    }
  }

  class RangeCompEncode {
    const k: nat
    const v: nat
    const encodes: seq<BitSetSIMD>

    ghost predicate Valid() {
      && 3 <= k <= 64 && v < 0xFFF_FFFF
      && |encodes| == v + 1
      && (forall i :: 0 <= i < |encodes| ==> encodes[i].data.Length == 4 * k)
      && (forall i, j :: 0 <= i < j < |encodes| ==> encodes[i].data != encodes[j].data)
    }

    ghost function Code(vertex: nat): (s: seq<byte>)
      requires Valid() && vertex <= v
      reads encodes[vertex].data
      ensures |s| == 4 * k
    {
      encodes[vertex].data[..]
    }

    constructor (k: nat, v: nat)
      requires 3 <= k <= 64 && v < 0xFFF_FFFF
      ensures Valid() && this.k == k && this.v == v
      ensures forall i :: 0 <= i <= v ==> fresh(encodes[i].data)
    {
      var list: seq<BitSetSIMD> := [];
      for i := 0 to v + 1
        invariant |list| == i
        invariant forall j :: 0 <= j < i ==> fresh(list[j].data) && list[j].data.Length == 4 * k
        invariant forall j, l :: 0 <= j < l < i ==> list[j].data != list[l].data
      {
        var b := new BitSetSIMD(32 * k);
        list := list + [b];
      }
      this.k := k;
      this.v := v;
      encodes := list;
    }

    method SetFlag(encode: BitSetSIMD, flag: bool)
      requires 4 <= encode.data.Length
      modifies encode.data
      ensures encode.data[..] == Splice(old(encode.data[..]), 0, [0, 0, 0, if flag then 1 else 0])
    {
      ghost var before := encode.data[..];
      var b: byte := if flag then 1 else 0;
      Pow2Word();
      WordBytes(b);
      hide ToBits, BitsOf, Splice, Pow2;
      encode.BlockSet(0, 32, b);
      SpliceAligned(before, 0, [0, 0, 0, b]);
      BitsOfInjective(encode.data[..], Splice(before, 0, [0, 0, 0, b]));
    }

    method GetFlag(vertex: nat) returns (r: bool)
      requires Valid() && vertex <= v
      ensures r == Flag(Code(vertex))
    {
      var word := encodes[vertex].BlockGet(0, 32);
      r := word != 0;
    }

    /** Writes the codes of a list one after the other from byte `p` on. */
    method Encode(values: seq<nat>, encode: BitSetSIMD, p: nat)
      requires forall i :: 0 <= i < |values| ==> values[i] < 0x1000_0000
      requires p + |Codes(values)| <= encode.data.Length <= 256
      modifies encode.data
      ensures encode.data[..] == Splice(old(encode.data[..]), p, Codes(values))
    {
      hide *;
      ghost var before := encode.data[..];
      var at := p;
      NoCodes(before, p, values);
      for i := 0 to |values|
        invariant at == p + |Codes(values[..i])| <= encode.data.Length
        invariant encode.data[..] == Splice(before, p, Codes(values[..i]))
      {
        CodesRoom(values, i);
        PutCode(encode, at, values[i]);
        SpliceMore(before, p, Codes(values[..i]), Bytes(values[i]));
        at := at + IntegerBytes(values[i]);
      }
      assert values[..|values|] == values;
    }

    /** The delta code of a whole list behind the flag word. */
    method EncodeFull(list: seq<nat>, encode: BitSetSIMD)
      requires Ascending(list) && (forall i :: 0 <= i < |list| ==> list[i] < 0x1000_0000)
      requires encode.data.Length == 4 * k && 3 <= k <= 64 && DeltaCost(list) <= Room(k)
      requires forall i :: 4 <= i < encode.data.Length ==> encode.data[i] == 0
      requires encode.data[..4] == [0, 0, 0, 1]
      modifies encode.data
      ensures |Codes(DeltasFrom(0, list))| <= 4 * k - 4
      ensures encode.data[..] == CodeBytes(k, true, DeltasFrom(0, list))
    {
      ghost var before := encode.data[..];
      var deltas := GetDeltas(list);
      DeltasSmall(0, list, 0x1000_0000);
      CodesLength(deltas);
      hide Codes, DeltasFrom, ByteCost, Ascending;
      Encode(deltas, encode, 4);
      CodeBytesAre(k, true, before, deltas);
    }

    /** The best window of a list that does not fit, behind the flag word. */
    method DynamicEncode(list: seq<nat>, encode: BitSetSIMD) returns (ghost i: nat, ghost j: nat)
      requires Ascending(list) && |list| >= 4 && (forall i :: 0 <= i < |list| - 1 ==> list[i] < 0x1000_0000)
      requires encode.data.Length == 4 * k && 3 <= k <= 64
      requires forall i :: 4 <= i < encode.data.Length ==> encode.data[i] == 0
      requires encode.data[..4] == [0, 0, 0, 0]
      modifies encode.data
      ensures StoredWindow(k, list, encode.data[..], i, j)
    {
      hide *;
      ghost var before := encode.data[..];
      var idx, block := ChooseWindow(list, 32 * k - 32);
      i, j := idx, idx + block - 1;
      FitsMeans(list, k, i, j);
      var values := WindowList(list, idx, block);
      WindowSmall(list, i, j);
      Encode(values, encode, 4);
      CodeBytesAre(k, false, before, values);
      WindowStored(k, list, encode.data[..], i, j);
    }

    method WindowList(list: seq<nat>, idx: nat, block: nat) returns (values: seq<nat>)
      requires Ascending(list) && 2 <= block && idx + block <= |list|
      ensures values == WindowValues(list, idx, idx + block - 1)
    {
      var last := idx + block - 1;
      values := [list[idx], list[last]];
      assert list[idx + 1..idx + 1] == [];
      for t := 1 to block - 1
        invariant values == [list[idx], list[last]] + DeltasFrom(list[idx], list[idx + 1..idx + t])
      {
        InnerStep(list, idx, idx + t);
        values := values + [list[idx + t] - list[idx + t - 1]];
      }
    }

    /** Encodes a neighbour list: whole if its gaps fit, otherwise its best window. */
    method EncodeVertex(vertex: nat, neighbors: seq<nat>)
      requires Valid() && vertex <= v && Bounded(neighbors, v)
      modifies encodes[vertex].data
      ensures Stored(k, v, Code(vertex), neighbors)
    {
      hide Codes, DeltasFrom, ByteCost, Ascending, DeltaCost, CodeBytes, StoredWindow;
      PaddedAscending(neighbors, v);
      var encode := encodes[vertex];
      encode.Clear();
      var bits := GetRequiredBits(neighbors);
      if bits <= 32 * k - 32 {
        StartCode(encode, true);
        EncodeFull(neighbors, encode);
      } else {
        StartCode(encode, false);
        LongList(neighbors);
        var nei_back := [0] + neighbors + [v + 1];
        var i, j := DynamicEncode(nei_back, encode);
        assert StoredWindow(k, Padded(neighbors, v), Code(vertex), i, j);
      }
    }

    method StartCode(encode: BitSetSIMD, flag: bool)
      requires 4 <= encode.data.Length && forall i :: 0 <= i < encode.data.Length ==> encode.data[i] == 0
      modifies encode.data
      ensures encode.data[..4] == [0, 0, 0, if flag then 1 else 0]
      ensures forall i :: 4 <= i < encode.data.Length ==> encode.data[i] == 0
    {
      ghost var before := encode.data[..];
      SetFlag(encode, flag);
      ghost var after := encode.data[..];
      assert encode.data[..4] == after[..4];
      assert forall i :: 4 <= i < |after| ==> after[i] == before[i] == 0;
    }

    /** The plain byte codec: the codes of the entries themselves behind the flag word. */
    method EncodePlain(list: seq<nat>, encode: BitSetSIMD)
      requires forall i :: 0 <= i < |list| ==> list[i] < 0x1000_0000
      requires encode.data.Length == 4 * k && 3 <= k <= 64 && ByteCost(list) <= Room(k)
      requires forall i :: 4 <= i < encode.data.Length ==> encode.data[i] == 0
      requires encode.data[..4] == [0, 0, 0, 1]
      modifies encode.data
      ensures |Codes(list)| <= 4 * k - 4 && encode.data[..] == CodeBytes(k, true, list)
    {
      ghost var before := encode.data[..];
      CodesLength(list);
      hide Codes, ByteCost;
      Encode(list, encode, 4);
      CodeBytesAre(k, true, before, list);
    }

    /** The plain search: compares the decoded values themselves and stops at the first one not below `value`. */
    method FindPlain(encode: BitSetSIMD, value: nat) returns (r: PairType)
      requires 4 <= encode.data.Length && encode.data[encode.data.Length - 1] < 128
      ensures r == Scan(Values(encode.data[..], 4), value)
    {
      hide DecodeFrom, Values, Scan;
      ghost var bytes := encode.data[..];
      var len := 4;
      while len < encode.data.Length
        invariant 4 <= len <= encode.data.Length
        invariant Scan(Values(bytes, 4), value) == Scan(Values(bytes, len), value)
        decreases encode.data.Length - len
      {
        ScanStep(bytes, len, value);
        var next: nat;
        next, len := Decode(encode, len);
        if value == next {
          return Neighbor;
        } else if value < next {
          return NonNeighbor;
        }
      }
      ScanEnd(bytes, value);
      return NonNeighbor;
    }

    /** Walks the decoded values of a whole list. */
    method FindFull(encode: BitSetSIMD, value: nat) returns (r: PairType)
      requires Decodable(encode.data[..])
      ensures r == FindDelta(Values(encode.data[..], 4), 0, value)
    {
      hide Flag, DecodeFrom, Values, FindDelta;
      r := Walk(encode, 4, 0, value);
    }

    /** The walk over running sums from byte `start` on. */
    method Walk(encode: BitSetSIMD, start: nat, from: nat, value: nat) returns (r: PairType)
      requires start <= encode.data.Length && 1 <= encode.data.Length && encode.data[encode.data.Length - 1] < 128
      ensures r == FindDelta(Values(encode.data[..], start), from, value)
    {
      hide DecodeFrom, Values, FindDelta;
      ghost var bytes := encode.data[..];
      var len, pre := start, from;
      while len < encode.data.Length
        invariant start <= len <= encode.data.Length
        invariant FindDelta(Values(bytes, start), from, value) == FindDelta(Values(bytes, len), pre, value)
        decreases encode.data.Length - len
      {
        FindStep(bytes, len, pre, value);
        var next: nat;
        next, len := Decode(encode, len);
        next := (next + pre) % 0x1_0000_0000;
        pre := next;
        if value == next {
          return Neighbor;
        } else if value < next {
          return NonNeighbor;
        }
      }
      FindEnd(bytes, pre, value);
      return NonNeighbor;
    }

    /** Tests the ends of a window, then walks the gaps between them. */
    method FindWindow(encode: BitSetSIMD, value: nat) returns (r: PairType)
      requires Decodable(encode.data[..]) && !Flag(encode.data[..])
      ensures r == FindPartial(Values(encode.data[..], 4), value)
    {
      hide Flag, DecodeFrom, FindDelta;
      ghost var values := Values(encode.data[..], 4);
      var min, len := Decode(encode, 4);
      assert Values(encode.data[..], len) == values[1..];
      var max: nat;
      max, len := Decode(encode, len);
      assert Values(encode.data[..], len) == values[2..];
      if value == min || value == max {
        return Neighbor;
      }
      if value < min || value > max {
        return Uncertain;
      }
      r := Walk(encode, len, min, value);
    }

    method NonNeighborTest(vertex1: nat, vertex2: nat) returns (r: PairType)
      requires Valid() && vertex1 <= v && Decodable(Code(vertex1))
      ensures r == CodeAnswer(Code(vertex1), vertex2)
    {
      hide Flag, Values, FindDelta;
      var full := GetFlag(vertex1);
      if full {
        r := FindFull(encodes[vertex1], vertex2);
      } else {
        r := FindWindow(encodes[vertex1], vertex2);
      }
    }

    /** The smaller answer of both sides. */
    method NEpairTest(vertex1: nat, vertex2: nat) returns (r: PairType)
      requires Valid() && vertex1 <= v && vertex2 <= v && Decodable(Code(vertex1)) && Decodable(Code(vertex2))
      ensures r == MinAnswer(CodeAnswer(Code(vertex1), vertex2), CodeAnswer(Code(vertex2), vertex1))
    {
      var type1 := NonNeighborTest(vertex1, vertex2);
      var type2 := NonNeighborTest(vertex2, vertex1);
      r := if PairCode(type1) < PairCode(type2) then type1 else type2;
    }
  }

  lemma ScanStep(bytes: seq<byte>, p: nat, value: nat)
    requires p < |bytes| && bytes[|bytes| - 1] < 128
    ensures var (v, q) := DecodeFrom(bytes, p, 0);
      Scan(Values(bytes, p), value)
      == if value == v then Neighbor else if value < v then NonNeighbor else Scan(Values(bytes, q), value)
  {
    hide DecodeFrom;
    var (v, q) := DecodeFrom(bytes, p, 0);
    assert Values(bytes, p)[1..] == Values(bytes, q);
  }

  lemma ScanEnd(bytes: seq<byte>, value: nat)
    ensures Scan(Values(bytes, |bytes|), value) == NonNeighbor
  {
  }

  /** One step of the walk. */
  lemma FindStep(bytes: seq<byte>, p: nat, pre: nat, value: nat)
    requires p < |bytes| && bytes[|bytes| - 1] < 128
    ensures var (v, q) := DecodeFrom(bytes, p, 0);
      var next := (v + pre) % 0x1_0000_0000;
      FindDelta(Values(bytes, p), pre, value)
      == if value == next then Neighbor else if value < next then NonNeighbor
        else FindDelta(Values(bytes, q), next, value)
  {
    hide DecodeFrom;
    var (v, q) := DecodeFrom(bytes, p, 0);
    assert Values(bytes, p)[1..] == Values(bytes, q);
  }

  lemma FindEnd(bytes: seq<byte>, pre: nat, value: nat)
    ensures FindDelta(Values(bytes, |bytes|), pre, value) == NonNeighbor
  {
  }

  /** Behind a flag word and over zeros, written codes make up the whole buffer. */
  lemma CodeBytesAre(k: nat, full: bool, before: seq<byte>, values: seq<nat>)
    requires k >= 1 && |before| == 4 * k && |Codes(values)| <= 4 * k - 4
    requires before[..4] == [0, 0, 0, if full then 1 else 0] && forall i :: 4 <= i < |before| ==> before[i] == 0
    ensures Splice(before, 4, Codes(values)) == CodeBytes(k, full, values)
  {
    hide Codes;
    assert before[4 + |Codes(values)|..] == ZeroFill(4 * k - 4 - |Codes(values)|);
  }

  lemma FitsMeans(list: seq<nat>, k: nat, i: nat, j: nat)
    requires Ascending(list) && 1 <= k && BestWindow(list, 32 * k - 32, i, j)
    ensures i < j < |list| - 1 && |Codes(WindowValues(list, i, j))| <= 4 * k - 4
  {
    CodesLength(WindowValues(list, i, j));
    hide Codes, WindowValues, ByteCost;
  }

  lemma WindowStored(k: nat, list: seq<nat>, bytes: seq<byte>, i: nat, j: nat)
    requires 1 <= k && Ascending(list) && BestWindow(list, 32 * k - 32, i, j) && i < j < |list|
    requires |Codes(WindowValues(list, i, j))| <= 4 * k - 4 && bytes == CodeBytes(k, false, WindowValues(list, i, j))
    ensures StoredWindow(k, list, bytes, i, j)
  {
    hide Codes, WindowValues, CodeBytes;
  }

  lemma WindowSmall(list: seq<nat>, i: nat, j: nat)
    requires Ascending(list) && i < j < |list| - 1 && forall i :: 0 <= i < |list| - 1 ==> list[i] < 0x1000_0000
    ensures forall t :: 0 <= t < |WindowValues(list, i, j)| ==> WindowValues(list, i, j)[t] < 0x1000_0000
  {
    DeltasSmall(list[i], list[i + 1..j], 0x1000_0000);
  }

  lemma InnerStep(list: seq<nat>, i: nat, t: nat)
    requires Ascending(list) && i < t < |list|
    ensures list[t - 1] <= list[t]
    ensures DeltasFrom(list[i], list[i + 1..t + 1]) == DeltasFrom(list[i], list[i + 1..t]) + [list[t] - list[t - 1]]
  {
    var inner := list[i + 1..t];
    assert list[i + 1..t + 1] == inner + [list[t]];
    DeltasAppend(list[i], inner, list[t]);
    assert LastOr(list[i], inner) == list[t - 1];
  }

  /** A list that does not fit into eight bytes has more than two entries. */
  lemma LongList(list: seq<nat>)
    requires Ascending(list) && DeltaCost(list) > 64
    ensures |list| >= 3
  {
    CostBound(DeltasFrom(0, list));
  }

  lemma {:induction false} CostBound(list: seq<nat>)
    ensures ByteCost(list) <= 32 * |list|
  {
    if list != [] {
      CostBound(list[..|list| - 1]);
    }
  }

  lemma CodesRoom(values: seq<nat>, i: nat)
    requires i < |values|
    ensures Codes(values[..i + 1]) == Codes(values[..i]) + Bytes(values[i])
    ensures |Codes(values[..i])| + IntegerBytes(values[i]) <= |Codes(values)|
  {
    hide Bytes, IntegerBytes;
    assert values[..i + 1][..i] == values[..i];
    assert values == values[..i + 1] + values[i + 1..];
    CodesAppend(values[..i + 1], values[i + 1..]);
  }

  lemma NoCodes(s: seq<byte>, p: nat, values: seq<nat>)
    requires p <= |s|
    ensures Codes(values[..0]) == [] && Splice(s, p, []) == s
  {
  }

  lemma SpliceMore(s: seq<byte>, p: nat, a: seq<byte>, b: seq<byte>)
    requires p + |a| + |b| <= |s|
    ensures Splice(Splice(s, p, a), p + |a|, b) == Splice(s, p, a + b)
  {
  }
}
