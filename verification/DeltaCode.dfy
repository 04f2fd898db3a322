/** Delta coding of sorted lists: gaps, their cost, searching them, and choosing a window that fits. */
module DeltaCode {
  import opened Common
  import opened Peeling
  import opened BitSet
  import opened Vbyte
  import opened ByteStream

  function LastOr(pre: nat, list: seq<nat>): nat {
    if list == [] then pre else list[|list| - 1]
  }

  /** The gaps of a list behind `pre`. */
  function DeltasFrom(pre: nat, list: seq<nat>): (r: seq<nat>)
    requires Ascending(list) && (list != [] ==> pre <= list[0])
    ensures |r| == |list|
    decreases |list|
  {
    if list == [] then [] else [list[0] - pre] + DeltasFrom(list[0], list[1..])
  }

  lemma AscendingSlice(list: seq<nat>, a: nat, b: nat)
    requires Ascending(list) && a <= b <= |list|
    ensures Ascending(list[a..b])
  {
  }

  lemma AscendingPrefix(list: seq<nat>, x: nat)
    requires Ascending(list + [x])
    ensures Ascending(list) && forall i :: 0 <= i < |list| ==> list[i] < x
    ensures list != [] ==> Ascending(list[1..]) && Ascending(list[1..] + [x]) && list[0] <= (list[1..] + [x])[0]
    ensures |list| > 1 ==> list[0] <= list[1..][0]
  {
    var all := list + [x];
    forall i | 0 <= i < |list|
      ensures list[i] < x
    {
      assert all[i] == list[i] && all[|list|] == x;
    }
    hide Ascending;
    assert all[..|list|] == list;
    AscendingSlice(all, 0, |list|);
    if list != [] {
      assert all[1..|all|] == list[1..] + [x] && all[1..|list|] == list[1..];
      AscendingSlice(all, 1, |all|);
      AscendingSlice(all, 1, |list|);
    }
  }

  lemma {:induction false} DeltasAppend(pre: nat, list: seq<nat>, x: nat)
    requires Ascending(list + [x]) && pre <= (list + [x])[0]
    ensures Ascending(list) && (list != [] ==> pre <= list[0]) && LastOr(pre, list) <= x
    ensures DeltasFrom(pre, list + [x]) == DeltasFrom(pre, list) + [x - LastOr(pre, list)]
    decreases |list|
  {
    var all := list + [x];
    AscendingPrefix(list, x);
    if list == [] {
      assert all[1..] == [];
    } else {
      hide Ascending, LastOr;
      assert all[0] == list[0] && all[1..] == list[1..] + [x];
      DeltasAppend(list[0], list[1..], x);
      assert LastOr(pre, list) == LastOr(list[0], list[1..]) by { LastBehindFirst(pre, list); }
    }
  }

  lemma LastBehindFirst(pre: nat, list: seq<nat>)
    requires list != []
    ensures LastOr(pre, list) == LastOr(list[0], list[1..])
  {
  }

  method GetDeltas(list: seq<nat>) returns (res: seq<nat>)
    requires Ascending(list)
    ensures res == DeltasFrom(0, list)
  {
    res := [];
    if |list| == 0 {
      return;
    }
    res := [list[0]];
    for i := 0 to |list| - 1
      invariant Ascending(list[..i + 1]) && res == DeltasFrom(0, list[..i + 1])
    {
      assert list[..i + 2] == list[..i + 1] + [list[i + 1]];
      DeltasAppend(0, list[..i + 1], list[i + 1]);
      res := res + [list[i + 1] - list[i]];
    }
    assert list[..|list|] == list;
  }

  /** The bits the delta code of a list takes. */
  function DeltaCost(list: seq<nat>): nat
    requires Ascending(list)
  {
    ByteCost(DeltasFrom(0, list))
  }

  method GetByteBits(list: seq<nat>) returns (bits: nat)
    ensures bits == ByteCost(list)
  {
    bits := 0;
    assert list[..0] == [];
    for i := 0 to |list|
      invariant bits == ByteCost(list[..i])
    {
      assert list[..i + 1][..i] == list[..i];
      bits := bits + 8 * IntegerBytes(list[i]);
    }
    assert list[..|list|] == list;
  }

  method GetRequiredBits(list: seq<nat>) returns (bits: nat)
    requires Ascending(list)
    ensures bits == DeltaCost(list)
  {
    var deltas := GetDeltas(list);
    bits := GetByteBits(deltas);
  }

  // ---- Dropping entries never costs more -------------------------------------------------------------------

  /** A merged gap costs no more than the two gaps did. */
  lemma MergedGap(a: nat, b: nat)
    ensures IntegerBytes(a + b) <= IntegerBytes(a) + IntegerBytes(b)
  {
  }

  lemma BytesMono(a: nat, b: nat)
    requires a <= b
    ensures IntegerBytes(a) <= IntegerBytes(b)
  {
  }

  lemma {:induction false} RemainingAscending(list: seq<nat>, gone: set<nat>)
    requires Ascending(list)
    ensures Ascending(Remaining(list, gone)) && UpTo(Remaining(list, gone), LastOr(0, list))
  {
    if list == [] {
      assert Remaining(list, gone) == [];
    } else {
      hide *;
      var front, last := list[..|list| - 1], list[|list| - 1];
      assert front + [last] == list;
      AscendingPrefix(front, last);
      RemainingAscending(front, gone);
      RemainingLast(list, gone);
      AscendingMore(Remaining(front, gone), front, last);
      assert LastOr(0, list) == last by { LastOfAppend(0, front, last); }
    }
  }

  ghost predicate UpTo(list: seq<nat>, bound: nat) {
    forall i :: 0 <= i < |list| ==> list[i] <= bound
  }

  lemma LastOfAppend(pre: nat, list: seq<nat>, x: nat)
    ensures LastOr(pre, list + [x]) == x
  {
  }

  lemma AscendingMore(r: seq<nat>, list: seq<nat>, x: nat)
    requires Ascending(r) && UpTo(r, LastOr(0, list)) && (list == [] ==> r == [])
    requires forall i :: 0 <= i < |list| ==> list[i] < x
    ensures Ascending(r + [x]) && UpTo(r + [x], x) && UpTo(r, x)
  {
    forall i | 0 <= i < |r|
      ensures r[i] < x
    {
      assert list[|list| - 1] < x;
    }
  }

  lemma RemainingNothing(list: seq<nat>, gone: set<nat>)
    requires list == []
    ensures Remaining(list, gone) == list && LastOr(0, list) == 0
  {
  }

  lemma RemainingLast(list: seq<nat>, gone: set<nat>)
    requires list != []
    ensures var front := Remaining(list[..|list| - 1], gone);
      && Remaining(list, gone) == (if list[|list| - 1] in gone then front else front + [list[|list| - 1]])
      && (|list| == 1 ==> front == [])
  {
    var front := Remaining(list[..|list| - 1], gone);
    assert front + [] == front;
  }

  lemma ByteCostAppend(list: seq<nat>, x: nat)
    ensures ByteCost(list + [x]) == ByteCost(list) + 8 * IntegerBytes(x)
  {
    assert (list + [x])[..|list|] == list;
  }

  lemma DeltaCostAppend(list: seq<nat>, x: nat)
    requires Ascending(list + [x])
    ensures Ascending(list) && LastOr(0, list) <= x
    ensures DeltaCost(list + [x]) == DeltaCost(list) + 8 * IntegerBytes(x - LastOr(0, list))
  {
    DeltasAppend(0, list, x);
    ByteCostAppend(DeltasFrom(0, list), x - LastOr(0, list));
  }

  /** The kept entries, plus one gap up to the last original entry, cost at most the original list. */
  lemma {:induction false} GapsMerge(list: seq<nat>, gone: set<nat>)
    requires Ascending(list)
    ensures Ascending(Remaining(list, gone)) && LastOr(0, Remaining(list, gone)) <= LastOr(0, list)
    ensures var kept := Remaining(list, gone);
      DeltaCost(kept)
      + (if LastOr(0, kept) == LastOr(0, list) then 0 else 8 * IntegerBytes(LastOr(0, list) - LastOr(0, kept)))
      <= DeltaCost(list)
  {
    hide *;
    RemainingAscending(list, gone);
    if list == [] {
      RemainingNothing(list, gone);
    } else {
      var front, x := list[..|list| - 1], list[|list| - 1];
      assert list == front + [x];
      DeltaCostAppend(front, x);
      GapsMerge(front, gone);
      RemainingLast(list, gone);
      LastOfAppend(0, front, x);
      var kept := Remaining(front, gone);
      MergedGap(x - LastOr(0, front), LastOr(0, front) - LastOr(0, kept));
      assert x - LastOr(0, kept) == (x - LastOr(0, front)) + (LastOr(0, front) - LastOr(0, kept));
      if x !in gone {
        DeltaCostAppend(kept, x);
        LastOfAppend(0, kept, x);
      }
    }
  }

  /** Dropping entries from a sorted list never raises the delta cost, although gaps merge. */
  lemma DeltaCostShrinks(list: seq<nat>, gone: set<nat>)
    requires Ascending(list)
    ensures Ascending(Remaining(list, gone)) && DeltaCost(Remaining(list, gone)) <= DeltaCost(list)
  {
    GapsMerge(list, gone);
  }

  /** Nor the plain byte cost, nor the cost at a fixed width per entry. */
  lemma {:induction false} PlainCostShrinks(list: seq<nat>, gone: set<nat>, width: nat)
    ensures ByteCost(Remaining(list, gone)) <= ByteCost(list)
    ensures Span(|Remaining(list, gone)|, width) <= Span(|list|, width)
  {
    hide IntegerBytes;
    if list != [] {
      var n := |list| - 1;
      PlainCostShrinks(list[..n], gone, width);
      var kept := Remaining(list[..n], gone);
      if list[n] in gone {
        assert Remaining(list, gone) == kept + [] == kept;
      } else {
        ByteCostAppend(kept, list[n]);
      }
    }
  }

  // ---- Searching --------------------------------------------------------------------------------------------

  /** Walks running sums of 32-bit words until one reaches `value`. */
  function FindDelta(values: seq<nat>, pre: nat, value: nat): PairType {
    if values == [] then NonNeighbor
    else
      var next := (values[0] + pre) % 0x1_0000_0000;
      if value == next then Neighbor else if value < next then NonNeighbor else FindDelta(values[1..], next, value)
  }

  lemma {:induction false} FindPadding(n: nat, pre: nat, value: nat)
    requires pre < value < 0x1_0000_0000
    ensures FindDelta(ZeroFill(n), pre, value) == NonNeighbor
  {
    if n > 0 {
      FindPadding(n - 1, pre, value);
      assert ZeroFill(n)[1..] == ZeroFill(n - 1);
    }
  }

  /** On the gaps of a sorted list behind `pre`, padded with zeros, the walk answers exactly by membership. */
  lemma {:induction false} FindDeltaExact(pre: nat, list: seq<nat>, n: nat, value: nat)
    requires Ascending(list) && (list != [] ==> pre <= list[0]) && pre < value < 0x1_0000_0000
    requires forall i :: 0 <= i < |list| ==> list[i] < 0x1_0000_0000
    ensures FindDelta(DeltasFrom(pre, list) + ZeroFill(n), pre, value)
      == if value in list then Neighbor else NonNeighbor
    decreases |list|
  {
    if list == [] {
      assert DeltasFrom(pre, list) + ZeroFill(n) == ZeroFill(n);
      FindPadding(n, pre, value);
    } else {
      AscendingRest(list);
      var rest := list[1..];
      hide Ascending, ZeroFill;
      GapsRest(pre, list, ZeroFill(n));
      if list[0] < value {
        FindDeltaExact(list[0], rest, n, value);
      }
      hide *;
      FindFirst(DeltasFrom(pre, list) + ZeroFill(n), pre, value);
    }
  }

  /** What lies behind the first entry of a sorted list. */
  lemma AscendingRest(list: seq<nat>)
    requires Ascending(list) && list != []
    ensures Ascending(list[1..]) && (list[1..] != [] ==> list[0] <= list[1..][0])
    ensures forall x :: x in list <==> x == list[0] || x in list[1..]
    ensures forall x :: x in list[1..] ==> list[0] < x
  {
    assert list == [list[0]] + list[1..];
  }

  lemma GapsRest(pre: nat, list: seq<nat>, tail: seq<nat>)
    requires Ascending(list) && list != [] && pre <= list[0]
    requires Ascending(list[1..]) && (list[1..] != [] ==> list[0] <= list[1..][0])
    ensures var values := DeltasFrom(pre, list) + tail;
      values[0] == list[0] - pre && values[1..] == DeltasFrom(list[0], list[1..]) + tail
  {
    hide Ascending;
  }

  lemma FindFirst(values: seq<nat>, pre: nat, value: nat)
    requires values != [] && values[0] + pre < 0x1_0000_0000
    ensures var next := values[0] + pre;
      FindDelta(values, pre, value)
      == if value == next then Neighbor else if value < next then NonNeighbor else FindDelta(values[1..], next, value)
  {
  }

  /** The plain byte search compares the values themselves. */
  lemma {:induction false} ScanPadded(list: seq<nat>, n: nat, value: nat)
    requires Ascending(list) && value >= 1 && forall i :: 0 <= i < |list| ==> 1 <= list[i]
    ensures Scan(list + ZeroFill(n), value) == if value in list then Neighbor else NonNeighbor
  {
    var fields := list + ZeroFill(n);
    assert ZeroTailed(fields, |list|);
    ScanExact(fields, |list|, value);
  }

  /** A partial code: ends first, then the gaps between them. */
  function FindPartial(values: seq<nat>, value: nat): PairType
    requires |values| >= 2
  {
    var min, max := values[0], values[1];
    if value == min || value == max then Neighbor
    else if value < min || value > max then Uncertain
    else FindDelta(values[2..], min, value)
  }

  // ---- Windows ----------------------------------------------------------------------------------------------

  /** The values stored for the window from `i` to `j`: both ends, then the gaps of the entries between. */
  function WindowValues(list: seq<nat>, i: nat, j: nat): (r: seq<nat>)
    requires i < j < |list| && Ascending(list)
    ensures |r| >= 2
  {
    [list[i], list[j]] + DeltasFrom(list[i], list[i + 1..j])
  }

  function WindowCost(list: seq<nat>, i: nat, j: nat): nat
    requires i < j < |list| && Ascending(list)
  {
    ByteCost(WindowValues(list, i, j))
  }

  lemma WindowCostIs(list: seq<nat>, i: nat, j: nat)
    requires i < j < |list| && Ascending(list)
    ensures WindowCost(list, i, j)
            == 8 * IntegerBytes(list[i]) + 8 * IntegerBytes(list[j]) + ByteCost(DeltasFrom(list[i], list[i + 1..j]))
  {
    hide IntegerBytes, Bytes;
    CodesAppend([list[i], list[j]], DeltasFrom(list[i], list[i + 1..j]));
    ByteCostAppend([], list[i]);
    ByteCostAppend([list[i]], list[j]);
    assert [] + [list[i]] == [list[i]] && [list[i]] + [list[j]] == [list[i], list[j]];
  }

  /** How the cost changes when the window grows by one entry to the right. */
  lemma WindowGrows(list: seq<nat>, i: nat, j: nat)
    requires i < j < |list| - 1 && Ascending(list)
    ensures list[j - 1] <= list[j]
    ensures WindowCost(list, i, j + 1)
            == WindowCost(list, i, j) - 8 * IntegerBytes(list[j]) + 8 * IntegerBytes(list[j + 1])
              + 8 * IntegerBytes(list[j] - list[j - 1])
    ensures WindowCost(list, i, j + 1) >= WindowCost(list, i, j)
  {
    assert list[j - 1] <= list[j] <= list[j + 1];
    hide *;
    WindowCostIs(list, i, j);
    WindowCostIs(list, i, j + 1);
    var inner := list[i + 1..j];
    assert list[i + 1..j + 1] == inner + [list[j]];
    DeltasAppend(list[i], inner, list[j]);
    assert LastOr(list[i], inner) == list[j - 1] by { LastInner(list, i, j); }
    ByteCostAppend(DeltasFrom(list[i], inner), list[j] - list[j - 1]);
    BytesMono(list[j], list[j + 1]);
  }

  lemma LastInner(list: seq<nat>, i: nat, j: nat)
    requires i < j < |list|
    ensures LastOr(list[i], list[i + 1..j]) == list[j - 1]
  {
  }

  lemma {:induction false} WindowMono(list: seq<nat>, i: nat, j: nat, l: nat)
    requires i < j <= l < |list| && Ascending(list)
    ensures WindowCost(list, i, j) <= WindowCost(list, i, l)
  {
    hide WindowCost;
    if j < l {
      WindowMono(list, i, j, l - 1);
      WindowGrows(list, i, l - 1);
    }
  }

  /** Two neighbouring entries take at most eight bytes. */
  lemma PairCost(list: seq<nat>, i: nat)
    requires i + 1 < |list| && Ascending(list)
    ensures WindowCost(list, i, i + 1) == 8 * IntegerBytes(list[i]) + 8 * IntegerBytes(list[i + 1]) <= 64
  {
    WindowCostIs(list, i, i + 1);
    assert list[i + 1..i + 1] == [];
  }

  /** A window among those considered, of at most `room` bits. */
  ghost predicate Fits(list: seq<nat>, room: nat, i: nat, j: nat)
    requires Ascending(list)
  {
    i + 4 <= |list| && i < j <= |list| - 2 && WindowCost(list, i, j) <= room
  }

  /** The order in which the loops come to windows: by their start, then by their end. */
  ghost predicate Before(a: nat, b: nat, i: nat, j: nat) {
    a < i || (a == i && b < j)
  }

  /** The first of the widest windows: it fits, no fitting one spans more, and those before it span less. */
  ghost predicate BestWindow(list: seq<nat>, room: nat, i: nat, j: nat)
    requires Ascending(list)
  {
    && Fits(list, room, i, j)
    && forall a: nat, b: nat :: Fits(list, room, a, b) ==>
      list[b] - list[a] <= list[j] - list[i] && (Before(a, b, i, j) ==> list[b] - list[a] < list[j] - list[i])
  }

  lemma BestWindowUnique(list: seq<nat>, room: nat, i: nat, j: nat, i': nat, j': nat)
    requires Ascending(list) && BestWindow(list, room, i, j) && BestWindow(list, room, i', j')
    ensures i == i' && j == j'
  {
    hide Fits;
    assert Fits(list, room, i, j) && Fits(list, room, i', j');
  }

  /** The best window so far among those starting before `i`, and those starting at `i` and ending before `j`. */
  ghost predicate BestSoFar(list: seq<nat>, room: nat, i: nat, j: nat, idx: nat, block: nat, best: nat)
    requires Ascending(list)
  {
    && (block > 0 ==> block >= 2 && Fits(list, room, idx, idx + block - 1) && best == list[idx + block - 1] - list[idx])
    && (block > 0 ==> Before(idx, idx + block - 1, i, j))
    && (block == 0 ==> best == 0)
    && forall a: nat, b: nat :: Fits(list, room, a, b) && Before(a, b, i, j) ==>
      list[b] - list[a] <= best && block > 0 && (Before(a, b, idx, idx + block - 1) ==> list[b] - list[a] < best)
  }

  /** Chooses the window of largest span that fits; growing stops at the first end that does not fit. */
  method ChooseWindow(list: seq<nat>, room: nat) returns (idx: nat, block: nat)
    requires Ascending(list) && |list| >= 4 && room >= 64
    ensures block >= 2 && BestWindow(list, room, idx, idx + block - 1)
  {
    hide *;
    var size, best := |list|, 0;
    idx, block := 0, 0;
    BestStart(list, room);
    for i := 0 to size - 3
      invariant BestSoFar(list, room, i, 0, idx, block, best)
    {
      idx, block, best := GrowFrom(list, room, i, idx, block, best);
    }
    BestEnd(list, room, idx, block, best);
  }

  lemma BestStart(list: seq<nat>, room: nat)
    requires Ascending(list)
    ensures BestSoFar(list, room, 0, 0, 0, 0, 0)
  {
    hide Fits;
  }

  lemma BestEnd(list: seq<nat>, room: nat, idx: nat, block: nat, best: nat)
    requires Ascending(list) && |list| >= 4 && room >= 64 && BestSoFar(list, room, |list| - 3, 0, idx, block, best)
    ensures block >= 2 && BestWindow(list, room, idx, idx + block - 1)
  {
    PairCost(list, 0);
    hide WindowCost;
    assert Fits(list, room, 0, 1);
  }

  method GrowFrom(list: seq<nat>, room: nat, i: nat, idx0: nat, block0: nat, best0: nat)
    returns (idx: nat, block: nat, best: nat)
    requires Ascending(list) && i + 4 <= |list| && BestSoFar(list, room, i, 0, idx0, block0, best0)
    ensures BestSoFar(list, room, i + 1, 0, idx, block, best)
  {
    hide *;
    idx, block, best := idx0, block0, best0;
    PairCost(list, i);
    BestWide(list, room, i, idx, block, best);
    var bits := 8 * IntegerBytes(list[i]) + 8 * IntegerBytes(list[i + 1]);
    if bits > room {
      NoneFit(list, room, i, i + 1);
      BestDone(list, room, i, i + 1, idx, block, best);
      return;
    }
    BestStep(list, room, i, i + 1, idx, block, best);
    if list[i + 1] - list[i] > best {
      idx, block, best := i, 2, list[i + 1] - list[i];
    }
    for j := i + 2 to |list| - 1
      invariant bits == WindowCost(list, i, j - 1) <= room
      invariant BestSoFar(list, room, i, j, idx, block, best)
    {
      WindowGrows(list, i, j - 1);
      bits := bits + 8 * IntegerBytes(list[j]) - 8 * IntegerBytes(list[j - 1])
        + 8 * IntegerBytes(list[j - 1] - list[j - 2]);
      if bits > room {
        NoneFit(list, room, i, j);
        BestDone(list, room, i, j, idx, block, best);
        return;
      }
      BestStep(list, room, i, j, idx, block, best);
      if list[j] - list[i] > best {
        idx, block, best := i, j - i + 1, list[j] - list[i];
      }
    }
    EndOfList(list, room, i);
    BestDone(list, room, i, |list| - 1, idx, block, best);
  }

  lemma BestWide(list: seq<nat>, room: nat, i: nat, idx: nat, block: nat, best: nat)
    requires Ascending(list) && BestSoFar(list, room, i, 0, idx, block, best)
    ensures BestSoFar(list, room, i, i + 1, idx, block, best)
  {
    hide WindowCost;
  }

  /** A further fitting window replaces the best only by a strictly larger span. */
  lemma BestStep(list: seq<nat>, room: nat, i: nat, j: nat, idx: nat, block: nat, best: nat)
    requires Ascending(list) && i + 4 <= |list| && i < j <= |list| - 2 && WindowCost(list, i, j) <= room
    requires BestSoFar(list, room, i, j, idx, block, best)
    ensures list[i] < list[j]
    ensures if list[j] - list[i] > best then BestSoFar(list, room, i, j + 1, i, j - i + 1, list[j] - list[i])
            else BestSoFar(list, room, i, j + 1, idx, block, best)
  {
    hide WindowCost;
  }

  lemma BestDone(list: seq<nat>, room: nat, i: nat, j: nat, idx: nat, block: nat, best: nat)
    requires Ascending(list) && BestSoFar(list, room, i, j, idx, block, best)
    requires forall b: nat :: b >= j ==> !Fits(list, room, i, b)
    ensures BestSoFar(list, room, i + 1, 0, idx, block, best)
  {
    hide Fits;
  }

  lemma EndOfList(list: seq<nat>, room: nat, i: nat)
    requires Ascending(list) && |list| >= 1
    ensures forall b: nat :: b >= |list| - 1 ==> !Fits(list, room, i, b)
  {
  }

  lemma NoneFit(list: seq<nat>, room: nat, i: nat, j: nat)
    requires Ascending(list) && i < j <= |list| - 2 && WindowCost(list, i, j) > room
    ensures forall b: nat :: b >= j ==> !Fits(list, room, i, b)
  {
    forall b: nat | b >= j && Fits(list, room, i, b)
      ensures false
    {
      WindowMono(list, i, j, b);
    }
  }
}
