/** The plain range encoder: 32-bit fields holding a flag, then a whole list or its widest window. */
module RangeEncoder {
  import opened Common
  import opened Bits
  import opened BitSet
  import opened HashCounting
  import opened ByteStream
  import opened HybridQuery
  import opened RangeCompEncoder

  // ---- Sorting ------------------------------------------------------------------------------------------------

  function InsertSorted(x: nat, s: seq<nat>): (r: seq<nat>)
    ensures |r| == |s| + 1
  {
    if s == [] then [x] else if x <= s[0] then [x] + s else [s[0]] + InsertSorted(x, s[1..])
  }

  /** The sorted arrangement of a list. */
  function Sort(list: seq<nat>): seq<nat> {
    if list == [] then [] else InsertSorted(list[0], Sort(list[1..]))
  }

  /** A neighbour list in any order: ids of vertices, none twice. */
  ghost predicate Ids(list: seq<nat>, v: nat) {
    && (forall i :: 0 <= i < |list| ==> 1 <= list[i] <= v)
    && (forall i, j :: 0 <= i < j < |list| ==> list[i] != list[j])
  }

  lemma {:induction false} InsertBounded(x: nat, s: seq<nat>, v: nat)
    requires Bounded(s, v) && 1 <= x <= v && x !in s
    ensures Bounded(InsertSorted(x, s), v)
    ensures InsertSorted(x, s)[0] == if s == [] || x <= s[0] then x else s[0]
  {
    hide *;
    InsertCases(x, s);
    if s == [] {
      OneBounded(x, v);
    } else if x > s[0] {
      FrontBounded(s, v);
      InsertBounded(x, s[1..], v);
      ConsBounded(s[0], InsertSorted(x, s[1..]), v);
    } else {
      ConsBounded(x, s, v);
    }
  }

  lemma {:induction false} InsertCounts(x: nat, s: seq<nat>)
    ensures multiset(InsertSorted(x, s)) == multiset(s) + multiset{x}
  {
    if s != [] && x > s[0] {
      assert s == [s[0]] + s[1..];
      InsertCounts(x, s[1..]);
    }
  }

  lemma InsertCases(x: nat, s: seq<nat>)
    ensures InsertSorted(x, s) == if s == [] || x <= s[0] then [x] + s else [s[0]] + InsertSorted(x, s[1..])
  {
  }

  lemma OneBounded(x: nat, v: nat)
    requires 1 <= x <= v
    ensures Bounded([x] + [], v)
  {
  }

  lemma FrontBounded(s: seq<nat>, v: nat)
    requires Bounded(s, v) && s != []
    ensures 1 <= s[0] <= v && Bounded(s[1..], v) && (|s| > 1 ==> s[0] < s[1..][0])
  {
  }

  lemma ConsBounded(x: nat, s: seq<nat>, v: nat)
    requires Bounded(s, v) && 1 <= x <= v && s != [] && x < s[0]
    ensures Bounded([x] + s, v)
  {
    forall j | 0 <= j < |s|
      ensures x < s[j]
    {
    }
  }

  /** Sorting keeps the entries and puts them into strictly increasing order. */
  lemma {:induction false} SortBounded(list: seq<nat>, v: nat)
    requires Ids(list, v)
    ensures Bounded(Sort(list), v) && multiset(Sort(list)) == multiset(list)
  {
    if list != [] {
      SortBounded(list[1..], v);
      assert list == [list[0]] + list[1..];
      assert list[0] !in list[1..];
      SameEntries(Sort(list[1..]), list[1..], list[0]);
      InsertBounded(list[0], Sort(list[1..]), v);
      InsertCounts(list[0], Sort(list[1..]));
    }
  }

  lemma SameEntries(a: seq<nat>, b: seq<nat>, x: nat)
    requires multiset(a) == multiset(b)
    ensures |a| == |b| && (x in a <==> x in b)
  {
    assert x in a <==> x in multiset(a);
    assert |multiset(a)| == |multiset(b)|;
  }

  // ---- What is stored -----------------------------------------------------------------------------------------

  /** How far the window of `m` entries from `u` on reaches. */
  function Width(p: seq<nat>, m: nat, u: nat): int
    requires 1 <= m && u + m <= |p|
  {
    p[u + m - 1] as int - p[u] as int
  }

  /** Of the windows up to `last`, the one at `w` is the first of the widest. */
  ghost predicate Widest(p: seq<nat>, m: nat, w: nat, last: nat)
    requires 1 <= m && last + m <= |p|
  {
    w <= last && forall u :: 0 <= u <= last ==>
      Width(p, m, u) <= Width(p, m, w) && (u < w ==> Width(p, m, u) < Width(p, m, w))
  }

  ghost predicate WindowWords(m: nat, p: seq<nat>, fields: seq<nat>, w: nat)
    requires 1 <= m <= |p|
  {
    w + m <= |p| && Widest(p, m, w, |p| - m) && fields == [0] + p[w..w + m]
  }

  /** The words of a code: the whole list behind flag 1, or the widest window of the padded list behind flag 0. */
  ghost predicate Words(k: nat, v: nat, fields: seq<nat>, list: seq<nat>)
    requires k >= 2
  {
    var m, p := k - 1, Padded(list, v);
    if |list| <= m then fields == [1] + list + ZeroFill(m - |list|)
    else exists w: nat :: WindowWords(m, p, fields, w)
  }

  /** What the words of one vertex say about id `x`. */
  function RangeAnswer(fields: seq<nat>, x: nat): PairType
    requires |fields| >= 2
  {
    var stored := fields[1..];
    if fields[0] != 0 then (if x in stored then Neighbor else NonNeighbor)
    else
      var min, max := stored[0], stored[|stored| - 1];
      if x == min || x == max then Neighbor
      else if x < min || x > max then Uncertain
      else if x in stored then Neighbor else NonNeighbor
  }

  /** A list that fits is answered exactly. */
  lemma WholeWordsExact(k: nat, v: nat, fields: seq<nat>, list: seq<nat>, x: nat)
    requires k >= 3 && Bounded(list, v) && 1 <= x <= v && Words(k, v, fields, list) && |list| <= k - 1
    ensures |fields| == k && RangeAnswer(fields, x) == if x in list then Neighbor else NonNeighbor
  {
    hide Bounded, Padded;
    assert fields[1..] == list + ZeroFill(k - 1 - |list|);
  }

  /** A stored window decides exactly the ids between its ends, by membership in the list. */
  lemma WindowWordsExact(k: nat, v: nat, fields: seq<nat>, list: seq<nat>, w: nat, x: nat)
    requires k >= 3 && Bounded(list, v) && 1 <= x <= v && |list| > k - 1
    requires WindowWords(k - 1, Padded(list, v), fields, w)
    ensures |fields| == k && w + k <= |list| + 3
    ensures var p := Padded(list, v);
      RangeAnswer(fields, x)
      == if p[w] <= x <= p[w + k - 2] then if x in list then Neighbor else NonNeighbor else Uncertain
  {
    var m, p := k - 1, Padded(list, v);
    PaddedAscending(list, v);
    assert p[w] < p[w + m - 1];
    hide Bounded, Padded, Widest, Ascending;
    assert fields[1..] == p[w..w + m];
    WindowSound(list, v, w, m, x);
  }

  /** The code never contradicts the list, and decides every id when the list fits. */
  lemma WordsSound(k: nat, v: nat, fields: seq<nat>, list: seq<nat>, x: nat)
    requires k >= 3 && Bounded(list, v) && 1 <= x <= v && Words(k, v, fields, list)
    ensures |fields| == k && Truthful(RangeAnswer(fields, x), x, list)
    ensures |list| <= k - 1 ==> RangeAnswer(fields, x) != Uncertain
  {
    hide RangeAnswer, Bounded, Padded, WindowWords;
    var m, p := k - 1, Padded(list, v);
    if |list| <= m {
      WholeWordsExact(k, v, fields, list, x);
    } else {
      var w: nat :| WindowWords(m, p, fields, w);
      WindowWordsExact(k, v, fields, list, w, x);
    }
  }

  lemma WindowSound(list: seq<nat>, v: nat, w: nat, m: nat, x: nat)
    requires m >= 2 && Bounded(list, v) && 1 <= x <= v && w + m <= |Padded(list, v)|
    ensures var p := Padded(list, v);
      var min, max := p[w], p[w + m - 1];
      && (x == min || x == max ==> x in list)
      && (min < x < max ==> (x in list <==> x in p[w..w + m]))
  {
    var p, j := Padded(list, v), w + m - 1;
    hide Padded, Bounded;
    EndsAreEntries(list, v, w, j, x);
    if p[w] < x < p[j] {
      BetweenEnds(list, v, w, j, x);
      assert p[w..w + m] == [p[w]] + p[w + 1..j] + [p[j]];
    }
  }

  /** Two codes of a symmetric graph never contradict the edge between their vertices. */
  lemma RangePairSound(k: nat, v: nat, fields1: seq<nat>, fields2: seq<nat>, list1: seq<nat>, list2: seq<nat>, x1: nat,
                       x2: nat)
    requires k >= 3 && Bounded(list1, v) && Bounded(list2, v) && 1 <= x1 <= v && 1 <= x2 <= v
    requires Words(k, v, fields1, list1) && Words(k, v, fields2, list2) && (x2 in list1 <==> x1 in list2)
    ensures |fields1| == |fields2| == k
    ensures Truthful(MinAnswer(RangeAnswer(fields1, x2), RangeAnswer(fields2, x1)), x2, list1)
    ensures |list1| <= k - 1 || |list2| <= k - 1 ==>
      MinAnswer(RangeAnswer(fields1, x2), RangeAnswer(fields2, x1)) == if x2 in list1 then Neighbor else NonNeighbor
    ensures MinAnswer(RangeAnswer(fields1, x2), RangeAnswer(fields2, x1)) == Uncertain
      <==> RangeAnswer(fields1, x2) == Uncertain && RangeAnswer(fields2, x1) == Uncertain
  {
    hide RangeAnswer, Words, Bounded;
    WordsSound(k, v, fields1, list1, x2);
    WordsSound(k, v, fields2, list2, x1);
  }

  /** The scan over all windows: the first of the widest, with -1 for the window that starts at the lower sentinel. */
  method ChooseWidest(list: seq<nat>, v: nat, m: nat) returns (idx: int)
    requires Bounded(list, v) && 2 <= m < |list|
    ensures -1 <= idx <= |list| - m + 1
    ensures Widest(Padded(list, v), m, idx + 1, |list| - m + 2)
  {
    ghost var p := Padded(list, v);
    hide *;
    FirstScore(list, v, m);
    LastScore(list, v, m);
    var size := |list|;
    var max_score: int := list[m - 2];
    idx := -1;
    WidestStart(p, m);
    for i := 0 to size - m + 1
      invariant -1 <= idx < i && max_score == Width(p, m, idx + 1) && Widest(p, m, idx + 1, i)
    {
      var score: int := list[i + m - 1] as int - list[i] as int;
      InnerScore(list, v, m, i);
      WidestStep(p, m, idx + 1, i);
      if max_score < score {
        max_score := score;
        idx := i;
      }
    }
    var score: int := v as int + 1 - list[size - m + 1] as int;
    WidestStep(p, m, idx + 1, size - m + 1);
    if score > max_score {
      idx := size - m + 1;
    }
  }

  lemma WidestStart(p: seq<nat>, m: nat)
    requires 1 <= m <= |p|
    ensures Widest(p, m, 0, 0)
  {
  }

  /** One more window: it takes over only when it is strictly wider. */
  lemma WidestStep(p: seq<nat>, m: nat, w: nat, last: nat)
    requires 1 <= m && last + 1 + m <= |p| && w <= last && Widest(p, m, w, last)
    ensures Widest(p, m, if Width(p, m, w) < Width(p, m, last + 1) then last + 1 else w, last + 1)
  {
    hide Width;
  }

  lemma FirstScore(list: seq<nat>, v: nat, m: nat)
    requires 2 <= m < |list|
    ensures Width(Padded(list, v), m, 0) == list[m - 2]
  {
  }

  lemma InnerScore(list: seq<nat>, v: nat, m: nat, i: nat)
    requires 1 <= m && i + m <= |list|
    ensures Width(Padded(list, v), m, i + 1) == list[i + m - 1] as int - list[i] as int
  {
  }

  lemma LastScore(list: seq<nat>, v: nat, m: nat)
    requires 2 <= m < |list|
    ensures Width(Padded(list, v), m, |list| - m + 2) == v as int + 1 - list[|list| - m + 1] as int
  {
  }

  /** Writing one word changes that word only. */
  lemma FieldWritten(s: seq<bool>, k: nat, n: nat, value: nat)
    requires n < k && Span(k, 32) <= |s| && Span(n, 32) == 32 * n && 32 * n + 32 <= |s| && value < Pow2(32)
    ensures Fields(Splice(s, 32 * n, ToBits(value, 32)), 0, 32, k) == Fields(s, 0, 32, k)[n := value]
  {
    hide *;
    var r := Splice(s, 32 * n, ToBits(value, 32));
    var l, f := Fields(r, 0, 32, k), Fields(s, 0, 32, k);
    forall t | 0 <= t < k
      ensures l[t] == f[n := value][t]
    {
      FieldsAt(r, 0, 32, k, t);
      FieldsAt(s, 0, 32, k, t);
      if t == n {
        ReadBack(s, 32 * n, 32, value);
      } else {
        SpanIsProduct(t, 32);
        ReadElsewhere(s, 32 * n, ToBits(value, 32), 32 * t, 32);
      }
    }
  }

  lemma FirstWord(k: nat, flag: nat, list: seq<nat>)
    requires k >= 1
    ensures var blank: seq<nat> := ZeroFill(k); blank[0 := flag] == [flag] + list[..0] + ZeroFill(k - 1)
  {
  }

  lemma NextWord(k: nat, flag: nat, list: seq<nat>, i: nat)
    requires 1 <= i < k && i <= |list|
    ensures ([flag] + list[..i - 1] + ZeroFill(k - i))[i := list[i - 1]] == [flag] + list[..i] + ZeroFill(k - (i + 1))
  {
    var l := ([flag] + list[..i - 1] + ZeroFill(k - i))[i := list[i - 1]];
    var r := [flag] + list[..i] + ZeroFill(k - (i + 1));
    forall t | 0 <= t < k
      ensures l[t] == r[t]
    {
    }
  }

  /** The `i`-th word of the window at `idx`: a sentinel only at the ends of the padded list. */
  lemma WindowEntry(list: seq<nat>, v: nat, idx: int, m: nat, i: nat)
    requires Bounded(list, v) && 2 <= m < |list| && -1 <= idx <= |list| - m + 1 && 1 <= i <= m
    ensures var w := Padded(list, v)[idx + 1..idx + 1 + m][i - 1];
      && w <= v + 1
      && (idx + i - 1 == -1 ==> w == 0) && (idx + i - 1 == |list| ==> w == v + 1)
      && (0 <= idx + i - 1 < |list| ==> w == list[idx + i - 1])
  {
    PaddedAscending(list, v);
    assert Padded(list, v)[idx + 1..idx + 1 + m][i - 1] == Padded(list, v)[idx + i];
  }

  class RangeEncode {
    const k: nat
    const v: nat
    const encodes: seq<BitSetSIMD>

    ghost predicate Valid() {
      && 3 <= k <= 64 && v < 0xFFFF_FFFF
      && |encodes| == v + 1
      && (forall i :: 0 <= i < |encodes| ==> encodes[i].data.Length == 4 * k)
      && (forall i, j :: 0 <= i < j < |encodes| ==> encodes[i].data != encodes[j].data)
    }

    ghost function Code(vertex: nat): (s: seq<nat>)
      requires Valid() && vertex <= v
      reads encodes[vertex].data
      ensures |s| == k
    {
      WordsOf(encodes[vertex])
    }

    /** The 32-bit words of a buffer. */
    ghost function WordsOf(encode: BitSetSIMD): (s: seq<nat>)
      requires encode.data.Length == 4 * k
      reads encode.data
      ensures |s| == k
    {
      SpanIsProduct(k, 32);
      Fields(encode.Bits(), 0, 32, k)
    }

    constructor (k: nat, v: nat)
      requires 3 <= k <= 64 && v < 0xFFFF_FFFF
      ensures Valid() && this.k == k && this.v == v
      ensures forall i :: 0 <= i <= v ==> fresh(encodes[i].data)
    {
      var list: seq<BitSetSIMD> := [];
      for i := 0 to v + 1
        invariant |list| == i
        invariant forall j :: 0 <= j < i ==> fresh(list[j].data) && list[j].data.Length == 4 * k
        invariant forall j, l :: 0 <= j < l < i ==> list[j].data != list[l].data
      {
        var b := new BitSetSIMD(32 * k);
        list := list + [b];
      }
      this.k := k;
      this.v := v;
      encodes := list;
    }

    /** Writes word `n` and no other. */
    method PutWord(encode: BitSetSIMD, n: nat, value: nat)
      requires n < k <= 64 && encode.data.Length == 4 * k && value < 0x1_0000_0000
      modifies encode.data
      ensures WordsOf(encode) == old(WordsOf(encode))[n := value]
    {
      Pow2Word();
      SpanIsProduct(k, 32);
      SpanIsProduct(n, 32);
      hide Fields, Span, BitsOf, Pow2, Splice, ToBits;
      ghost var before := encode.Bits();
      encode.BlockSet(n * 32, 32, value);
      FieldWritten(before, k, n, value);
    }

    /** Writes flag 1 and a list into a cleared buffer. */
    method WriteWhole(encode: BitSetSIMD, list: seq<nat>)
      requires 3 <= k <= 64 && v < 0xFFFF_FFFF && encode.data.Length == 4 * k && Bounded(list, v) && |list| <= k - 1
      requires WordsOf(encode) == ZeroFill(k)
      modifies encode.data
      ensures WordsOf(encode) == [1] + list + ZeroFill(k - 1 - |list|)
    {
      hide WordsOf, ZeroFill;
      PutWord(encode, 0, 1);
      assert WordsOf(encode) == [1] + list[..0] + ZeroFill(k - 1) by { FirstWord(k, 1, list); }
      for i := 1 to |list| + 1
        invariant WordsOf(encode) == [1] + list[..i - 1] + ZeroFill(k - i)
      {
        PutWord(encode, i, list[i - 1]);
        NextWord(k, 1, list, i);
      }
      assert list[..|list|] == list;
    }

    /** Writes flag 0 and the window at `idx` into a cleared buffer; the sentinels stand at its ends only. */
    method WriteWindow(encode: BitSetSIMD, list: seq<nat>, idx: int)
      requires 3 <= k <= 64 && v < 0xFFFF_FFFF && encode.data.Length == 4 * k && Bounded(list, v)
      requires |list| > k - 1 && -1 <= idx <= |list| + 2 - k
      requires WordsOf(encode) == ZeroFill(k)
      modifies encode.data
      ensures WordsOf(encode) == [0] + Padded(list, v)[idx + 1..idx + k]
    {
      hide WordsOf, Padded, ZeroFill, Bounded;
      var m, size := k - 1, |list|;
      ghost var window := Padded(list, v)[idx + 1..idx + 1 + m];
      PutWord(encode, 0, 0);
      assert WordsOf(encode) == [0] + window[..0] + ZeroFill(m) by { FirstWord(k, 0, window); }
      for i := 1 to m + 1
        invariant WordsOf(encode) == [0] + window[..i - 1] + ZeroFill(k - i)
      {
        var value :=
          if i == 1 && idx == -1 then 0
          else if i == m && idx == size - m + 1 then v + 1
          else list[idx + i - 1];
        WindowEntry(list, v, idx, m, i);
        PutWord(encode, i, value);
        NextWord(k, 0, window, i);
      }
      assert [0] + window[..m] + ZeroFill(0) == [0] + window;
    }

    method EncodeVertex(vertex: nat, neighbors: seq<nat>)
      requires Valid() && vertex <= v && Ids(neighbors, v)
      modifies encodes[vertex].data
      ensures Bounded(Sort(neighbors), v) && Words(k, v, Code(vertex), Sort(neighbors))
    {
      hide Bounded, Widest, Padded, Sort, Ids, BitsOf, Fields;
      SortBounded(neighbors, v);
      var list := Sort(neighbors);
      var encode := encodes[vertex];
      encode.Clear();
      SpanIsProduct(k, 32);
      BlankFields(encode.Bits(), 0, 32, k);
      hide WordsOf;
      if |list| <= k - 1 {
        WriteWhole(encode, list);
      } else {
        var idx := ChooseWidest(list, v, k - 1);
        WriteWindow(encode, list, idx);
        assert WindowWords(k - 1, Padded(list, v), Code(vertex), idx + 1);
      }
    }

    method WordAt(encode: BitSetSIMD, t: nat) returns (word: nat)
      requires encode.data.Length == 4 * k && t < k
      ensures word == WordsOf(encode)[t]
    {
      SpanIsProduct(k, 32);
      SpanIsProduct(t, 32);
      hide Fields, Span, BitsOf;
      FieldsAt(encode.Bits(), 0, 32, k, t);
      word := encode.BlockGet(32 * t, 32);
    }

    /** Compares the words from the second on with `value`, up to bit `limit`. */
    method HoldsWord(encode: BitSetSIMD, limit: nat, value: nat) returns (hit: bool)
      requires encode.data.Length == 4 * k && k >= 1 && 32 * k - 32 <= limit < 32 * k
      ensures hit <==> value in WordsOf(encode)[1..]
    {
      hide WordsOf;
      ghost var words := WordsOf(encode);
      var index := 32;
      ghost var t := 1;
      while index <= limit
        invariant 1 <= t <= k && index == 32 * t && value !in words[1..t]
        decreases k - t
      {
        var word := WordAt(encode, index / 32);
        if word == value {
          assert words[1..][t - 1] == value;
          return true;
        }
        assert words[1..t + 1] == words[1..t] + [word];
        index, t := index + 32, t + 1;
      }
      assert words[1..t] == words[1..];
      return false;
    }

    method NonNeighborTest(vertex1: nat, vertex2: nat) returns (r: PairType)
      requires Valid() && vertex1 <= v
      ensures r == RangeAnswer(Code(vertex1), vertex2)
    {
      hide WordsOf;
      var encode := encodes[vertex1];
      var flag := WordAt(encode, 0);
      if flag != 0 {
        var hit := HoldsWord(encode, 32 * k - 32 + 1, vertex2);
        return if hit then Neighbor else NonNeighbor;
      } else {
        var min := WordAt(encode, 1);
        var max := WordAt(encode, k - 1);
        if vertex2 == min || vertex2 == max {
          return Neighbor;
        }
        if vertex2 < min || vertex2 > max {
          return Uncertain;
        }
        var hit := HoldsWord(encode, 32 * (k - 1), vertex2);
        return if hit then Neighbor else NonNeighbor;
      }
    }

    /** The smaller answer of both sides. */
    method NEpairTest(vertex1: nat, vertex2: nat) returns (r: PairType)
      requires Valid() && vertex1 <= v && vertex2 <= v
      ensures r == MinAnswer(RangeAnswer(Code(vertex1), vertex2), RangeAnswer(Code(vertex2), vertex1))
    {
      hide RangeAnswer, WordsOf;
      var type1 := NonNeighborTest(vertex1, vertex2);
      var type2 := NonNeighborTest(vertex2, vertex1);
      r := if PairCode(type1) < PairCode(type2) then type1 else type2;
    }
  }
}
