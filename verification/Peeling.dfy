/** Bucket peeling: retiring vertices in order of residual degree with four arrays kept in step. */
module Peeling {
  import opened HashCounting

  /** A simple undirected graph on ids `1..v` as sorted adjacency lists; entry 0 is unused. */
  ghost predicate IsGraph(adj: seq<seq<nat>>, v: nat) {
    && |adj| == v + 1 && adj[0] == []
    && (forall x :: 0 <= x <= v ==> Bounded(adj[x], v) && x !in adj[x])
    && (forall x, y :: 0 <= x <= v && 0 <= y <= v && y in adj[x] ==> x in adj[y])
  }

  /** The entries of a list that are not gone. */
  function Remaining(list: seq<nat>, gone: set<nat>): seq<nat> {
    if list == [] then []
    else
      var n := |list| - 1;
      Remaining(list[..n], gone) + (if list[n] in gone then [] else [list[n]])
  }

  lemma {:induction false} RemainingMembers(list: seq<nat>, gone: set<nat>)
    ensures forall x :: x in Remaining(list, gone) <==> x in list && x !in gone
  {
    if list != [] {
      var n := |list| - 1;
      RemainingMembers(list[..n], gone);
      assert list == list[..n] + [list[n]];
    }
  }

  lemma {:induction false} RemainingBounded(list: seq<nat>, gone: set<nat>, v: nat)
    requires Bounded(list, v)
    ensures Bounded(Remaining(list, gone), v)
    ensures |Remaining(list, gone)| <= |list|
  {
    if list != [] {
      var n := |list| - 1;
      var front := list[..n];
      RemainingBounded(front, gone, v);
      RemainingMembers(front, gone);
      AppendBounded(Remaining(front, gone), list, v);
    }
  }

  lemma AppendBounded(kept: seq<nat>, list: seq<nat>, v: nat)
    requires list != [] && Bounded(list, v) && Bounded(kept, v)
    requires forall i :: 0 <= i < |kept| ==> kept[i] in list[..|list| - 1]
    ensures Bounded(kept + [list[|list| - 1]], v)
  {
    var n := |list| - 1;
    forall i | 0 <= i < |kept|
      ensures kept[i] < list[n]
    {
      assert kept[i] in list[..n];
      var j :| 0 <= j < n && list[..n][j] == kept[i];
    }
  }

  lemma {:induction false} RemainingNone(list: seq<nat>)
    ensures Remaining(list, {}) == list
  {
    if list != [] {
      RemainingNone(list[..|list| - 1]);
    }
  }

  /** Retiring one more vertex shortens the residual lists of its neighbours by one and leaves the others alone. */
  lemma {:induction false} RemainingDrop(list: seq<nat>, gone: set<nat>, x: nat, v: nat)
    requires Bounded(list, v) && x !in gone
    ensures |Remaining(list, gone + {x})| == |Remaining(list, gone)| - (if x in list then 1 else 0)
    ensures x !in list ==> Remaining(list, gone + {x}) == Remaining(list, gone)
  {
    if list != [] {
      var n := |list| - 1;
      RemainingDrop(list[..n], gone, x, v);
      assert list == list[..n] + [list[n]];
      if list[n] == x {
        assert x !in list[..n];
      }
    }
  }

  function Members(order: seq<nat>): set<nat> {
    set x | x in order
  }

  lemma MembersAppend(order: seq<nat>, x: nat)
    ensures Members(order + [x]) == Members(order) + {x}
  {
  }

  // ---- The arrays -------------------------------------------------------------------------------------------

  /** `vert` lists all vertices, `pos` is its inverse. */
  ghost predicate Inverse(vert: seq<nat>, pos: seq<nat>) {
    && |pos| == |vert|
    && (forall i :: 0 <= i < |vert| ==> vert[i] < |vert| && pos[vert[i]] == i)
    && (forall x :: 0 <= x < |pos| ==> pos[x] < |vert| && vert[pos[x]] == x)
  }

  lemma PrefixMember(vert: seq<nat>, pos: seq<nat>, idx: nat, x: nat)
    requires Inverse(vert, pos) && idx <= |vert| && x < |pos|
    ensures x in Members(vert[..idx]) <==> pos[x] < idx
  {
    if pos[x] < idx {
      assert vert[..idx][pos[x]] == x;
    }
    if x in vert[..idx] {
      var i :| 0 <= i < idx && vert[..idx][i] == x;
      assert pos[vert[i]] == i;
    }
  }

  /** `bin[d]` is the first index whose vertex has degree at least `d`. */
  ghost predicate BinsOk(vert: seq<nat>, bin: seq<nat>, deg: seq<nat>) {
    && |deg| == |vert|
    && (forall i :: 0 <= i < |vert| ==> vert[i] < |deg|)
    && forall d :: 0 <= d < |bin| ==> BinAt(vert, deg, d, bin[d])
  }

  ghost predicate BinAt(vert: seq<nat>, deg: seq<nat>, d: nat, b: nat)
    requires forall i :: 0 <= i < |vert| ==> vert[i] < |deg|
  {
    b <= |vert| && forall i :: 0 <= i < |vert| ==> (i < b <==> deg[vert[i]] < d)
  }

  ghost predicate Buckets(vert: seq<nat>, pos: seq<nat>, bin: seq<nat>, deg: seq<nat>) {
    && Inverse(vert, pos)
    && BinsOk(vert, bin, deg)
    && forall x :: 0 <= x < |deg| ==> deg[x] < |bin|
  }

  /** In a bucket order the vertices are sorted by degree. */
  lemma BucketsSorted(vert: seq<nat>, pos: seq<nat>, bin: seq<nat>, deg: seq<nat>, i: nat, j: nat)
    requires Buckets(vert, pos, bin, deg) && i <= j < |vert|
    ensures deg[vert[i]] <= deg[vert[j]]
  {
    assert BinAt(vert, deg, deg[vert[i]], bin[deg[vert[i]]]);
  }

  /** `bin[d]` counts the vertices of degree below `d`. */
  lemma BinCounts(vert: seq<nat>, pos: seq<nat>, bin: seq<nat>, deg: seq<nat>, d: nat)
    requires Buckets(vert, pos, bin, deg) && d < |bin|
    ensures |set x | 0 <= x < |deg| && deg[x] < d| == bin[d]
  {
    var s := set x | 0 <= x < |deg| && deg[x] < d;
    assert BinAt(vert, deg, d, bin[d]);
    assert s == Members(vert[..bin[d]]) by {
      forall x | 0 <= x < |deg| && deg[x] < d
        ensures x in vert[..bin[d]]
      {
        assert vert[..bin[d]][pos[x]] == x;
      }
    }
    DistinctSize(vert[..bin[d]]);
  }

  lemma {:induction false} DistinctSize(s: seq<nat>)
    requires forall i, j :: 0 <= i < j < |s| ==> s[i] != s[j]
    ensures |Members(s)| == |s|
  {
    if s != [] {
      var n := |s| - 1;
      DistinctSize(s[..n]);
      MembersAppend(s[..n], s[n]);
      assert s == s[..n] + [s[n]];
    }
  }

  /** Moving `u` to the front of its bucket and shrinking the bucket lowers its degree by one and nothing else. */
  lemma LowerDegree(vert: seq<nat>, pos: seq<nat>, bin: seq<nat>, deg: seq<nat>, u: nat)
    requires Buckets(vert, pos, bin, deg) && u < |deg| && deg[u] >= 1
    ensures var d, p := deg[u], pos[u];
      var f := bin[d];
      && f <= p < |vert|
      && var w := vert[f];
      Buckets(vert[p := w][f := u], pos[u := f][w := p], bin[d := f + 1], deg[u := d - 1])
  {
    var d, p := deg[u], pos[u];
    assert BinAt(vert, deg, d, bin[d]);
    var f := bin[d];
    var w := vert[f];
    var vert', pos', bin', deg' := vert[p := w][f := u], pos[u := f][w := p], bin[d := f + 1], deg[u := d - 1];
    assert deg[w] == d by { BucketsSorted(vert, pos, bin, deg, f, p); }
    assert Inverse(vert', pos');
    forall e | 0 <= e < |bin'|
      ensures BinAt(vert', deg', e, bin'[e])
    {
      assert BinAt(vert, deg, e, bin[e]);
    }
  }

  /** The degree of every vertex. */
  ghost function DegreesOf(adj: seq<seq<nat>>): (r: seq<nat>)
    ensures |r| == |adj|
  {
    seq(|adj|, x requires 0 <= x < |adj| => |adj[x]|)
  }

  // ---- Building the arrays ------------------------------------------------------------------------------------

  ghost predicate Absent(deg: seq<nat>, d: nat) {
    forall x :: 0 <= x < |deg| ==> deg[x] != d
  }

  /** First indices of the degrees that occur, zero for the others. */
  ghost predicate RawBins(vert: seq<nat>, deg: seq<nat>, raw: seq<nat>)
    requires forall i :: 0 <= i < |vert| ==> vert[i] < |deg|
  {
    && |raw| >= 1 && raw[0] == 0
    && forall d :: 1 <= d < |raw| ==>
      if Absent(deg, d) then raw[d] == 0
      else 1 <= raw[d] < |vert| && deg[vert[raw[d]]] == d && forall i :: 0 <= i < raw[d] ==> deg[vert[i]] < d
  }

  ghost predicate SortedByDegree(vert: seq<nat>, deg: seq<nat>)
    requires forall i :: 0 <= i < |vert| ==> vert[i] < |deg|
  {
    forall i, j :: 0 <= i < j < |vert| ==> deg[vert[i]] <= deg[vert[j]]
  }

  /** What the filling pass stores for degree `d`. */
  function Fill(raw: seq<nat>, d: nat): nat
    requires d < |raw|
  {
    if d == 0 || raw[d] != 0 then raw[d]
    else if d == 1 || raw[d - 1] != 0 then Fill(raw, d - 1) + 1
    else Fill(raw, d - 1)
  }

  /** Wherever a run of absent degrees starts, exactly one vertex has the degree before it. */
  ghost predicate GapsHarmless(deg: seq<nat>, max: nat) {
    forall d, x, y :: 1 <= d <= max && Absent(deg, d) && 0 <= x < |deg| && 0 <= y < |deg| && deg[x] == d - 1
      && deg[y] == d - 1
      ==> x == y
  }

  ghost predicate Start(vert: seq<nat>, pos: seq<nat>, raw: seq<nat>, deg: seq<nat>) {
    && |vert| >= 1 && |deg| == |vert|
    && Inverse(vert, pos) && SortedByDegree(vert, deg) && RawBins(vert, deg, raw)
    && vert[0] == 0 && deg[0] == 0
    && (forall x :: 0 <= x < |deg| ==> deg[x] < |raw|)
  }

  lemma {:induction false} FillRight(vert: seq<nat>, pos: seq<nat>, raw: seq<nat>, deg: seq<nat>, d: nat)
    requires Start(vert, pos, raw, deg) && GapsHarmless(deg, |raw| - 1) && d < |raw|
    ensures BinAt(vert, deg, d, Fill(raw, d))
  {
    if d > 0 {
      FillRight(vert, pos, raw, deg, d - 1);
      if Absent(deg, d) {
        forall i | 0 <= i < |vert|
          ensures i < Fill(raw, d) <==> deg[vert[i]] < d
        {
          assert deg[vert[i]] != d;
          if d == 1 || raw[d - 1] != 0 {
            GapStep(vert, pos, raw, deg, d, i);
          }
        }
      }
    }
  }

  /** At the start of a gap the single vertex of the degree before it sits where that degree's bucket begins. */
  lemma GapStep(vert: seq<nat>, pos: seq<nat>, raw: seq<nat>, deg: seq<nat>, d: nat, i: nat)
    requires Start(vert, pos, raw, deg) && GapsHarmless(deg, |raw| - 1) && 1 <= d < |raw| && i < |vert|
    requires Absent(deg, d) && (d == 1 || raw[d - 1] != 0) && BinAt(vert, deg, d - 1, Fill(raw, d - 1))
    ensures Fill(raw, d - 1) < |vert|
    ensures i < Fill(raw, d - 1) + 1 <==> deg[vert[i]] < d
  {
    BucketStart(vert, pos, raw, deg, d - 1);
    if deg[vert[i]] == d - 1 {
      AloneInBucket(vert, pos, deg, |raw| - 1, d, Fill(raw, d - 1), i);
    }
    hide *;
    assert deg[vert[i]] != d by { NotThere(vert, deg, d, i); }
    BoundAt(vert, deg, d - 1, Fill(raw, d - 1), i);
  }

  lemma NotThere(vert: seq<nat>, deg: seq<nat>, d: nat, i: nat)
    requires Absent(deg, d) && i < |vert| && vert[i] < |deg|
    ensures deg[vert[i]] != d
  {
  }

  lemma BoundAt(vert: seq<nat>, deg: seq<nat>, d: nat, b: nat, i: nat)
    requires (forall i :: 0 <= i < |vert| ==> vert[i] < |deg|) && BinAt(vert, deg, d, b) && i < |vert|
    ensures i < b <==> deg[vert[i]] < d
  {
  }

  /** The first index of a degree that occurs holds a vertex of that degree. */
  lemma BucketStart(vert: seq<nat>, pos: seq<nat>, raw: seq<nat>, deg: seq<nat>, d: nat)
    requires Start(vert, pos, raw, deg) && d < |raw| && (d == 0 || raw[d] != 0)
    ensures Fill(raw, d) < |vert| && vert[Fill(raw, d)] < |deg| && deg[vert[Fill(raw, d)]] == d
  {
    hide SortedByDegree;
    assert Fill(raw, d) == raw[d];
  }

  lemma AloneInBucket(vert: seq<nat>, pos: seq<nat>, deg: seq<nat>, max: nat, d: nat, b: nat, i: nat)
    requires Inverse(vert, pos) && |deg| == |vert| && GapsHarmless(deg, max) && 1 <= d <= max && Absent(deg, d)
    requires b < |vert| && i < |vert| && vert[b] < |deg| && vert[i] < |deg| && deg[vert[b]] == d - 1 == deg[vert[i]]
    ensures i == b
  {
    assert vert[i] == vert[b];
    assert pos[vert[i]] == i && pos[vert[b]] == b;
  }

  function Filled(raw: seq<nat>): (r: seq<nat>)
    ensures |r| == |raw|
  {
    seq(|raw|, d requires 0 <= d < |raw| => Fill(raw, d))
  }

  /** The filling pass yields the bucket boundaries exactly when the gaps are harmless. */
  lemma FillIff(vert: seq<nat>, pos: seq<nat>, raw: seq<nat>, deg: seq<nat>)
    requires Start(vert, pos, raw, deg)
    ensures Buckets(vert, pos, Filled(raw), deg) <==> GapsHarmless(deg, |raw| - 1)
  {
    var bin := Filled(raw);
    if GapsHarmless(deg, |raw| - 1) {
      forall d | 0 <= d < |raw|
        ensures BinAt(vert, deg, d, bin[d])
      {
        FillRight(vert, pos, raw, deg, d);
      }
    }
    if Buckets(vert, pos, bin, deg) {
      forall d, x, y | 1 <= d <= |raw| - 1 && Absent(deg, d) && 0 <= x < |deg| && 0 <= y < |deg| && deg[x] == d - 1
        && deg[y] == d - 1
        ensures x == y
      {
        assert BinAt(vert, deg, d, bin[d]) && BinAt(vert, deg, d - 1, bin[d - 1]);
        assert !Absent(deg, d - 1);
        assert vert[pos[x]] == x && vert[pos[y]] == y;
      }
    }
  }

  // ---- The peeling order ------------------------------------------------------------------------------------

  /** Each vertex of the order had at most `k` neighbours left when its turn came. */
  ghost predicate PeelOrder(adj: seq<seq<nat>>, order: seq<nat>, k: nat) {
    forall i :: 0 <= i < |order| ==> order[i] < |adj| && |Remaining(adj[order[i]], Members(order[..i]))| <= k
  }

  /** The entries of a list that lie in a set. */
  function Kept(list: seq<nat>, inside: set<nat>): seq<nat> {
    if list == [] then []
    else
      var n := |list| - 1;
      Kept(list[..n], inside) + (if list[n] in inside then [list[n]] else [])
  }

  /** Every member of the set has more than `k` neighbours in it. */
  ghost predicate Dense(adj: seq<seq<nat>>, s: set<nat>, k: nat) {
    forall x :: x in s ==> x < |adj| && |Kept(adj[x], s)| > k
  }

  lemma {:induction false} KeptAtMost(list: seq<nat>, s: set<nat>, gone: set<nat>)
    requires s !! gone
    ensures |Kept(list, s)| <= |Remaining(list, gone)|
  {
    if list != [] {
      KeptAtMost(list[..|list| - 1], s, gone);
    }
  }

  lemma {:induction false} KeptIsRemaining(list: seq<nat>, s: set<nat>, gone: set<nat>)
    requires forall x :: x in list ==> (x in s <==> x !in gone)
    ensures Kept(list, s) == Remaining(list, gone)
  {
    if list != [] {
      var n := |list| - 1;
      assert list == list[..n] + [list[n]];
      KeptIsRemaining(list[..n], s, gone);
    }
  }

  /** No dense set meets a peeling order. */
  lemma {:induction false} DenseSurvives(adj: seq<seq<nat>>, order: seq<nat>, s: set<nat>, k: nat)
    requires PeelOrder(adj, order, k) && Dense(adj, s, k)
    ensures s !! Members(order)
  {
    if order != [] {
      var n := |order| - 1;
      var front := order[..n];
      assert PeelOrder(adj, front, k) by {
        forall i | 0 <= i < n
          ensures front[i] < |adj| && |Remaining(adj[front[i]], Members(front[..i]))| <= k
        {
          assert front[..i] == order[..i] && front[i] == order[i];
        }
      }
      DenseSurvives(adj, front, s, k);
      if order[n] in s {
        KeptAtMost(adj[order[n]], s, Members(front));
        assert false;
      }
      assert order == front + [order[n]];
      MembersAppend(front, order[n]);
    }
  }

  /** The vertices outside `order` are the largest set in which every vertex has more than `k` neighbours inside. */
  ghost predicate LeavesCore(adj: seq<seq<nat>>, v: nat, order: seq<nat>, k: nat) {
    var core := set x: nat | x <= v && x !in order;
    Dense(adj, core, k) && forall s: set<nat> :: Dense(adj, s, k) ==> s <= core
  }

  /** What peeling leaves is the largest set in which every vertex has more than `k` neighbours inside. */
  lemma PeelingLeavesCore(adj: seq<seq<nat>>, v: nat, order: seq<nat>, k: nat)
    requires IsGraph(adj, v) && PeelOrder(adj, order, k)
    requires forall x :: 0 <= x <= v && x !in order ==> |Remaining(adj[x], Members(order))| > k
    ensures LeavesCore(adj, v, order, k)
  {
    var core := set x: nat | x <= v && x !in order;
    forall x | x in core
      ensures |Kept(adj[x], core)| > k
    {
      assert Bounded(adj[x], v);
      KeptIsRemaining(adj[x], core, Members(order));
    }
    forall s: set<nat> | Dense(adj, s, k)
      ensures s <= core
    {
      DenseSurvives(adj, order, s, k);
    }
  }

  // ---- A graph with a harmful gap -----------------------------------------------------------------------------

  /** The star: vertex `v` joined to all others, which have no other neighbour. */
  function Star(v: nat): (adj: seq<seq<nat>>)
    requires v >= 1
    ensures |adj| == v + 1
  {
    seq(v + 1, x requires 0 <= x <= v =>
      if x == 0 then [] else if x == v then seq(v - 1, i requires 0 <= i < v - 1 => i + 1) else [v])
  }

  function Identity(n: nat): (r: seq<nat>)
    ensures |r| == n
  {
    seq(n, i requires 0 <= i < n => i)
  }

  /** First indices in a star whose vertices are in order: leaves from 1 on, the centre last. */
  function StarBins(v: nat): (raw: seq<nat>)
    ensures |raw| == v
  {
    seq(v, d requires 0 <= d < v => if d == 1 then 1 else if d == v - 1 then v else 0)
  }

  lemma StarIsGraph(v: nat)
    requires v >= 2
    ensures IsGraph(Star(v), v)
  {
    var adj := Star(v);
    forall x | 0 <= x <= v
      ensures Bounded(adj[x], v) && x !in adj[x]
      ensures forall y :: y in adj[x] <==> 1 <= x && 1 <= y <= v && x != y && (x == v || y == v)
    {
      if x == v {
        forall y | 1 <= y < v
          ensures y in adj[v]
        {
          assert adj[v][y - 1] == y;
        }
      }
    }
  }

  lemma StarStart(v: nat)
    requires v >= 4
    ensures Start(Identity(v + 1), Identity(v + 1), StarBins(v), DegreesOf(Star(v)))
  {
    var deg := DegreesOf(Star(v));
    assert forall x :: 0 <= x <= v ==> deg[x] == if x == 0 then 0 else if x == v then v - 1 else 1;
    assert !Absent(deg, 1) by { assert deg[1] == 1; }
    assert !Absent(deg, v - 1) by { assert deg[v] == v - 1; }
  }

  lemma {:induction false} StarFill(v: nat, d: nat)
    requires v >= 4 && 2 <= d < v - 1
    ensures Fill(StarBins(v), d) == 2
  {
    if d > 2 {
      StarFill(v, d - 1);
    }
  }

  /** With a vertex left over that has few neighbours at all, no core is left. */
  lemma PoorVertexLeft(adj: seq<seq<nat>>, v: nat, order: seq<nat>, k: nat, x: nat)
    requires x <= v && x !in order && x < |adj| && |adj[x]| <= k
    ensures !LeavesCore(adj, v, order, k)
  {
    var core := set x: nat | x <= v && x !in order;
    KeptAtMost(adj[x], core, {});
    RemainingNone(adj[x]);
    assert x in core;
  }

  /**
   * On every star the fill loop goes wrong. All bucket starts between the two degrees are 2, so the peeling loop stops
   * once it has retired vertex 0 and one leaf, whose turn lowers the centre in place and bumps the last start only.
   * The other leaves stay.
   */
  lemma StarStopsEarly(v: nat, k: nat)
    requires 1 <= k && k + 3 <= v
    ensures IsGraph(Star(v), v)
    ensures Start(Identity(v + 1), Identity(v + 1), StarBins(v), DegreesOf(Star(v)))
    ensures !GapsHarmless(DegreesOf(Star(v)), v - 1)
    ensures !Buckets(Identity(v + 1), Identity(v + 1), Filled(StarBins(v)), DegreesOf(Star(v)))
    ensures Filled(StarBins(v))[k + 1] == 2 && Filled(StarBins(v))[v - 1] == v
    ensures !LeavesCore(Star(v), v, Identity(v + 1)[..2], k)
  {
    hide *;
    StarIsGraph(v);
    StarStart(v);
    StarFilled(v, k + 1);
    StarGap(v);
    FillIff(Identity(v + 1), Identity(v + 1), StarBins(v), DegreesOf(Star(v)));
    LeafLeft(v, k);
  }

  lemma StarFilled(v: nat, d: nat)
    requires v >= 4 && 2 <= d < v - 1
    ensures Filled(StarBins(v))[d] == 2 && Filled(StarBins(v))[v - 1] == v
  {
    StarFill(v, d);
  }

  lemma StarGap(v: nat)
    requires v >= 4
    ensures !GapsHarmless(DegreesOf(Star(v)), v - 1)
  {
    var deg := DegreesOf(Star(v));
    assert deg[1] == 1 && deg[2] == 1 && Absent(deg, 2);
  }

  lemma LeafLeft(v: nat, k: nat)
    requires v >= 4 && k >= 1
    ensures !LeavesCore(Star(v), v, Identity(v + 1)[..2], k)
  {
    assert |Star(v)[2]| == 1;
    hide LeavesCore;
    PoorVertexLeft(Star(v), v, Identity(v + 1)[..2], k, 2);
  }
}
