/** The array program of bucket peeling: degrees, order, inverse and bucket starts, updated in place. */
module BucketPeel {
  import opened HashCounting
  import opened Peeling

  method CountDegrees(adj: seq<seq<nat>>) returns (degrees: array<nat>, max_degree: nat)
    requires |adj| >= 1 && adj[0] == []
    ensures fresh(degrees) && degrees.Length == |adj|
    ensures forall x :: 0 <= x < |adj| ==> degrees[x] == |adj[x]| <= max_degree
    ensures exists x :: 0 <= x < |adj| && degrees[x] == max_degree
  {
    degrees := new nat[|adj|](_ => 0);
    max_degree := 0;
    ghost var top := 0;
    for id := 1 to |adj|
      invariant 0 <= top < id && degrees[top] == max_degree
      invariant forall x :: 0 <= x < id ==> degrees[x] == |adj[x]| <= max_degree
    {
      var degree := |adj[id]|;
      if degree > max_degree {
        max_degree, top := degree, id;
      }
      degrees[id] := degree;
    }
  }

  ghost predicate IsPermutation(vert: seq<nat>) {
    exists pos: seq<nat> :: Inverse(vert, pos)
  }

  /** First indices of the degrees that occur among the first `n` entries of `vert`. */
  ghost predicate PrefixBins(vert: seq<nat>, deg: seq<nat>, raw: seq<nat>, n: nat)
    requires n <= |vert| && forall i :: 0 <= i < |vert| ==> vert[i] < |deg|
  {
    && |raw| >= 1 && raw[0] == 0
    && forall d :: 1 <= d < |raw| ==>
      if forall i :: 0 <= i < n ==> deg[vert[i]] != d then raw[d] == 0
      else 1 <= raw[d] < n && deg[vert[raw[d]]] == d && forall i :: 0 <= i < raw[d] ==> deg[vert[i]] < d
  }

  lemma PrefixBinsStep(vert: seq<nat>, deg: seq<nat>, raw: seq<nat>, n: nat)
    requires 1 <= n < |vert| && (forall i :: 0 <= i < |vert| ==> vert[i] < |deg|)
    requires SortedByDegree(vert, deg) && PrefixBins(vert, deg, raw, n) && deg[vert[n]] < |raw|
    ensures var d := deg[vert[n]];
      PrefixBins(vert, deg, if d > deg[vert[n - 1]] then raw[d := n] else raw, n + 1)
  {
    var d := deg[vert[n]];
    var raw' := if d > deg[vert[n - 1]] then raw[d := n] else raw;
    forall e | 1 <= e < |raw|
      ensures if forall i :: 0 <= i < n + 1 ==> deg[vert[i]] != e then raw'[e] == 0
        else 1 <= raw'[e] < n + 1 && deg[vert[raw'[e]]] == e && forall i :: 0 <= i < raw'[e] ==> deg[vert[i]] < e
    {
      if e == d && d > deg[vert[n - 1]] {
        assert forall i :: 0 <= i < n ==> deg[vert[i]] <= deg[vert[n - 1]];
      } else if e == d {
        assert deg[vert[n - 1]] == d;
      }
    }
  }

  method FirstIndices(vert: array<nat>, degrees: array<nat>, max_degree: nat) returns (pos: array<nat>, bin: array<nat>)
    requires IsPermutation(vert[..]) && vert.Length == degrees.Length >= 1
    requires forall i :: 0 <= i < vert.Length ==> vert[i] < degrees.Length
    requires SortedByDegree(vert[..], degrees[..]) && vert[0] == 0 && degrees[0] == 0
    requires forall x :: 0 <= x < degrees.Length ==> degrees[x] <= max_degree
    ensures fresh(pos) && fresh(bin) && pos != bin && pos.Length == vert.Length && bin.Length == max_degree + 1
    ensures Start(vert[..], pos[..], bin[..], degrees[..])
  {
    ghost var order, deg := vert[..], degrees[..];
    bin := new nat[max_degree + 1](_ => 0);
    pos := new nat[vert.Length](_ => 0);
    var j := 0;
    FirstEntry(order, deg, bin[..]);
    assert Indexed(order, pos[..], 1);
    hide *;
    for i: nat := 1 to vert.Length
      invariant j == deg[order[i - 1]]
      invariant Indexed(order, pos[..], i)
      invariant PrefixBins(order, deg, bin[..], i)
    {
      PrefixBinsStep(order, deg, bin[..], i);
      IndexedStep(order, pos[..], i);
      OrderStep(order, deg, i);
      j := RecordIndex(vert, degrees, pos, bin, i, j);
    }
    IndexIsInverse(order, pos[..]);
    Started(order, pos[..], deg, bin[..]);
  }

  method RecordIndex(vert: array<nat>, degrees: array<nat>, pos: array<nat>, bin: array<nat>, i: nat, j: nat)
    returns (next: nat)
    requires i < vert.Length && vert[i] < degrees.Length == pos.Length && degrees[vert[i]] < bin.Length
    requires vert != pos && vert != bin && degrees != pos && degrees != bin && pos != bin
    modifies pos, bin
    ensures pos[..] == old(pos[..])[vert[i] := i]
    ensures var d := degrees[vert[i]];
      if d > j then next == d && bin[..] == old(bin[..])[d := i] else next == j && bin[..] == old(bin[..])
  {
    var degree := degrees[vert[i]];
    pos[vert[i]] := i;
    next := j;
    if degree > j {
      next := degree;
      bin[next] := i;
    }
  }

  ghost predicate Indexed(vert: seq<nat>, pos: seq<nat>, n: nat) {
    |pos| == |vert| && n <= |vert| && forall t :: 0 <= t < n ==> vert[t] < |pos| && pos[vert[t]] == t
  }

  lemma IndexedStep(vert: seq<nat>, pos: seq<nat>, i: nat)
    requires IsPermutation(vert) && i < |vert| && vert[i] < |pos| && Indexed(vert, pos, i)
    ensures Indexed(vert, pos[vert[i] := i], i + 1)
  {
    DistinctEntries(vert);
  }

  lemma DistinctEntries(vert: seq<nat>)
    requires IsPermutation(vert)
    ensures forall i, j :: 0 <= i < j < |vert| ==> vert[i] != vert[j]
  {
    var inv: seq<nat> :| Inverse(vert, inv);
  }

  lemma OrderStep(vert: seq<nat>, deg: seq<nat>, i: nat)
    requires 1 <= i < |vert| && (forall t :: 0 <= t < |vert| ==> vert[t] < |deg|) && SortedByDegree(vert, deg)
    ensures deg[vert[i - 1]] <= deg[vert[i]]
  {
  }

  lemma FirstEntry(vert: seq<nat>, deg: seq<nat>, raw: seq<nat>)
    requires |vert| >= 1 && vert[0] == 0 && (forall i :: 0 <= i < |vert| ==> vert[i] < |deg|) && deg[0] == 0
    requires |raw| >= 1 && forall d :: 0 <= d < |raw| ==> raw[d] == 0
    ensures PrefixBins(vert, deg, raw, 1)
  {
  }

  lemma IndexIsInverse(vert: seq<nat>, pos: seq<nat>)
    requires IsPermutation(vert) && Indexed(vert, pos, |vert|)
    ensures Inverse(vert, pos)
  {
    var inv: seq<nat> :| Inverse(vert, inv);
    forall x | 0 <= x < |pos|
      ensures pos[x] == inv[x]
    {
      assert pos[vert[inv[x]]] == inv[x];
    }
  }

  lemma Started(vert: seq<nat>, pos: seq<nat>, deg: seq<nat>, raw: seq<nat>)
    requires Inverse(vert, pos) && 1 <= |vert| == |deg| && SortedByDegree(vert, deg)
      && PrefixBins(vert, deg, raw, |vert|)
    requires vert[0] == 0 && deg[0] == 0 && forall x :: 0 <= x < |deg| ==> deg[x] < |raw|
    ensures Start(vert, pos, raw, deg)
  {
    AllPresent(vert, pos, deg, raw);
  }

  lemma AllPresent(vert: seq<nat>, pos: seq<nat>, deg: seq<nat>, raw: seq<nat>)
    requires Inverse(vert, pos) && |deg| == |vert| && PrefixBins(vert, deg, raw, |vert|)
    ensures RawBins(vert, deg, raw)
  {
    forall d | 1 <= d < |raw|
      ensures Absent(deg, d) <==> forall i :: 0 <= i < |vert| ==> deg[vert[i]] != d
    {
      if x :| 0 <= x < |deg| && deg[x] == d {
        assert deg[vert[pos[x]]] == d;
      }
    }
  }

  /** Gives absent degrees a bucket start by running over each gap. */
  method FillBins(bin: array<nat>)
    requires bin.Length >= 1 && bin[0] == 0 && (bin.Length > 1 ==> bin[bin.Length - 1] != 0)
    modifies bin
    ensures bin[..] == Filled(old(bin[..]))
  {
    ghost var raw := bin[..];
    var max := bin.Length - 1;
    var j := 1;
    while j <= max
      invariant 1 <= j <= max + 1 && (j <= max ==> j == 1 || raw[j - 1] != 0)
      invariant forall d :: 0 <= d < j ==> bin[d] == Fill(raw, d)
      invariant forall d :: j <= d <= max ==> bin[d] == raw[d]
    {
      if bin[j] == 0 {
        bin[j] := bin[j - 1] + 1;
        j := j + 1;
        while bin[j] == 0
          invariant 1 < j <= max && raw[j - 1] == 0
          invariant forall d :: 0 <= d < j ==> bin[d] == Fill(raw, d)
          invariant forall d :: j <= d <= max ==> bin[d] == raw[d]
          decreases max - j
        {
          bin[j] := bin[j - 1];
          j := j + 1;
        }
      }
      j := j + 1;
    }
  }

  /** The residual degree of `x` is tracked exactly while it is above the peeling level, and from above otherwise. */
  ghost predicate Tracks(adj: seq<seq<nat>>, deg: seq<nat>, x: nat, gone: set<nat>, level: nat)
    requires x < |adj| && x < |deg|
  {
    var left := |Remaining(adj[x], gone)|;
    left <= deg[x] && (deg[x] > level ==> left == deg[x])
  }

  /** What holds between two retirements, `idx` vertices being retired. */
  ghost predicate PeelState(adj: seq<seq<nat>>, v: nat, vert: seq<nat>, pos: seq<nat>, bin: seq<nat>, deg: seq<nat>,
                            filtered: seq<bool>, idx: nat, level: nat) {
    && IsGraph(adj, v) && Buckets(vert, pos, bin, deg) && |vert| == |filtered| == v + 1 && idx <= |vert|
    && (forall x :: 0 <= x <= v ==> (filtered[x] <==> pos[x] < idx))
    && (forall i :: idx <= i <= v ==> level <= deg[vert[i]])
    && (forall x :: 0 <= x <= v && pos[x] >= idx ==> Tracks(adj, deg, x, Members(vert[..idx]), level))
  }

  /** Moves `u` down one bucket. */
  method LowerNeighbor(vert: array<nat>, pos: array<nat>, bin: array<nat>, degrees: array<nat>, u: nat)
    requires Distinct(vert, pos, bin, degrees) && Buckets(vert[..], pos[..], bin[..], degrees[..])
    requires u < degrees.Length && degrees[u] >= 1
    modifies vert, pos, bin, degrees
    ensures Buckets(vert[..], pos[..], bin[..], degrees[..])
    ensures degrees[..] == old(degrees[..])[u := old(degrees[u]) - 1]
    ensures old(bin[degrees[u]]) < vert.Length
    ensures forall i :: 0 <= i < old(bin[degrees[u]]) ==> vert[i] == old(vert[i])
    ensures forall x :: 0 <= x < pos.Length ==>
      pos[x] == old(pos[x]) || (pos[x] >= old(bin[degrees[u]]) && old(pos[x]) >= old(bin[degrees[u]]))
  {
    LowerDegree(vert[..], pos[..], bin[..], degrees[..], u);
    var neighbor_degree, neighbor_pos := degrees[u], pos[u];
    var first_bin_pos := bin[neighbor_degree];
    var first_bin := vert[first_bin_pos];
    ghost var vert', pos' := vert[..][neighbor_pos := first_bin][first_bin_pos := u],
      pos[..][u := first_bin_pos][first_bin := neighbor_pos];
    if first_bin_pos != neighbor_pos {
      pos[u] := first_bin_pos;
      pos[first_bin] := neighbor_pos;
      vert[neighbor_pos] := first_bin;
      vert[first_bin_pos] := u;
    }
    assert vert[..] == vert' && pos[..] == pos';
    bin[neighbor_degree] := bin[neighbor_degree] + 1;
    degrees[u] := degrees[u] - 1;
  }

  ghost predicate Distinct(vert: array<nat>, pos: array<nat>, bin: array<nat>, degrees: array<nat>) {
    vert != pos && vert != bin && vert != degrees && pos != bin && pos != degrees && bin != degrees
  }

  /** A retired neighbour of `vertex` leaves one fewer on `u`'s residual list. */
  lemma TracksAfter(adj: seq<seq<nat>>, v: nat, deg: seq<nat>, u: nat, vertex: nat, gone: set<nat>, level: nat)
    requires IsGraph(adj, v) && |deg| == v + 1 && vertex <= v && u in adj[vertex] && vertex !in gone
    requires Tracks(adj, deg, u, gone, level)
    ensures u <= v
    ensures deg[u] <= level ==> Tracks(adj, deg, u, gone + {vertex}, level)
    ensures deg[u] > level ==> deg[u] >= 1 && Tracks(adj, deg[u := deg[u] - 1], u, gone + {vertex}, level)
  {
    assert Bounded(adj[vertex], v) && u <= v;
    assert vertex in adj[u];
    assert Bounded(adj[u], v);
    RemainingDrop(adj[u], gone, vertex, v);
  }

  lemma TracksKept(adj: seq<seq<nat>>, v: nat, deg: seq<nat>, u: nat, vertex: nat, gone: set<nat>, level: nat)
    requires IsGraph(adj, v) && |deg| == v + 1 && vertex <= v && u <= v && u !in adj[vertex] && vertex !in gone
    requires Tracks(adj, deg, u, gone, level)
    ensures Tracks(adj, deg, u, gone + {vertex}, level)
  {
    assert vertex !in adj[u];
    assert Bounded(adj[u], v);
    RemainingDrop(adj[u], gone, vertex, v);
  }

  /** While the neighbours of `vert[idx]` are walked: those seen are tracked without it, the others with it. */
  ghost predicate WalkState(adj: seq<seq<nat>>, v: nat, vert: seq<nat>, pos: seq<nat>, bin: seq<nat>, deg: seq<nat>,
                            idx: nat, t: nat, gone: set<nat>) {
    && IsGraph(adj, v) && Buckets(vert, pos, bin, deg) && |vert| == v + 1 && idx < |vert|
    && var vertex := vert[idx];
    && t <= |adj[vertex]| && vertex !in gone
    && (forall x :: 0 <= x <= v && pos[x] > idx ==>
         Tracks(adj, deg, x, if x in adj[vertex][..t] then gone + {vertex} else gone, deg[vertex]))
  }

  lemma WalkStart(adj: seq<seq<nat>>, v: nat, vert: seq<nat>, pos: seq<nat>, bin: seq<nat>, deg: seq<nat>,
                  filtered: seq<bool>, idx: nat, level: nat)
    requires PeelState(adj, v, vert, pos, bin, deg, filtered, idx, level) && idx < |vert|
    ensures WalkState(adj, v, vert, pos, bin, deg, idx, 0, Members(vert[..idx]))
  {
    var gone := Members(vert[..idx]);
    forall i | 0 <= i < idx
      ensures vert[i] != vert[idx]
    {
      assert pos[vert[i]] == i;
    }
    forall x | 0 <= x <= v && pos[x] > idx
      ensures Tracks(adj, deg, x, gone, deg[vert[idx]])
    {
      assert Tracks(adj, deg, x, gone, level);
    }
  }

  /** A neighbour that is retired already, or that sits at the peeling level, is passed over. */
  lemma WalkPass(adj: seq<seq<nat>>, v: nat, vert: seq<nat>, pos: seq<nat>, bin: seq<nat>, deg: seq<nat>, idx: nat,
                 t: nat, gone: set<nat>)
    requires WalkState(adj, v, vert, pos, bin, deg, idx, t, gone) && t < |adj[vert[idx]]|
    requires var u := adj[vert[idx]][t]; u <= v && (pos[u] < idx || deg[u] <= deg[vert[idx]])
    ensures WalkState(adj, v, vert, pos, bin, deg, idx, t + 1, gone)
  {
    var vertex := vert[idx];
    var list := adj[vertex];
    var u := list[t];
    assert list[..t + 1] == list[..t] + [u] && u !in list[..t];
    hide Buckets, Remaining, IsGraph;
    forall x | 0 <= x <= v && pos[x] > idx
      ensures Tracks(adj, deg, x, if x in list[..t + 1] then gone + {vertex} else gone, deg[vertex])
    {
      if x == u {
        TracksAfter(adj, v, deg, u, vertex, gone, deg[vertex]);
      }
    }
  }

  /** The arrays after `u` went down a bucket, seen from the walk. */
  ghost predicate Lowered(vert: seq<nat>, pos: seq<nat>, deg: seq<nat>, vert': seq<nat>, pos': seq<nat>, deg': seq<nat>,
                          idx: nat, u: nat) {
    && |vert'| == |vert| == |pos'| == |pos| == |deg| && u < |deg| && deg[u] >= 1 && deg' == deg[u := deg[u] - 1]
    && (forall i :: 0 <= i <= idx < |vert| ==> vert'[i] == vert[i])
    && (forall x :: 0 <= x < |pos| ==> (pos'[x] > idx <==> pos[x] > idx))
  }

  lemma WalkLower(adj: seq<seq<nat>>, v: nat, vert: seq<nat>, pos: seq<nat>, bin: seq<nat>, deg: seq<nat>,
                  vert': seq<nat>, pos': seq<nat>, bin': seq<nat>, deg': seq<nat>, idx: nat, t: nat, gone: set<nat>)
    requires WalkState(adj, v, vert, pos, bin, deg, idx, t, gone) && t < |adj[vert[idx]]|
    requires Buckets(vert', pos', bin', deg')
    requires var u := adj[vert[idx]][t];
      u <= v && pos[u] > idx && deg[u] > deg[vert[idx]] && Lowered(vert, pos, deg, vert', pos', deg', idx, u)
    ensures WalkState(adj, v, vert', pos', bin', deg', idx, t + 1, gone)
  {
    var vertex := vert[idx];
    var list := adj[vertex];
    var u := list[t];
    assert list[..t + 1] == list[..t] + [u] && u !in list[..t];
    hide Buckets, Remaining, IsGraph;
    forall x | 0 <= x <= v && pos'[x] > idx
      ensures Tracks(adj, deg', x, if x in list[..t + 1] then gone + {vertex} else gone, deg[vertex])
    {
      if x == u {
        TracksAfter(adj, v, deg, u, vertex, gone, deg[vertex]);
      } else {
        assert Tracks(adj, deg, x, if x in list[..t] then gone + {vertex} else gone, deg[vertex]);
      }
    }
  }

  lemma WalkEnd(adj: seq<seq<nat>>, v: nat, vert: seq<nat>, pos: seq<nat>, bin: seq<nat>, deg: seq<nat>,
                filtered: seq<bool>, idx: nat)
    requires idx < |vert| && vert[idx] < |adj|
      && WalkState(adj, v, vert, pos, bin, deg, idx, |adj[vert[idx]]|, Members(vert[..idx]))
    requires |filtered| == v + 1 && forall x :: 0 <= x <= v ==> (filtered[x] <==> pos[x] <= idx)
    ensures PeelState(adj, v, vert, pos, bin, deg, filtered, idx + 1, deg[vert[idx]])
  {
    var vertex, gone := vert[idx], Members(vert[..idx]);
    var list := adj[vertex];
    assert list[..|list|] == list;
    assert vert[..idx + 1] == vert[..idx] + [vertex];
    MembersAppend(vert[..idx], vertex);
    forall i | idx + 1 <= i <= v
      ensures deg[vertex] <= deg[vert[i]]
    {
      BucketsSorted(vert, pos, bin, deg, idx, i);
    }
    hide Remaining;
    forall x | 0 <= x <= v && pos[x] >= idx + 1
      ensures Tracks(adj, deg, x, gone + {vertex}, deg[vertex])
    {
      if x !in list {
        TracksKept(adj, v, deg, x, vertex, gone, deg[vertex]);
      }
    }
  }

  /** One neighbour of the vertex being retired. */
  method WalkStep(adj: seq<seq<nat>>, ghost v: nat, vert: array<nat>, pos: array<nat>, bin: array<nat>,
                  degrees: array<nat>,
                  filtered: array<bool>, idx: nat, t: nat, vertex_degree: nat, ghost gone: set<nat>)
    returns (live: bool)
    requires Distinct(vert, pos, bin, degrees) && idx < vert.Length && gone == Members(vert[..idx])
    requires WalkState(adj, v, vert[..], pos[..], bin[..], degrees[..], idx, t, gone)
    requires t < |adj[vert[idx]]| && vertex_degree == degrees[vert[idx]]
    requires filtered.Length == v + 1 && forall x :: 0 <= x <= v ==> (filtered[x] <==> pos[x] < idx)
    modifies vert, pos, bin, degrees
    ensures WalkState(adj, v, vert[..], pos[..], bin[..], degrees[..], idx, t + 1, gone)
    ensures vert[..idx + 1] == old(vert[..idx + 1]) && degrees[vert[idx]] == old(degrees[vert[idx]])
    ensures forall x :: 0 <= x <= v ==> (pos[x] < idx <==> old(pos[x]) < idx)
    ensures live <==> old(adj[vert[idx]][t]) !in gone
  {
    ghost var vs, ps, bs, ds := vert[..], pos[..], bin[..], degrees[..];
    var vertex := vert[idx];
    var u := adj[vertex][t];
    assert Bounded(adj[vertex], v) && u <= v && u in adj[vertex] && u != vertex;
    live := !filtered[u];
    PrefixMember(vs, ps, idx, u);
    if live && vertex_degree < degrees[u] {
      assert BinAt(vs, ds, ds[u], bs[ds[u]]);
      LowerNeighbor(vert, pos, bin, degrees, u);
      hide Buckets, IsGraph, Tracks;
      assert Lowered(vs, ps, ds, vert[..], pos[..], degrees[..], idx, u);
      WalkLower(adj, v, vs, ps, bs, ds, vert[..], pos[..], bin[..], degrees[..], idx, t, gone);
    } else {
      WalkPass(adj, v, vs, ps, bs, ds, idx, t, gone);
    }
  }

  /** Retires the vertex at `idx` and returns its neighbours that are still there. */
  method Retire(adj: seq<seq<nat>>, ghost v: nat, vert: array<nat>, pos: array<nat>, bin: array<nat>,
                degrees: array<nat>, filtered: array<bool>, idx: nat, ghost level: nat)
    returns (neighbors: seq<nat>)
    requires Distinct(vert, pos, bin, degrees) && idx < vert.Length
    requires PeelState(adj, v, vert[..], pos[..], bin[..], degrees[..], filtered[..], idx, level)
    modifies vert, pos, bin, degrees, filtered
    ensures vert[..idx + 1] == old(vert[..idx + 1])
    ensures neighbors == Remaining(adj[vert[idx]], Members(vert[..idx]))
    ensures |neighbors| <= old(degrees[vert[idx]])
    ensures PeelState(adj, v, vert[..], pos[..], bin[..], degrees[..], filtered[..], idx + 1, old(degrees[vert[idx]]))
  {
    neighbors := [];
    ghost var gone, prefix := Members(vert[..idx]), vert[..idx + 1];
    var vertex := vert[idx];
    var vertex_degree := degrees[vertex];
    var list := adj[vertex];
    assert list[..0] == [];
    WalkStart(adj, v, vert[..], pos[..], bin[..], degrees[..], filtered[..], idx, level);
    assert pos[vertex] == idx && Tracks(adj, degrees[..], vertex, gone, level);
    assert |Remaining(list, gone)| <= vertex_degree;
    hide Tracks, Buckets, IsGraph, Members;
    for t := 0 to |list|
      invariant vert[..idx + 1] == prefix && degrees[vertex] == vertex_degree
      invariant WalkState(adj, v, vert[..], pos[..], bin[..], degrees[..], idx, t, gone)
      invariant forall x :: 0 <= x <= v ==> (filtered[x] <==> pos[x] < idx)
      invariant neighbors == Remaining(list[..t], gone)
    {
      assert vert[idx] == prefix[idx] && vert[..idx] == prefix[..idx];
      var live := WalkStep(adj, v, vert, pos, bin, degrees, filtered, idx, t, vertex_degree, gone);
      RemainingStep(list, t, gone);
      if live {
        neighbors := neighbors + [list[t]];
      }
    }
    assert list[..|list|] == list;
    assert vert[idx] == prefix[idx] && vert[..idx] == prefix[..idx];
    MarkRetired(v, vert, pos, bin, degrees, filtered, idx);
    WalkEnd(adj, v, vert[..], pos[..], bin[..], degrees[..], filtered[..], idx);
  }

  lemma RemainingStep(list: seq<nat>, t: nat, gone: set<nat>)
    requires t < |list|
    ensures Remaining(list[..t + 1], gone) == Remaining(list[..t], gone) + (if list[t] in gone then [] else [list[t]])
  {
    assert list[..t + 1][..t] == list[..t];
  }

  method MarkRetired(ghost v: nat, vert: array<nat>, pos: array<nat>, bin: array<nat>, degrees: array<nat>,
                     filtered: array<bool>, idx: nat)
    requires Buckets(vert[..], pos[..], bin[..], degrees[..]) && idx < vert.Length == filtered.Length == v + 1
    requires forall x :: 0 <= x <= v ==> (filtered[x] <==> pos[x] < idx)
    modifies filtered
    ensures forall x :: 0 <= x <= v ==> (filtered[x] <==> pos[x] <= idx)
  {
    filtered[vert[idx]] := true;
  }

  /** The neighbours not filtered out. */
  method LiveNeighbors(list: seq<nat>, filtered: array<bool>, ghost gone: set<nat>) returns (neighbors: seq<nat>)
    requires forall i :: 0 <= i < |list| ==> list[i] < filtered.Length && (filtered[list[i]] <==> list[i] in gone)
    ensures neighbors == Remaining(list, gone)
  {
    neighbors := [];
    assert list[..0] == [];
    for t := 0 to |list|
      invariant neighbors == Remaining(list[..t], gone)
    {
      RemainingStep(list, t, gone);
      if !filtered[list[t]] {
        neighbors := neighbors + [list[t]];
      }
    }
    assert list[..|list|] == list;
  }
}
