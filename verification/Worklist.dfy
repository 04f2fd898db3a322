/** Worklist peeling by code size: what every order of work keeps, and why all orders agree. */
module Worklist {
  import opened Common
  import opened BitSet
  import opened HashCounting
  import opened Peeling
  import opened ByteStream
  import opened DeltaCode

  /** The three ways of costing a list: fixed width, bytes, bytes of gaps. */
  datatype CompMethod = FixedWidth(width: nat) | PlainBytes | DeltaBytes

  function Cost(m: CompMethod, list: seq<nat>): nat
    requires Ascending(list)
  {
    match m
    case FixedWidth(w) => Span(|list|, w)
    case PlainBytes => ByteCost(list)
    case DeltaBytes => DeltaCost(list)
  }

  /** The bits each method asks for. */
  method RequiredBits(m: CompMethod, list: seq<nat>) returns (bits: nat)
    requires Ascending(list)
    ensures bits == Cost(m, list) && (m.FixedWidth? ==> bits == |list| * m.width)
  {
    match m
    case FixedWidth(w) =>
      SpanIsProduct(|list|, w);
      bits := |list| * w;
    case PlainBytes =>
      bits := GetByteBits(list);
    case DeltaBytes =>
      bits := GetRequiredBits(list);
  }

  /** No method charges more after entries are dropped. */
  lemma CostShrinks(m: CompMethod, list: seq<nat>, gone: set<nat>)
    requires Ascending(list)
    ensures Ascending(Remaining(list, gone)) && Cost(m, Remaining(list, gone)) <= Cost(m, list)
  {
    DeltaCostShrinks(list, gone);
    PlainCostShrinks(list, gone, if m.FixedWidth? then m.width else 0);
  }

  lemma {:induction false} RemainingTwice(list: seq<nat>, a: set<nat>, b: set<nat>)
    requires a <= b
    ensures Remaining(Remaining(list, a), b) == Remaining(list, b)
  {
    if list != [] {
      var n := |list| - 1;
      var front, x := list[..n], list[n];
      RemainingTwice(front, a, b);
      var kept := Remaining(front, a);
      if x !in a {
        assert (kept + [x])[..|kept|] == kept;
      } else {
        assert Remaining(list, a) == kept + [] == kept;
      }
    }
  }

  /** The more vertices are gone, the cheaper the residual lists. */
  lemma CostFalls(m: CompMethod, list: seq<nat>, a: set<nat>, b: set<nat>)
    requires Ascending(list) && a <= b
    ensures Ascending(Remaining(list, a)) && Ascending(Remaining(list, b))
    ensures Cost(m, Remaining(list, b)) <= Cost(m, Remaining(list, a))
  {
    CostShrinks(m, list, a);
    CostShrinks(m, Remaining(list, a), b);
    RemainingTwice(list, a, b);
  }

  predicate IsId(x: nat, v: nat) {
    1 <= x <= v
  }

  function Ids(v: nat): (r: set<nat>)
    ensures forall x: nat :: x in r <==> IsId(x, v)
  {
    set x: nat | x <= v && IsId(x, v)
  }

  /** A vertex whose residual list fits once `gone` have left. */
  ghost predicate FitsWithout(adj: seq<seq<nat>>, v: nat, m: CompMethod, room: nat, gone: set<nat>, x: nat)
    requires IsGraph(adj, v) && x <= v
  {
    assert Bounded(adj[x], v);
    RemainingBounded(adj[x], gone, v);
    Cost(m, Remaining(adj[x], gone)) <= room
  }

  /** A set of vertices none of which fits as long as the whole set stays. */
  ghost predicate Stuck(adj: seq<seq<nat>>, v: nat, m: CompMethod, room: nat, s: set<nat>)
    requires IsGraph(adj, v)
  {
    s <= Ids(v) && forall x :: x in s ==> !FitsWithout(adj, v, m, room, Ids(v) - s, x)
  }

  /** No stuck set has lost a member. */
  ghost predicate Fair(adj: seq<seq<nat>>, v: nat, m: CompMethod, room: nat, gone: set<nat>)
    requires IsGraph(adj, v)
  {
    gone <= Ids(v) && forall s: set<nat> :: Stuck(adj, v, m, room, s) ==> s !! gone
  }

  lemma FairStart(adj: seq<seq<nat>>, v: nat, m: CompMethod, room: nat)
    requires IsGraph(adj, v)
    ensures Fair(adj, v, m, room, {})
  {
  }

  /** Retiring a vertex that fits keeps every stuck set whole. */
  lemma FairStep(adj: seq<seq<nat>>, v: nat, m: CompMethod, room: nat, gone: set<nat>, x: nat)
    requires IsGraph(adj, v) && Fair(adj, v, m, room, gone) && 1 <= x <= v && FitsWithout(adj, v, m, room, gone, x)
    ensures Fair(adj, v, m, room, gone + {x})
  {
    forall s: set<nat> | Stuck(adj, v, m, room, s)
      ensures s !! gone + {x}
    {
      if x in s {
        assert Bounded(adj[x], v) && !FitsWithout(adj, v, m, room, Ids(v) - s, x);
        CostFalls(m, adj[x], gone, Ids(v) - s);
        assert false;
      }
    }
  }

  /** A finished state: nothing that is left fits. */
  ghost predicate Finished(adj: seq<seq<nat>>, v: nat, m: CompMethod, room: nat, gone: set<nat>)
    requires IsGraph(adj, v)
  {
    Fair(adj, v, m, room, gone) && forall x :: 1 <= x <= v && x !in gone ==> !FitsWithout(adj, v, m, room, gone, x)
  }

  /** What is left at the end is the largest stuck set. */
  lemma FinishedIsLargest(adj: seq<seq<nat>>, v: nat, m: CompMethod, room: nat, gone: set<nat>)
    requires IsGraph(adj, v) && Finished(adj, v, m, room, gone)
    ensures Stuck(adj, v, m, room, Ids(v) - gone)
    ensures forall s: set<nat> :: Stuck(adj, v, m, room, s) ==> s <= Ids(v) - gone
  {
    assert Ids(v) - (Ids(v) - gone) == gone;
  }

  /** Every order of work retires the same vertices. */
  lemma FinishedUnique(adj: seq<seq<nat>>, v: nat, m: CompMethod, room: nat, a: set<nat>, b: set<nat>)
    requires IsGraph(adj, v) && Finished(adj, v, m, room, a) && Finished(adj, v, m, room, b)
    ensures a == b
  {
    FinishedIsLargest(adj, v, m, room, a);
    FinishedIsLargest(adj, v, m, room, b);
    assert a == Ids(v) - (Ids(v) - a) && b == Ids(v) - (Ids(v) - b);
  }

  // ---- The lists the vertices are encoded with --------------------------------------------------------------

  /** Retired vertices keep sublists of their neighbours; an edge at a retired vertex is on one of its two lists, and on
      the retired vertex's own list while the other end is still there. */
  ghost predicate Cover(adj: seq<seq<nat>>, v: nat, gone: set<nat>, lists: seq<seq<nat>>)
    requires IsGraph(adj, v)
  {
    && |lists| == v + 1 && gone <= Ids(v)
    && (forall x :: x in gone ==> SubList(adj, v, lists, x))
    && (forall x, y :: x in gone && 0 <= y <= v && y in adj[x] ==> y in lists[x] || (y in gone && x in lists[y]))
  }

  ghost predicate SubList(adj: seq<seq<nat>>, v: nat, lists: seq<seq<nat>>, x: nat)
    requires |adj| == |lists|
  {
    x < |lists| && Bounded(lists[x], v) && forall i :: 0 <= i < |lists[x]| ==> lists[x][i] in adj[x]
  }

  /** A list may be given to `x` when it holds neighbours only, and all those still there. */
  ghost predicate Suits(adj: seq<seq<nat>>, v: nat, gone: set<nat>, x: nat, list: seq<nat>)
    requires x < |adj|
  {
    && Bounded(list, v)
    && (forall i :: 0 <= i < |list| ==> list[i] in adj[x])
    && (forall i :: 0 <= i < |adj[x]| && adj[x][i] !in gone ==> adj[x][i] in list)
  }

  lemma WholeSuits(adj: seq<seq<nat>>, v: nat, gone: set<nat>, x: nat)
    requires IsGraph(adj, v) && x <= v
    ensures Suits(adj, v, gone, x, adj[x])
  {
  }

  lemma ResidualSuits(adj: seq<seq<nat>>, v: nat, gone: set<nat>, x: nat)
    requires IsGraph(adj, v) && x <= v
    ensures Suits(adj, v, gone, x, Remaining(adj[x], gone))
  {
    assert Bounded(adj[x], v);
    RemainingBounded(adj[x], gone, v);
    RemainingMembers(adj[x], gone);
    var list := Remaining(adj[x], gone);
    forall i | 0 <= i < |list|
      ensures list[i] in adj[x]
    {
      assert list[i] in list;
    }
  }

  lemma CoverStep(adj: seq<seq<nat>>, v: nat, gone: set<nat>, lists: seq<seq<nat>>, x: nat, list: seq<nat>)
    requires IsGraph(adj, v) && Cover(adj, v, gone, lists) && 1 <= x <= v && x !in gone && Suits(adj, v, gone, x, list)
    ensures Cover(adj, v, gone + {x}, lists[x := list])
  {
    var lists', gone' := lists[x := list], gone + {x};
    assert IsId(x, v);
    forall z | z in gone'
      ensures SubList(adj, v, lists', z)
    {
      if z != x {
        assert SubList(adj, v, lists, z);
      }
    }
    forall a, b | a in gone' && 0 <= b <= v && b in adj[a]
      ensures b in lists'[a] || (b in gone' && a in lists'[b])
    {
      if a == x {
        if b in gone {
          assert x in adj[b];
          assert x in lists[b];
        }
      } else {
        assert b in lists[a] || (b in gone && a in lists[b]);
      }
    }
  }
}
