/** Building all delta codes: retire whatever fits, in any order, then encode what is left. */
module RangeCompBuild {
  import opened Common
  import opened Bits
  import opened HashCounting
  import opened HybridQuery
  import opened Peeling
  import opened BucketPeel
  import opened DeltaCode
  import opened RangeCompEncoder
  import opened Worklist

  /** A vertex whose whole list fits. */
  ghost predicate Whole(adj: seq<seq<nat>>, v: nat, room: nat, x: nat)
    requires IsGraph(adj, v) && x <= v
  {
    PaddedAscending(adj[x], v);
    DeltaCost(adj[x]) <= room
  }

  /** The list a vertex is retired with once `gone` have left: all of it in the first round, then what remains of it. */
  ghost function RetiredList(adj: seq<seq<nat>>, v: nat, room: nat, gone: set<nat>, x: nat): seq<nat>
    requires IsGraph(adj, v) && x <= v
  {
    if Whole(adj, v, room, x) then adj[x] else Remaining(adj[x], gone)
  }

  /** The lists are those of retiring the vertices of `order` one by one, the ones that fit as a whole first. */
  ghost predicate History(adj: seq<seq<nat>>, v: nat, room: nat, gone: set<nat>, order: seq<nat>, lists: seq<seq<nat>>)
    requires IsGraph(adj, v)
  {
    && |lists| == v + 1 && Members(order) == gone
    && (forall i :: 0 <= i < |order| ==> HistoryAt(adj, v, room, order, lists, i))
    && (forall i, j :: 0 <= i < j < |order| ==> order[i] != order[j])
  }

  ghost predicate HistoryAt(adj: seq<seq<nat>>, v: nat, room: nat, order: seq<nat>, lists: seq<seq<nat>>, i: nat)
    requires IsGraph(adj, v) && |lists| == v + 1 && i < |order|
  {
    var x := order[i];
    && x <= v && lists[x] == RetiredList(adj, v, room, Members(order[..i]), x)
    && (Whole(adj, v, room, x) ==> forall y :: y in order[..i] ==> y <= v && Whole(adj, v, room, y))
  }

  ghost predicate Recorded(adj: seq<seq<nat>>, v: nat, room: nat, gone: set<nat>, lists: seq<seq<nat>>)
    requires IsGraph(adj, v)
  {
    exists order :: History(adj, v, room, gone, order, lists)
  }

  lemma HistoryStep(adj: seq<seq<nat>>, v: nat, room: nat, gone: set<nat>, order: seq<nat>, lists: seq<seq<nat>>,
                    x: nat)
    requires IsGraph(adj, v) && History(adj, v, room, gone, order, lists) && x <= v && x !in gone
    requires Whole(adj, v, room, x) ==> forall y :: y in gone ==> y <= v && Whole(adj, v, room, y)
    ensures History(adj, v, room, gone + {x}, order + [x], lists[x := RetiredList(adj, v, room, gone, x)])
  {
    hide RetiredList, Whole, IsGraph;
    var more, lists' := order + [x], lists[x := RetiredList(adj, v, room, gone, x)];
    MembersAppend(order, x);
    assert more[..|order|] == order;
    forall i | 0 <= i < |order|
      ensures more[i] == order[i] && order[i] != x && HistoryAt(adj, v, room, more, lists', i)
    {
      assert order[i] in Members(order);
      assert more[..i] == order[..i];
      assert HistoryAt(adj, v, room, order, lists, i);
    }
    assert HistoryAt(adj, v, room, more, lists', |order|);
  }

  lemma RecordedKept(adj: seq<seq<nat>>, v: nat, room: nat, gone: set<nat>, lists: seq<seq<nat>>, lists': seq<seq<nat>>)
    requires IsGraph(adj, v) && Recorded(adj, v, room, gone, lists) && |lists| == |lists'| == v + 1
    requires forall y :: y in gone && y <= v ==> lists'[y] == lists[y]
    ensures Recorded(adj, v, room, gone, lists')
  {
    hide RetiredList, Whole, IsGraph;
    var order :| History(adj, v, room, gone, order, lists);
    forall i | 0 <= i < |order|
      ensures HistoryAt(adj, v, room, order, lists', i)
    {
      assert HistoryAt(adj, v, room, order, lists, i);
      assert order[i] in Members(order);
    }
    assert History(adj, v, room, gone, order, lists');
  }

  /**
   * All codes hold the lists the source gives them: a retired vertex its list at its turn, the others what remains of
   * theirs at the end. The lists of the retired ones fit, and they cover the graph.
   */
  ghost predicate Built(k: nat, v: nat, adj: seq<seq<nat>>, codes: seq<seq<byte>>, gone: set<nat>,
                        lists: seq<seq<nat>>) {
    && 3 <= k && v < 0x1000_0000 && IsGraph(adj, v) && |codes| == v + 1
    && Cover(adj, v, gone, lists)
    && (forall x :: 1 <= x <= v ==> SubList(adj, v, lists, x) && Stored(k, v, codes[x], lists[x]))
    && (forall x :: x in gone ==> Ascending(lists[x]) && DeltaCost(lists[x]) <= Room(k))
    && (forall x :: 1 <= x <= v && x !in gone ==> lists[x] == Remaining(adj[x], gone))
    && Recorded(adj, v, Room(k), gone, lists)
  }

  /** After a build no query contradicts the graph, and a retired endpoint makes the answer certain. */
  lemma BuiltSound(k: nat, v: nat, adj: seq<seq<nat>>, codes: seq<seq<byte>>, gone: set<nat>, lists: seq<seq<nat>>,
                   x: nat, y: nat)
    requires Built(k, v, adj, codes, gone, lists) && 1 <= x <= v && 1 <= y <= v && x != y
    ensures Decodable(codes[x]) && Decodable(codes[y])
    ensures Correct(MinAnswer(CodeAnswer(codes[x], y), CodeAnswer(codes[y], x)), y in adj[x])
    ensures x in gone || y in gone ==> MinAnswer(CodeAnswer(codes[x], y), CodeAnswer(codes[y], x)) != Uncertain
    ensures MinAnswer(CodeAnswer(codes[x], y), CodeAnswer(codes[y], x)) == Uncertain
      <==> CodeAnswer(codes[x], y) == Uncertain && CodeAnswer(codes[y], x) == Uncertain
  {
    hide *;
    Edges(k, v, adj, codes, gone, lists, x, y);
    Edges(k, v, adj, codes, gone, lists, y, x);
    Side(k, v, adj, codes, gone, lists, x, y);
    Side(k, v, adj, codes, gone, lists, y, x);
    TruthfulMeans(CodeAnswer(codes[x], y), y, lists[x]);
    TruthfulMeans(CodeAnswer(codes[y], x), x, lists[y]);
    Combine(CodeAnswer(codes[x], y), CodeAnswer(codes[y], x), y in adj[x], y in lists[x], x in lists[y], x in gone,
      y in gone);
  }

  lemma TruthfulMeans(r: PairType, x: nat, list: seq<nat>)
    requires Truthful(r, x, list)
    ensures (r == Neighbor ==> x in list) && (r == NonNeighbor ==> x !in list)
  {
  }

  lemma Edges(k: nat, v: nat, adj: seq<seq<nat>>, codes: seq<seq<byte>>, gone: set<nat>, lists: seq<seq<nat>>, x: nat,
              y: nat)
    requires Built(k, v, adj, codes, gone, lists) && 1 <= x <= v && 1 <= y <= v
    ensures |adj| == |lists| == |codes| == v + 1
    ensures y in adj[x] <==> x in adj[y]
    ensures y in lists[x] ==> y in adj[x]
    ensures y in adj[x] && x in gone ==> y in lists[x] || (y in gone && x in lists[y])
    ensures y in adj[x] && x !in gone && y !in gone ==> y in lists[x]
  {
    assert SubList(adj, v, lists, x);
    RemainingMembers(adj[x], gone);
  }

  lemma Side(k: nat, v: nat, adj: seq<seq<nat>>, codes: seq<seq<byte>>, gone: set<nat>, lists: seq<seq<nat>>, x: nat,
             y: nat)
    requires Built(k, v, adj, codes, gone, lists) && 1 <= x <= v && 1 <= y <= v && |lists| == v + 1
    ensures Decodable(codes[x]) && Truthful(CodeAnswer(codes[x], y), y, lists[x])
    ensures x in gone ==> CodeAnswer(codes[x], y) != Uncertain
  {
    assert SubList(adj, v, lists, x);
    PaddedAscending(lists[x], v);
    hide Stored, Decodable, CodeAnswer, Flag, IsGraph, Cover, DeltaCost, Ascending;
    StoredSound(k, v, codes[x], lists[x], y);
  }

  /** How two one-sided answers make one: every edge is on a list that decides it, or on both lists. */
  lemma Combine(a: PairType, b: PairType, edge: bool, onX: bool, onY: bool, goneX: bool, goneY: bool)
    requires (a == Neighbor ==> onX) && (a == NonNeighbor ==> !onX) && (goneX ==> a != Uncertain)
    requires (b == Neighbor ==> onY) && (b == NonNeighbor ==> !onY) && (goneY ==> b != Uncertain)
    requires (onX ==> edge) && (onY ==> edge)
    requires edge && goneX ==> onX || (goneY && onY)
    requires edge && goneY ==> onY || (goneX && onX)
    requires edge && !goneX && !goneY ==> onX && onY
    ensures Correct(MinAnswer(a, b), edge)
    ensures goneX || goneY ==> MinAnswer(a, b) != Uncertain
    ensures MinAnswer(a, b) == Uncertain <==> a == Uncertain && b == Uncertain
  {
  }

  function Gone(filtered: seq<bool>): (r: set<nat>)
    ensures forall x: nat :: x in r <==> x < |filtered| && filtered[x]
  {
    set x: nat | x < |filtered| && filtered[x]
  }

  /** What holds after every retirement. */
  ghost predicate WorkState(enc: RangeCompEncode, adj: seq<seq<nat>>, filtered: seq<bool>, lists: seq<seq<nat>>)
    requires enc.Valid()
    reads set i | 0 <= i < |enc.encodes| :: enc.encodes[i].data
  {
    && IsGraph(adj, enc.v) && |filtered| == enc.v + 1
    && Fair(adj, enc.v, DeltaBytes, Room(enc.k), Gone(filtered))
    && Cover(adj, enc.v, Gone(filtered), lists)
    && (forall x :: 0 <= x <= enc.v && filtered[x] ==> Retired(enc, lists, x))
    && Recorded(adj, enc.v, Room(enc.k), Gone(filtered), lists)
  }

  /** The next list follows the history: the right one, and no vertex of the first round after a later one. */
  ghost predicate Follows(adj: seq<seq<nat>>, v: nat, room: nat, gone: set<nat>, x: nat, list: seq<nat>)
    requires IsGraph(adj, v) && x <= v
  {
    && list == RetiredList(adj, v, room, gone, x)
    && (Whole(adj, v, room, x) ==> forall y :: y in gone ==> y <= v && Whole(adj, v, room, y))
  }

  ghost predicate Retired(enc: RangeCompEncode, lists: seq<seq<nat>>, x: nat)
    requires enc.Valid() && x <= enc.v && |lists| == enc.v + 1
    reads enc.encodes[x].data
  {
    Bounded(lists[x], enc.v) && Ascending(lists[x]) && DeltaCost(lists[x]) <= Room(enc.k)
      && Stored(enc.k, enc.v, enc.Code(x), lists[x])
  }

  ghost function Buffers(enc: RangeCompEncode): set<object> {
    set i | 0 <= i < |enc.encodes| :: enc.encodes[i].data as object
  }

  lemma RetireStep(adj: seq<seq<nat>>, v: nat, room: nat, filtered: seq<bool>, lists: seq<seq<nat>>, x: nat,
                   list: seq<nat>)
    requires IsGraph(adj, v) && |filtered| == v + 1 && 1 <= x <= v && !filtered[x]
    requires Fair(adj, v, DeltaBytes, room, Gone(filtered)) && Cover(adj, v, Gone(filtered), lists)
    requires Suits(adj, v, Gone(filtered), x, list) && FitsWithout(adj, v, DeltaBytes, room, Gone(filtered), x)
    ensures Gone(filtered[x := true]) == Gone(filtered) + {x}
    ensures Fair(adj, v, DeltaBytes, room, Gone(filtered[x := true]))
    ensures Cover(adj, v, Gone(filtered[x := true]), lists[x := list])
    ensures Follows(adj, v, room, Gone(filtered), x, list) && Recorded(adj, v, room, Gone(filtered), lists) ==>
      Recorded(adj, v, room, Gone(filtered[x := true]), lists[x := list])
  {
    assert Gone(filtered[x := true]) == Gone(filtered) + {x};
    FairStep(adj, v, DeltaBytes, room, Gone(filtered), x);
    CoverStep(adj, v, Gone(filtered), lists, x, list);
    hide History, RetiredList, Whole;
    if Follows(adj, v, room, Gone(filtered), x, list) && Recorded(adj, v, room, Gone(filtered), lists) {
      var order :| History(adj, v, room, Gone(filtered), order, lists);
      HistoryStep(adj, v, room, Gone(filtered), order, lists, x);
    }
  }

  /** Encodes a vertex that fits and marks it retired. */
  method RetireVertex(enc: RangeCompEncode, adj: seq<seq<nat>>, filtered: array<bool>, x: nat, list: seq<nat>,
                      ghost lists: seq<seq<nat>>)
    requires enc.Valid() && WorkState(enc, adj, filtered[..], lists) && 1 <= x <= enc.v && !filtered[x]
    requires Suits(adj, enc.v, Gone(filtered[..]), x, list) && Ascending(list) && DeltaCost(list) <= Room(enc.k)
    requires FitsWithout(adj, enc.v, DeltaBytes, Room(enc.k), Gone(filtered[..]), x)
    requires Follows(adj, enc.v, Room(enc.k), Gone(filtered[..]), x, list) && filtered as object !in Buffers(enc)
    modifies enc.encodes[x].data, filtered
    ensures filtered[..] == old(filtered[..])[x := true]
    ensures WorkState(enc, adj, filtered[..], lists[x := list])
  {
    RetireStep(adj, enc.v, Room(enc.k), filtered[..], lists, x, list);
    hide Fair, Cover, IsGraph, Stored, FitsWithout, Gone, Recorded, Follows;
    enc.EncodeVertex(x, list);
    filtered[x] := true;
    forall y | 0 <= y <= enc.v && filtered[y]
      ensures Retired(enc, lists[x := list], y)
    {
      if y != x {
        assert old(Retired(enc, lists, y));
        assert enc.Code(y) == old(enc.Code(y));
      }
    }
  }

  /** Every vertex that is left and fits is still on a worklist, and none that fits as a whole is left. */
  ghost predicate Pending(adj: seq<seq<nat>>, v: nat, room: nat, gone: set<nat>, work: set<nat>)
    requires IsGraph(adj, v)
  {
    && work <= Ids(v)
    && (forall x :: 1 <= x <= v && x !in gone && FitsWithout(adj, v, DeltaBytes, room, gone, x) ==> x in work)
    && (forall x :: 1 <= x <= v && Whole(adj, v, room, x) ==> x in gone)
  }

  /** Retiring `x` can only make its remaining neighbours fit. */
  lemma PendingStep(adj: seq<seq<nat>>, v: nat, room: nat, gone: set<nat>, work: set<nat>, x: nat, more: set<nat>)
    requires IsGraph(adj, v) && Pending(adj, v, room, gone, work) && 1 <= x <= v && x !in gone && more <= Ids(v)
    requires forall i :: 0 <= i < |adj[x]| && adj[x][i] !in gone ==> adj[x][i] in more
    ensures Pending(adj, v, room, gone + {x}, work - {x} + more)
  {
    forall u | 1 <= u <= v && u !in gone + {x} && FitsWithout(adj, v, DeltaBytes, room, gone + {x}, u)
      ensures u in work - {x} + more
    {
      assert Bounded(adj[u], v);
      if x in adj[u] {
        assert u in adj[x];
      } else {
        RemainingDrop(adj[u], gone, x, v);
        assert FitsWithout(adj, v, DeltaBytes, room, gone, u);
      }
    }
  }

  lemma PendingSkip(adj: seq<seq<nat>>, v: nat, room: nat, gone: set<nat>, work: set<nat>, x: nat)
    requires IsGraph(adj, v) && Pending(adj, v, room, gone, work) && x <= v
    requires x in gone || !FitsWithout(adj, v, DeltaBytes, room, gone, x)
    ensures Pending(adj, v, room, gone, work - {x})
  {
  }

  /** The residual list of a vertex, and whether it fits. */
  method Residual(adj: seq<seq<nat>>, v: nat, room: nat, filtered: array<bool>, x: nat)
    returns (neighbors: seq<nat>, fits: bool)
    requires IsGraph(adj, v) && filtered.Length == v + 1 && 1 <= x <= v
    ensures neighbors == Remaining(adj[x], Gone(filtered[..])) && Bounded(neighbors, v) && Ascending(neighbors)
    ensures fits <==> FitsWithout(adj, v, DeltaBytes, room, Gone(filtered[..]), x)
    ensures fits <==> DeltaCost(neighbors) <= room
  {
    assert Bounded(adj[x], v);
    neighbors := LiveNeighbors(adj[x], filtered, Gone(filtered[..]));
    RemainingBounded(adj[x], Gone(filtered[..]), v);
    var bits := GetRequiredBits(neighbors);
    fits := bits <= room;
  }

  /** One vertex of the worklist. */
  method WorkOn(enc: RangeCompEncode, adj: seq<seq<nat>>, filtered: array<bool>, x: nat, ghost lists: seq<seq<nat>>,
                ghost work: set<nat>)
    returns (more: set<nat>, ghost lists': seq<seq<nat>>)
    requires enc.Valid() && WorkState(enc, adj, filtered[..], lists) && 1 <= x <= enc.v
    requires filtered as object !in Buffers(enc)
    requires Pending(adj, enc.v, Room(enc.k), Gone(filtered[..]), work)
    modifies enc.encodes[x].data, filtered
    ensures WorkState(enc, adj, filtered[..], lists')
    ensures more <= Ids(enc.v) && Pending(adj, enc.v, Room(enc.k), Gone(filtered[..]), work - {x} + more)
    ensures Gone(filtered[..]) == old(Gone(filtered[..])) + (if filtered[x] then {x} else {})
    ensures more != {} ==> !old(filtered[x]) && filtered[x]
  {
    more, lists' := {}, lists;
    ghost var gone := Gone(filtered[..]);
    assert work - {x} + {} == work - {x};
    if filtered[x] {
      PendingSkip(adj, enc.v, Room(enc.k), gone, work, x);
      assert gone + {x} == gone;
      return;
    }
    var neighbors, fits := Residual(adj, enc.v, 32 * enc.k - 32, filtered, x);
    if !fits {
      PendingSkip(adj, enc.v, Room(enc.k), gone, work, x);
      assert gone + {} == gone;
      return;
    }
    ResidualSuits(adj, enc.v, gone, x);
    RetireStep(adj, enc.v, Room(enc.k), filtered[..], lists, x, neighbors);
    assert Follows(adj, enc.v, Room(enc.k), gone, x, neighbors);
    more := set y | y in neighbors;
    MoreCovers(adj, enc.v, gone, x, neighbors);
    PendingStep(adj, enc.v, Room(enc.k), gone, work, x, more);
    hide WorkState, Pending, FitsWithout, IsGraph, Suits, Remaining, Follows;
    RetireVertex(enc, adj, filtered, x, neighbors, lists);
    lists' := lists[x := neighbors];
  }

  lemma MoreCovers(adj: seq<seq<nat>>, v: nat, gone: set<nat>, x: nat, list: seq<nat>)
    requires IsGraph(adj, v) && x <= v && list == Remaining(adj[x], gone) && Bounded(list, v)
    ensures (set y | y in list) <= Ids(v)
    ensures forall i :: 0 <= i < |adj[x]| && adj[x][i] !in gone ==> adj[x][i] in (set y | y in list)
  {
    RemainingMembers(adj[x], gone);
    forall y | y in list
      ensures IsId(y, v)
    {
      var i :| 0 <= i < |list| && list[i] == y;
    }
  }

  /** The vertices whose whole lists fit, in increasing order. */
  ghost predicate AllFitting(adj: seq<seq<nat>>, v: nat, room: nat, list: seq<nat>, upTo: nat)
    requires IsGraph(adj, v)
  {
    && Ascending(list)
    && (forall i :: 0 <= i < |list| ==> 1 <= list[i] <= v && list[i] < upTo)
    && (forall x: nat :: 1 <= x <= v && x < upTo ==> (x in list <==> Whole(adj, v, room, x)))
  }

  method Fitting(adj: seq<seq<nat>>, v: nat, room: nat) returns (list: seq<nat>)
    requires IsGraph(adj, v)
    ensures AllFitting(adj, v, room, list, v + 1)
  {
    list := [];
    for id: nat := 1 to v + 1
      invariant AllFitting(adj, v, room, list, id)
    {
      PaddedAscending(adj[id], v);
      var len := GetRequiredBits(adj[id]);
      hide DeltaCost;
      if len <= room {
        list := list + [id];
      }
    }
  }

  /** During the first round: the retired vertices are those done, and their neighbours are on the worklist. */
  ghost predicate FirstWork(adj: seq<seq<nat>>, v: nat, filtered: seq<bool>, done: seq<nat>, related: set<nat>)
    requires IsGraph(adj, v)
  {
    && |filtered| == v + 1 && related <= Ids(v)
    && (forall x: nat :: x <= v ==> (filtered[x] <==> x in done))
    && (forall x: nat, y: nat :: x <= v && filtered[x] && y in adj[x] ==> y in related)
  }

  lemma FirstStep(adj: seq<seq<nat>>, v: nat, room: nat, filtered: seq<bool>, list: seq<nat>, idx: nat,
                  related: set<nat>)
    requires IsGraph(adj, v) && AllFitting(adj, v, room, list, v + 1) && idx < |list|
    requires FirstWork(adj, v, filtered, list[..idx], related)
    ensures var x := list[idx];
      && 1 <= x <= v && !filtered[x] && Suits(adj, v, Gone(filtered), x, adj[x])
      && Ascending(adj[x]) && DeltaCost(adj[x]) <= room && FitsWithout(adj, v, DeltaBytes, room, Gone(filtered), x)
      && Follows(adj, v, room, Gone(filtered), x, adj[x])
      && FirstWork(adj, v, filtered[x := true], list[..idx + 1], related + set y | y in adj[x])
  {
    FirstFollows(adj, v, room, filtered, list, idx, related);
    hide Follows;
    hide FirstWork, Suits, FitsWithout, DeltaCost, Gone, Ids;
    FirstWorkStep(adj, v, room, filtered, list, idx, related);
    assert list[idx] in list;
    WholeFits(adj, v, room, Gone(filtered), list[idx]);
  }

  lemma FirstFollows(adj: seq<seq<nat>>, v: nat, room: nat, filtered: seq<bool>, list: seq<nat>, idx: nat,
                     related: set<nat>)
    requires IsGraph(adj, v) && AllFitting(adj, v, room, list, v + 1) && idx < |list|
    requires FirstWork(adj, v, filtered, list[..idx], related)
    ensures list[idx] <= v && Follows(adj, v, room, Gone(filtered), list[idx], adj[list[idx]])
  {
    hide Whole, IsGraph;
    assert list[idx] in list;
    forall y | y in Gone(filtered)
      ensures y <= v && Whole(adj, v, room, y)
    {
      assert y in list[..idx];
      assert y in list;
    }
  }

  lemma FirstWorkStep(adj: seq<seq<nat>>, v: nat, room: nat, filtered: seq<bool>, list: seq<nat>, idx: nat,
                      related: set<nat>)
    requires IsGraph(adj, v) && AllFitting(adj, v, room, list, v + 1) && idx < |list|
    requires FirstWork(adj, v, filtered, list[..idx], related)
    ensures var x := list[idx];
      |filtered| == v + 1 && !filtered[x]
        && FirstWork(adj, v, filtered[x := true], list[..idx + 1], related + set y | y in adj[x])
  {
    var x := list[idx];
    assert x !in list[..idx];
    assert list[..idx + 1] == list[..idx] + [x];
    forall y | y in adj[x]
      ensures IsId(y, v)
    {
      assert Bounded(adj[x], v);
    }
  }

  lemma WholeFits(adj: seq<seq<nat>>, v: nat, room: nat, gone: set<nat>, x: nat)
    requires IsGraph(adj, v) && 1 <= x <= v && Whole(adj, v, room, x)
    ensures Suits(adj, v, gone, x, adj[x]) && Ascending(adj[x]) && DeltaCost(adj[x]) <= room
    ensures FitsWithout(adj, v, DeltaBytes, room, gone, x)
  {
    PaddedAscending(adj[x], v);
    WholeSuits(adj, v, gone, x);
    CostFalls(DeltaBytes, adj[x], {}, gone);
    RemainingNone(adj[x]);
    FitsByCost(adj, v, room, gone, x);
  }

  lemma FitsByCost(adj: seq<seq<nat>>, v: nat, room: nat, gone: set<nat>, x: nat)
    requires IsGraph(adj, v) && x <= v && Ascending(Remaining(adj[x], gone))
      && DeltaCost(Remaining(adj[x], gone)) <= room
    ensures FitsWithout(adj, v, DeltaBytes, room, gone, x)
  {
  }

  lemma {:induction false} RemainingSame(list: seq<nat>, gone: set<nat>)
    requires forall i :: 0 <= i < |list| ==> list[i] !in gone
    ensures Remaining(list, gone) == list
  {
    if list != [] {
      RemainingSame(list[..|list| - 1], gone);
    }
  }

  /** After the first round whatever is left and fits has a retired neighbour. */
  lemma FirstPending(adj: seq<seq<nat>>, v: nat, room: nat, filtered: seq<bool>, list: seq<nat>, related: set<nat>)
    requires IsGraph(adj, v) && AllFitting(adj, v, room, list, v + 1) && FirstWork(adj, v, filtered, list, related)
    ensures Pending(adj, v, room, Gone(filtered), related)
  {
    var gone := Gone(filtered);
    forall x | 1 <= x <= v && x !in gone && FitsWithout(adj, v, DeltaBytes, room, gone, x)
      ensures x in related
    {
      assert !Whole(adj, v, room, x);
      if forall i :: 0 <= i < |adj[x]| ==> adj[x][i] !in gone {
        RemainingSame(adj[x], gone);
        assert false;
      }
      var i :| 0 <= i < |adj[x]| && adj[x][i] in gone;
      var y := adj[x][i];
      assert x in adj[y];
    }
  }

  lemma EmptyHistory(adj: seq<seq<nat>>, v: nat, room: nat, lists: seq<seq<nat>>)
    requires IsGraph(adj, v) && |lists| == v + 1
    ensures Recorded(adj, v, room, {}, lists)
  {
    assert History(adj, v, room, {}, [], lists);
  }

  /** Encodes and retires every vertex whose whole list fits; its neighbours are the first worklist. */
  method FirstRound(enc: RangeCompEncode, adj: seq<seq<nat>>, filtered: array<bool>)
    returns (related: set<nat>, ghost lists: seq<seq<nat>>)
    requires enc.Valid() && IsGraph(adj, enc.v) && filtered.Length == enc.v + 1 && filtered as object !in Buffers(enc)
    requires forall x :: 0 <= x <= enc.v ==> !filtered[x]
    modifies Buffers(enc), filtered
    ensures WorkState(enc, adj, filtered[..], lists)
    ensures Pending(adj, enc.v, Room(enc.k), Gone(filtered[..]), related)
  {
    var encode_list := Fitting(adj, enc.v, 32 * enc.k - 32);
    lists := adj;
    related := {};
    assert Gone(filtered[..]) == {};
    FairStart(adj, enc.v, DeltaBytes, Room(enc.k));
    EmptyHistory(adj, enc.v, Room(enc.k), lists);
    hide Fair, Cover, IsGraph, Stored, Retired, FitsWithout, Remaining, Ids, Recorded, Follows;
    for idx := 0 to |encode_list|
      invariant WorkState(enc, adj, filtered[..], lists)
      invariant FirstWork(adj, enc.v, filtered[..], encode_list[..idx], related)
    {
      var vertex := encode_list[idx];
      FirstStep(adj, enc.v, Room(enc.k), filtered[..], encode_list, idx, related);
      assert !filtered[vertex];
      related := related + set y | y in adj[vertex];
      hide WorkState, FirstWork;
      RetireVertex(enc, adj, filtered, vertex, adj[vertex], lists);
      lists := lists[vertex := adj[vertex]];
    }
    assert encode_list[..|encode_list|] == encode_list;
    FirstPending(adj, enc.v, Room(enc.k), filtered[..], encode_list, related);
  }

  /** One pass over the worklist in some order; `next` collects the neighbours of the vertices it retires. */
  method Round(enc: RangeCompEncode, adj: seq<seq<nat>>, filtered: array<bool>, related: set<nat>,
               ghost lists0: seq<seq<nat>>)
    returns (next: set<nat>, ghost lists: seq<seq<nat>>)
    requires enc.Valid() && WorkState(enc, adj, filtered[..], lists0) && filtered as object !in Buffers(enc)
    requires IsGraph(adj, enc.v) && filtered.Length == enc.v + 1
    requires Pending(adj, enc.v, Room(enc.k), Gone(filtered[..]), related)
    modifies Buffers(enc), filtered
    ensures WorkState(enc, adj, filtered[..], lists)
    ensures Pending(adj, enc.v, Room(enc.k), Gone(filtered[..]), next)
    ensures old(Gone(filtered[..])) <= Gone(filtered[..])
    ensures next != {} ==> old(Gone(filtered[..])) != Gone(filtered[..])
  {
    hide WorkState, IsGraph, Pending, Gone, Ids, Fair, Cover, FitsWithout, Room;
    ghost var before := Gone(filtered[..]);
    PendingIds(adj, enc.v, Room(enc.k), before, related);
    var todo := related;
    next, lists := {}, lists0;
    assert todo + next == related;
    while todo != {}
      invariant WorkState(enc, adj, filtered[..], lists) && todo <= related && next <= Ids(enc.v)
      invariant Pending(adj, enc.v, Room(enc.k), Gone(filtered[..]), todo + next)
      invariant before <= Gone(filtered[..]) && (next != {} ==> before != Gone(filtered[..]))
      decreases |todo|
    {
      var vertex :| vertex in todo;
      var more: set<nat>;
      more, lists := TakeOne(enc, adj, filtered, vertex, lists, todo, next);
      todo := todo - {vertex};
      next := next + more;
    }
    assert {} + next == next;
  }

  method TakeOne(enc: RangeCompEncode, adj: seq<seq<nat>>, filtered: array<bool>, vertex: nat,
                 ghost lists0: seq<seq<nat>>, ghost todo: set<nat>, ghost next: set<nat>)
    returns (more: set<nat>, ghost lists: seq<seq<nat>>)
    requires enc.Valid() && WorkState(enc, adj, filtered[..], lists0) && filtered as object !in Buffers(enc)
    requires IsGraph(adj, enc.v) && filtered.Length == enc.v + 1 && vertex in todo && todo <= Ids(enc.v)
      && next <= Ids(enc.v)
    requires Pending(adj, enc.v, Room(enc.k), Gone(filtered[..]), todo + next)
    modifies Buffers(enc), filtered
    ensures WorkState(enc, adj, filtered[..], lists) && more <= Ids(enc.v)
    ensures Pending(adj, enc.v, Room(enc.k), Gone(filtered[..]), todo - {vertex} + (next + more))
    ensures old(Gone(filtered[..])) <= Gone(filtered[..])
    ensures more != {} ==> old(Gone(filtered[..])) < Gone(filtered[..])
  {
    hide WorkState, IsGraph, Pending, Ids, Fair, Cover, FitsWithout, Room;
    IdBounds(vertex, enc.v);
    more, lists := WorkOn(enc, adj, filtered, vertex, lists0, todo + next);
    WorkMoves(adj, enc.v, Room(enc.k), Gone(filtered[..]), todo + next, vertex, more, todo - {vertex}, next);
  }

  lemma IdBounds(x: nat, v: nat)
    requires x in Ids(v)
    ensures 1 <= x <= v
  {
  }

  lemma PendingIds(adj: seq<seq<nat>>, v: nat, room: nat, gone: set<nat>, work: set<nat>)
    requires IsGraph(adj, v) && Pending(adj, v, room, gone, work)
    ensures work <= Ids(v)
  {
  }

  /** A worklist may only grow without harm. */
  lemma WorkMoves(adj: seq<seq<nat>>, v: nat, room: nat, gone: set<nat>, work: set<nat>, x: nat, more: set<nat>,
                  todo: set<nat>, next: set<nat>)
    requires IsGraph(adj, v) && Pending(adj, v, room, gone, work - {x} + more) && work == todo + {x} + next
      && work <= Ids(v)
    ensures Pending(adj, v, room, gone, todo + (next + more))
  {
  }

  /** Works rounds until nothing is left to look at. */
  method PeelByCost(enc: RangeCompEncode, adj: seq<seq<nat>>, filtered: array<bool>)
    returns (ghost lists: seq<seq<nat>>)
    requires enc.Valid() && IsGraph(adj, enc.v) && filtered.Length == enc.v + 1 && filtered as object !in Buffers(enc)
    requires forall x :: 0 <= x <= enc.v ==> !filtered[x]
    modifies Buffers(enc), filtered
    ensures WorkState(enc, adj, filtered[..], lists)
    ensures Finished(adj, enc.v, DeltaBytes, Room(enc.k), Gone(filtered[..]))
  {
    hide WorkState, IsGraph, Pending, Gone, Ids, Fair, Cover, FitsWithout, Room, Finished;
    var related: set<nat>;
    related, lists := FirstRound(enc, adj, filtered);
    while related != {}
      invariant WorkState(enc, adj, filtered[..], lists)
      invariant Pending(adj, enc.v, Room(enc.k), Gone(filtered[..]), related)
      decreases |Ids(enc.v) - Gone(filtered[..])|, |related|
    {
      ghost var gone := Gone(filtered[..]);
      related, lists := Round(enc, adj, filtered, related, lists);
      ghost var gone' := Gone(filtered[..]);
      GoneIds(enc, adj, filtered[..], lists);
      if gone != gone' {
        FewerLeft(Ids(enc.v), gone, gone');
      }
    }
    AllDone(enc, adj, filtered[..], lists);
  }

  lemma GoneIds(enc: RangeCompEncode, adj: seq<seq<nat>>, filtered: seq<bool>, lists: seq<seq<nat>>)
    requires enc.Valid() && WorkState(enc, adj, filtered, lists)
    ensures Gone(filtered) <= Ids(enc.v)
  {
  }

  lemma AllDone(enc: RangeCompEncode, adj: seq<seq<nat>>, filtered: seq<bool>, lists: seq<seq<nat>>)
    requires enc.Valid() && WorkState(enc, adj, filtered, lists) && Pending(adj, enc.v, Room(enc.k), Gone(filtered), {})
    ensures Finished(adj, enc.v, DeltaBytes, Room(enc.k), Gone(filtered))
  {
    hide Fair, FitsWithout, Cover, Retired;
  }

  lemma FewerLeft(all: set<nat>, a: set<nat>, b: set<nat>)
    requires a <= b <= all && a != b
    ensures |all - b| < |all - a|
  {
    var x :| x in b && x !in a;
    assert all - b <= all - a - {x};
    SubsetSize(all - b, all - a - {x});
  }

  lemma {:induction false} SubsetSize(a: set<nat>, b: set<nat>)
    requires a <= b
    ensures |a| <= |b|
    decreases |a|
  {
    if a != {} {
      var x :| x in a;
      SubsetSize(a - {x}, b - {x});
    }
  }

  /** The vertices up to `n` that were not retired carry the codes of their residual lists; so do all retired ones. */
  ghost predicate FinalState(enc: RangeCompEncode, adj: seq<seq<nat>>, filtered: seq<bool>, lists: seq<seq<nat>>,
                             n: nat)
    requires enc.Valid() && |filtered| == |lists| == |adj| == enc.v + 1
    reads set i | 0 <= i < |enc.encodes| :: enc.encodes[i].data
  {
    && (forall x :: 1 <= x <= enc.v && filtered[x] ==> Retired(enc, lists, x))
    && (forall x :: 1 <= x < n && x <= enc.v && !filtered[x] ==> Kept(enc, adj, Gone(filtered), lists, x))
  }

  ghost predicate Kept(enc: RangeCompEncode, adj: seq<seq<nat>>, gone: set<nat>, lists: seq<seq<nat>>, x: nat)
    requires enc.Valid() && x <= enc.v && |lists| == |adj| == enc.v + 1
    reads enc.encodes[x].data
  {
    lists[x] == Remaining(adj[x], gone) && Bounded(lists[x], enc.v) && Stored(enc.k, enc.v, enc.Code(x), lists[x])
  }

  method EncodeKept(enc: RangeCompEncode, adj: seq<seq<nat>>, filtered: array<bool>, x: nat, ghost lists: seq<seq<nat>>)
    returns (ghost lists': seq<seq<nat>>)
    requires enc.Valid() && IsGraph(adj, enc.v) && filtered.Length == |lists| == enc.v + 1 && 1 <= x <= enc.v
    requires filtered as object !in Buffers(enc)
    requires FinalState(enc, adj, filtered[..], lists, x)
    modifies enc.encodes[x].data
    ensures |lists'| == |lists| && (forall y :: 0 <= y <= enc.v && filtered[y] ==> lists'[y] == lists[y])
    ensures FinalState(enc, adj, filtered[..], lists', x + 1)
  {
    lists' := lists;
    if filtered[x] {
      return;
    }
    var neighbors, _ := Residual(adj, enc.v, 32 * enc.k - 32, filtered, x);
    hide Stored, Remaining, FitsWithout, IsGraph, DeltaCost, Ascending, Gone;
    enc.EncodeVertex(x, neighbors);
    lists' := lists[x := neighbors];
    forall y | 1 <= y <= enc.v && y != x
      ensures enc.Code(y) == old(enc.Code(y))
    {
    }
    forall y | 1 <= y <= enc.v && filtered[y]
      ensures Retired(enc, lists', y)
    {
      assert old(Retired(enc, lists, y));
    }
    forall y | 1 <= y < x + 1 && !filtered[y]
      ensures Kept(enc, adj, Gone(filtered[..]), lists', y)
    {
      if y != x {
        assert old(Kept(enc, adj, Gone(filtered[..]), lists, y));
      }
    }
  }

  ghost function Codes(enc: RangeCompEncode): (r: seq<seq<byte>>)
    requires enc.Valid()
    reads set i | 0 <= i < |enc.encodes| :: enc.encodes[i].data
    ensures |r| == enc.v + 1 && forall i :: 0 <= i <= enc.v ==> r[i] == enc.Code(i)
  {
    seq(enc.v + 1, i
      requires 0 <= i <= enc.v && enc.Valid()
      reads set j | 0 <= j < |enc.encodes| :: enc.encodes[j].data
      => enc.Code(i))
  }

  /** Lists that cover the retired vertices keep covering them when the others get their residual lists. */
  lemma CoverKept(adj: seq<seq<nat>>, v: nat, gone: set<nat>, lists: seq<seq<nat>>, lists': seq<seq<nat>>)
    requires IsGraph(adj, v) && Cover(adj, v, gone, lists) && |lists'| == v + 1
    requires forall y :: y in gone ==> y < |lists| && lists'[y] == lists[y]
    ensures Cover(adj, v, gone, lists')
  {
    forall x | x in gone
      ensures SubList(adj, v, lists', x)
    {
      assert SubList(adj, v, lists, x);
    }
    forall x, y | x in gone && 0 <= y <= v && y in adj[x]
      ensures y in lists'[x] || (y in gone && x in lists'[y])
    {
      assert y in lists[x] || (y in gone && x in lists[y]);
    }
  }

  lemma AssembleOne(enc: RangeCompEncode, adj: seq<seq<nat>>, filtered: seq<bool>, lists: seq<seq<nat>>, x: nat)
    requires enc.Valid() && IsGraph(adj, enc.v) && |filtered| == |lists| == enc.v + 1 && 1 <= x <= enc.v
    requires Cover(adj, enc.v, Gone(filtered), lists) && FinalState(enc, adj, filtered, lists, enc.v + 1)
    ensures SubList(adj, enc.v, lists, x) && Stored(enc.k, enc.v, enc.Code(x), lists[x])
    ensures x in Gone(filtered) ==> Ascending(lists[x]) && DeltaCost(lists[x]) <= Room(enc.k)
    ensures x !in Gone(filtered) ==> lists[x] == Remaining(adj[x], Gone(filtered))
  {
    if filtered[x] {
      assert Retired(enc, lists, x);
    } else {
      assert Kept(enc, adj, Gone(filtered), lists, x);
      ResidualSuits(adj, enc.v, Gone(filtered), x);
    }
  }

  /** The whole build: the retired set is the unique finished one, and the codes answer truthfully for all pairs. */
  method BuildEncoding(enc: RangeCompEncode, adj: seq<seq<nat>>)
    returns (ghost gone: set<nat>, ghost lists: seq<seq<nat>>)
    requires enc.Valid() && IsGraph(adj, enc.v)
    modifies Buffers(enc)
    ensures Finished(adj, enc.v, DeltaBytes, Room(enc.k), gone)
    ensures Built(enc.k, enc.v, adj, Codes(enc), gone, lists)
  {
    var filtered := new bool[enc.v + 1](_ => false);
    lists := PeelByCost(enc, adj, filtered);
    gone := Gone(filtered[..]);
    lists := EncodeAllKept(enc, adj, filtered, lists);
    hide *;
    Assemble(enc, adj, filtered[..], lists);
  }

  /** A query after a build never contradicts the graph. */
  method Query(enc: RangeCompEncode, ghost adj: seq<seq<nat>>, ghost gone: set<nat>, ghost lists: seq<seq<nat>>, x: nat,
               y: nat)
    returns (r: PairType)
    requires enc.Valid() && Built(enc.k, enc.v, adj, Codes(enc), gone, lists)
    requires 1 <= x <= enc.v && 1 <= y <= enc.v && x != y
    ensures |adj| == enc.v + 1 && Correct(r, y in adj[x])
    ensures x in gone || y in gone ==> r != Uncertain
  {
    hide Built, CodeAnswer, Decodable, MinAnswer, Correct;
    Edges(enc.k, enc.v, adj, Codes(enc), gone, lists, x, y);
    BuiltSound(enc.k, enc.v, adj, Codes(enc), gone, lists, x, y);
    r := enc.NEpairTest(x, y);
  }

  method EncodeAllKept(enc: RangeCompEncode, adj: seq<seq<nat>>, filtered: array<bool>, ghost lists0: seq<seq<nat>>)
    returns (ghost lists: seq<seq<nat>>)
    requires enc.Valid() && WorkState(enc, adj, filtered[..], lists0) && filtered as object !in Buffers(enc)
    modifies Buffers(enc)
    ensures IsGraph(adj, enc.v) && filtered.Length == |lists| == enc.v + 1
    ensures Cover(adj, enc.v, Gone(filtered[..]), lists) && FinalState(enc, adj, filtered[..], lists, enc.v + 1)
    ensures Recorded(adj, enc.v, Room(enc.k), Gone(filtered[..]), lists)
  {
    lists := lists0;
    hide Stored, Fair, Retired, Kept, Recorded;
    for vertex: nat := 1 to enc.v + 1
      invariant |lists| == enc.v + 1 && (forall y :: 0 <= y <= enc.v && filtered[y] ==> lists[y] == lists0[y])
      invariant FinalState(enc, adj, filtered[..], lists, vertex)
    {
      hide FinalState, IsGraph, Cover, Gone;
      lists := EncodeKept(enc, adj, filtered, vertex, lists);
    }
    CoverKept(adj, enc.v, Gone(filtered[..]), lists0, lists);
    RecordedKept(adj, enc.v, Room(enc.k), Gone(filtered[..]), lists0, lists);
  }

  lemma Assemble(enc: RangeCompEncode, adj: seq<seq<nat>>, filtered: seq<bool>, lists: seq<seq<nat>>)
    requires enc.Valid() && IsGraph(adj, enc.v) && |filtered| == |lists| == enc.v + 1
    requires Cover(adj, enc.v, Gone(filtered), lists) && FinalState(enc, adj, filtered, lists, enc.v + 1)
    requires Recorded(adj, enc.v, Room(enc.k), Gone(filtered), lists)
    ensures Built(enc.k, enc.v, adj, Codes(enc), Gone(filtered), lists)
  {
    assert Gone(filtered) <= Ids(enc.v);
    hide Stored, IsGraph, FinalState, DeltaCost, Ascending, SubList, Gone, Recorded;
    forall x: nat | 1 <= x <= enc.v {
      AssembleOne(enc, adj, filtered, lists, x);
    }
    forall x | x in Gone(filtered)
      ensures Ascending(lists[x]) && DeltaCost(lists[x]) <= Room(enc.k)
    {
      IdBounds(x, enc.v);
    }
  }
}
