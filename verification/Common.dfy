/** Vocabulary shared by several parts: 32-bit words, sorted lists, and what it means for an answer to be right. */
module Common {

  /** The answers to an edge query. */
  datatype PairType = Neighbor | NonNeighbor | Uncertain

  /** The answer does not contradict membership of `x` in `list`. */
  ghost predicate Truthful(r: PairType, x: nat, list: seq<nat>) {
    (r == Neighbor ==> x in list) && (r == NonNeighbor ==> x !in list)
  }

  const WORD: nat := 0x1_0000_0000

  /** Subtraction of 32-bit unsigned words. */
  function Sub32(a: nat, b: nat): (r: nat)
    requires a < WORD && b < WORD
    ensures r < WORD && (r + b) % WORD == a
  {
    if b <= a then a - b else a + WORD - b
  }

  ghost predicate Ascending(list: seq<nat>) {
    forall i, j :: 0 <= i < j < |list| ==> list[i] < list[j]
  }
}
