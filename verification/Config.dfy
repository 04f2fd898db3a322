/** The layout constants every code is built on. */
module Config {
  import opened Bits
  import opened BitSet

  /** `ceil(log2(n))`: the least exponent whose power of two is at least `n`. */
  function CeilLog2(n: nat): (e: nat)
    ensures n <= Pow2(e)
    ensures n >= 2 ==> e >= 1 && Pow2(e - 1) < n
  {
    if n <= 1 then 0 else 1 + CeilLog2((n + 1) / 2)
  }

  lemma {:induction false} CeilLog2Least(n: nat, e: nat)
    requires n <= Pow2(e)
    ensures CeilLog2(n) <= e
  {
    if n >= 2 && CeilLog2(n) > e {
      Pow2Mono(e, CeilLog2(n) - 1);
    }
  }

  ghost predicate IsPowerOfTwo(n: nat) {
    exists e: nat :: n == Pow2(e)
  }

  /** A field of `ceil(log2(V))` bits holds every id up to `V` exactly when `V` is no power of two. */
  lemma TopIdFits(v: nat)
    ensures v < Pow2(CeilLog2(v)) <==> !IsPowerOfTwo(v)
  {
    if v < Pow2(CeilLog2(v)) && IsPowerOfTwo(v) {
      var e: nat :| v == Pow2(e);
      CeilLog2Least(v, e);
      Pow2Mono(CeilLog2(v), e);
      assert false;
    }
  }

  lemma NarrowLog(n: nat)
    requires n < 0x1_0000_0000
    ensures CeilLog2(n) <= 32
  {
    Pow2Word();
    CeilLog2Least(n, 32);
  }

  /** Ids of `b` bits behind a prefix of one bit, and behind one of `f` bits, in `n` bits. */
  lemma CountBounds(n: nat, f: nat, b: nat)
    requires 1 <= b && 1 <= f <= n
    ensures Quotient(n - f, b) <= Quotient(n - 1, b) <= n
    ensures 1 + Span(Quotient(n - 1, b), b) <= n && f + Span(Quotient(n - f, b), b) <= n
  {
    DivMono(n - f, n - 1, b);
    DivBound(n - f, b);
    SpanIsProduct((n - 1) / b, b);
    SpanIsProduct((n - f) / b, b);
  }

  /** `k` words of 32 bits per vertex, ids `1..v` in `vb` bits; at most `maxCore` ids in a decodable code, at most
      `maxInt` in a partial one, whose count takes `logK` bits. */
  datatype Layout = Layout(k: nat, v: nat, vb: nat, maxCore: nat, logK: nat, maxInt: nat) {

    function PerBits(): nat { 32 * k }

    function BlockBegin(): nat { 3 + logK }

    /** Where the hash part starts behind `n` stored ids. */
    function HashBegin(n: nat): nat { BlockBegin() + Span(n, vb) }

    /** The inequalities the codes rest on. */
    ghost predicate Shape() {
      && 1 <= k <= 64
      && 2 <= v < 0xFFFF_FFFF && v <= Pow2(vb)
      && 1 <= vb <= 32 && 1 <= logK <= 32
      && 1 <= maxInt <= maxCore < Pow2(logK)
      && 1 + Span(maxCore, vb) <= PerBits()
      && HashBegin(maxInt) <= PerBits()
    }

    /** Moreover every id fits its field. */
    ghost predicate Ok() { Shape() && v < Pow2(vb) }

    lemma HashBeginWithin(n: nat)
      requires Shape() && n <= maxInt
      ensures HashBegin(n) <= PerBits()
    {
      SpanMono(n, maxInt, vb);
    }
  }

  /** Unsigned integer division. */
  function Quotient(a: nat, d: nat): nat
    requires d >= 1
  {
    a / d
  }

  /** The layout computed from the word count and the vertex count. */
  function InitCommonVariables(k: nat, v: nat): (lay: Layout)
    requires 1 <= k && 2 <= v
  {
    var per, vb := 32 * k, CeilLog2(v);
    var maxCore := Quotient(per - 1, vb);
    var logK := CeilLog2(maxCore + 1);
    Layout(k, v, vb, maxCore, logK, if per < 3 + logK then 0 else Quotient(per - 3 - logK, vb))
  }

  /** Nothing is wasted: one more id would fit neither code, and one bit less would hold neither an id nor a count. */
  ghost predicate Tight(lay: Layout) {
    && 1 + Span(lay.maxCore + 1, lay.vb) > lay.PerBits() && lay.HashBegin(lay.maxInt + 1) > lay.PerBits()
    && lay.vb >= 1 && Pow2(lay.vb - 1) < lay.v && lay.logK >= 1 && Pow2(lay.logK - 1) <= lay.maxCore
  }

  /** A computed layout with room for one id has the shape, is tight, and holds every id unless `v` is a power of two.
      */
  lemma InitOk(k: nat, v: nat)
    requires 1 <= k <= 64 && 2 <= v < 0xFFFF_FFFF
    ensures var lay := InitCommonVariables(k, v);
      lay.maxInt >= 1 ==>
        lay.k == k && lay.v == v && lay.Shape() && Tight(lay) && (lay.Ok() <==> !IsPowerOfTwo(v))
  {
    hide *;
    var lay := InitCommonVariables(k, v);
    NarrowLog(v);
    TopIdFits(v);
    InitFields(k, v);
    if lay.maxInt >= 1 {
      CountsFit(k, lay);
      LayoutFits(lay);
    }
  }

  lemma LayoutFits(lay: Layout)
    requires 1 <= lay.k <= 64 && 2 <= lay.v < 0xFFFF_FFFF && 1 <= lay.vb <= 32 && 1 <= lay.logK <= 32
    requires Pow2(lay.vb - 1) < lay.v <= Pow2(lay.vb)
    requires 1 <= lay.maxInt <= lay.maxCore < Pow2(lay.logK) && Pow2(lay.logK - 1) <= lay.maxCore
    requires 1 + Span(lay.maxCore, lay.vb) <= 32 * lay.k < 1 + Span(lay.maxCore + 1, lay.vb)
    requires 3 + lay.logK + Span(lay.maxInt, lay.vb) <= 32 * lay.k < 3 + lay.logK + Span(lay.maxInt + 1, lay.vb)
    ensures lay.Shape() && Tight(lay) && (lay.Ok() <==> lay.v < Pow2(lay.vb))
  {
    hide Pow2, Span;
  }

  lemma InitFields(k: nat, v: nat)
    requires 1 <= k && 2 <= v
    ensures var lay := InitCommonVariables(k, v);
      && lay.k == k && lay.v == v && lay.vb == CeilLog2(v) >= 1
      && lay.maxCore == Quotient(32 * k - 1, lay.vb) && lay.logK == CeilLog2(lay.maxCore + 1)
      && (lay.maxInt >= 1 ==> 3 + lay.logK <= 32 * k && lay.maxInt == Quotient(32 * k - 3 - lay.logK, lay.vb))
  {
    hide CeilLog2, Quotient;
  }

  lemma LogIs(n: nat, e: nat)
    requires n >= 2 && e >= 1 && Pow2(e - 1) < n <= Pow2(e)
    ensures CeilLog2(n) == e
  {
    hide CeilLog2, Pow2;
    CeilLog2Least(n, e);
    if CeilLog2(n) < e {
      Pow2Mono(CeilLog2(n), e - 1);
    }
  }

  /** The layout for one word per vertex and thirteen vertices. */
  lemma SmallLayout()
    ensures InitCommonVariables(1, 13).Ok() && InitCommonVariables(1, 13) == Layout(1, 13, 4, 7, 3, 6)
  {
    assert Pow2(2) == 4 && Pow2(3) == 8 && Pow2(4) == 16;
    LogIs(13, 4);
    LogIs(8, 3);
    hide CeilLog2, Pow2, Span;
    TopIdFits(13);
    InitOk(1, 13);
  }

  lemma CountsFit(k: nat, lay: Layout)
    requires 1 <= k <= 64 && lay.vb >= 1 && 1 <= lay.maxInt && 3 + lay.logK <= 32 * k
    requires lay.maxCore == Quotient(32 * k - 1, lay.vb) && lay.maxInt == Quotient(32 * k - 3 - lay.logK, lay.vb)
    requires lay.logK == CeilLog2(lay.maxCore + 1)
    ensures lay.maxInt <= lay.maxCore < Pow2(lay.logK) && 1 <= lay.logK <= 32 && Pow2(lay.logK - 1) <= lay.maxCore
    ensures 1 + Span(lay.maxCore, lay.vb) <= 32 * k < 1 + Span(lay.maxCore + 1, lay.vb)
    ensures 3 + lay.logK + Span(lay.maxInt, lay.vb) <= 32 * k < 3 + lay.logK + Span(lay.maxInt + 1, lay.vb)
  {
    hide CeilLog2, Pow2, Span, Quotient;
    CountBounds(32 * k, 3 + lay.logK, lay.vb);
    QuotientTight(32 * k - 1, lay.vb);
    QuotientTight(32 * k - 3 - lay.logK, lay.vb);
    NarrowLog(lay.maxCore + 1);
  }

  lemma QuotientTight(a: nat, d: nat)
    requires d >= 1
    ensures a < Span(Quotient(a, d) + 1, d)
  {
    DivBound(a, d);
    SpanIsProduct(a / d, d);
  }

  lemma DivMono(a: nat, b: nat, d: nat)
    requires a <= b && d >= 1
    ensures a / d <= b / d && b / d * d <= b && b / d <= b
  {
    DivBound(a, d);
    DivBound(b, d);
    MulOrder(a / d, b / d, d);
    MulAtLeast(b / d, d);
  }

  lemma DivBound(b: nat, d: nat)
    requires d >= 1
    ensures b / d * d <= b < b / d * d + d
  {
  }

  lemma SmallFactor(k: int, d: nat)
    requires k * d < 0
    ensures k < 0
  {
  }

  lemma MulOrder(q: nat, r: nat, d: nat)
    requires d >= 1 && q * d < r * d + d
    ensures q <= r
  {
    SmallFactor(q - r - 1, d);
  }

  lemma MulAtLeast(r: nat, d: nat)
    requires d >= 1
    ensures r <= r * d
  {
    assert r * (d - 1) >= 0;
  }
}
