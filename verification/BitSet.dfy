/** The per-vertex bit buffer: fields of 1..32 bits at any bit offset, written and read through mask tables. */
module BitSet {
  import opened Common
  import opened Bits

  const IS_ONE_MASK: seq<byte> := [0x80, 0x40, 0x20, 0x10, 0x08, 0x04, 0x02, 0x01]

  const ZERO_BLOCK_MASK: seq<seq<byte>> := [
    [0xFF, 0x7F, 0x3F, 0x1F, 0x0F, 0x07, 0x03, 0x01, 0x00],
    [0xFF, 0xBF, 0x9F, 0x8F, 0x87, 0x83, 0x81, 0x80],
    [0xFF, 0xDF, 0xCF, 0xC7, 0xC3, 0xC1, 0xC0],
    [0xFF, 0xEF, 0xE7, 0xE3, 0xE1, 0xE0],
    [0xFF, 0xF7, 0xF3, 0xF1, 0xF0],
    [0xFF, 0xFB, 0xF9, 0xF8],
    [0xFF, 0xFD, 0xFC],
    [0xFF, 0xFE]
  ]

  const ONE_BLOCK_MASK: seq<seq<byte>> := [
    [0, 0x80, 0xC0, 0xE0, 0xF0, 0xF8, 0xFC, 0xFE, 0xFF],
    [0, 0x40, 0x60, 0x70, 0x78, 0x7C, 0x7E, 0x7F],
    [0, 0x20, 0x30, 0x38, 0x3C, 0x3E, 0x3F],
    [0, 0x10, 0x18, 0x1C, 0x1E, 0x1F],
    [0, 0x08, 0x0C, 0x0E, 0x0F],
    [0, 0x04, 0x06, 0x07],
    [0, 0x02, 0x03],
    [0, 0x01]
  ]

  const LEFT_ONE_MASK: seq<byte> := [0x00, 0x01, 0x03, 0x07, 0x0F, 0x1F, 0x3F, 0x7F, 0]

  /** The mask tables are what their positions say: runs of ones and their complements. */
  lemma MaskTables(m: nat, n: nat)
    requires m < 8 && n <= 8 - m
    ensures |ONE_BLOCK_MASK| == |ZERO_BLOCK_MASK| == 8 && n < |ONE_BLOCK_MASK[m]| && n < |ZERO_BLOCK_MASK[m]|
    ensures ONE_BLOCK_MASK[m][n] == Ones(m, n, 8)
    ensures ZERO_BLOCK_MASK[m][n] == 255 - Ones(m, n, 8)
  {
    OnesValue(m, n);
    OneTable(m, n);
    ZeroTable(m, n);
    hide *;
  }

  lemma OneTable(m: nat, n: nat)
    requires m < 8 && n <= 8 - m
    ensures |ONE_BLOCK_MASK| == 8 && n < |ONE_BLOCK_MASK[m]|
    ensures ONE_BLOCK_MASK[m][n] == PowerOf(8 - m) - PowerOf(8 - m - n)
  {
    if m == 0 {
    } else if m == 1 {
    } else if m == 2 {
    } else if m == 3 {
    } else if m == 4 {
    } else if m == 5 {
    } else if m == 6 {
    } else {
    }
  }

  lemma ZeroTable(m: nat, n: nat)
    requires m < 8 && n <= 8 - m
    ensures |ZERO_BLOCK_MASK| == 8 && n < |ZERO_BLOCK_MASK[m]|
    ensures ZERO_BLOCK_MASK[m][n] == 255 - (PowerOf(8 - m) - PowerOf(8 - m - n))
  {
    if m == 0 {
    } else if m == 1 {
    } else if m == 2 {
    } else if m == 3 {
    } else if m == 4 {
    } else if m == 5 {
    } else if m == 6 {
    } else {
    }
  }

  function PowerOf(n: nat): nat
    requires n <= 8
  {
    [1, 2, 4, 8, 16, 32, 64, 128, 256][n]
  }

  lemma OnesValue(m: nat, n: nat)
    requires m < 8 && m + n <= 8
    ensures Ones(m, n, 8) == PowerOf(8 - m) - PowerOf(8 - m - n)
  {
    var l := 8 - m - n;
    OnesDifference(n, l);
    PowerTable(l);
    PowerTable(n + l);
  }

  lemma {:induction false} OnesDifference(n: nat, l: nat)
    ensures Shl(Pow2(n) - 1, l) == Pow2(n + l) - Pow2(l)
  {
    if l > 0 {
      OnesDifference(n, l - 1);
    }
  }

  lemma PowerTable(n: nat)
    requires n <= 8
    ensures Pow2(n) == PowerOf(n)
  {
    if n > 0 {
      PowerTable(n - 1);
    }
  }

  /** Table lookups; the tables agree with the runs of ones their positions stand for. */
  function BitMask(m: nat): (b: byte)
    requires m < 8
    ensures b == Ones(m, 1, 8)
  {
    MaskTables(m, 1);
    assert IS_ONE_MASK[m] == ONE_BLOCK_MASK[m][1];
    IS_ONE_MASK[m]
  }

  function ZeroMask(m: nat, n: nat): (b: byte)
    requires m < 8 && m + n <= 8
    ensures b + Ones(m, n, 8) == 255
  {
    MaskTables(m, n);
    ZERO_BLOCK_MASK[m][n]
  }

  function OneMask(m: nat, n: nat): (b: byte)
    requires m < 8 && m + n <= 8
    ensures b == Ones(m, n, 8)
  {
    MaskTables(m, n);
    ONE_BLOCK_MASK[m][n]
  }

  function LeftMask(left: nat): (b: byte)
    requires left < 8
    ensures b + Ones(0, 8 - left, 8) == 255
  {
    MaskTables(0, 8 - left);
    assert LEFT_ONE_MASK[left] == ZERO_BLOCK_MASK[0][8 - left];
    LEFT_ONE_MASK[left]
  }

  /** The bits of a byte buffer, in buffer order. */
  function BitsOf(bytes: seq<byte>): (s: seq<bool>)
    ensures |s| == 8 * |bytes|
  {
    seq(8 * |bytes|, p requires 0 <= p < 8 * |bytes| => ToBits(bytes[p / 8], 8)[p % 8])
  }

  /** `s` with the elements from `begin` on replaced by `t`. */
  function Splice<T>(s: seq<T>, begin: nat, t: seq<T>): (r: seq<T>)
    requires begin + |t| <= |s|
    ensures |r| == |s|
  {
    s[..begin] + t + s[begin + |t|..]
  }

  /** The number held by `size` bits from `begin` on. */
  function Field(s: seq<bool>, begin: nat, size: nat): (v: nat)
    requires begin + size <= |s|
    ensures v < Pow2(size)
  {
    ToBitsVal(s[begin..begin + size]);
    Val(s[begin..begin + size])
  }

  lemma SpliceAt<T>(s: seq<T>, begin: nat, t: seq<T>, p: nat)
    requires begin + |t| <= |s| && p < |s|
    ensures Splice(s, begin, t)[p] == if begin <= p < begin + |t| then t[p - begin] else s[p]
  {
  }

  lemma MaskBits(mask: byte, m: nat, n: nat)
    requires m + n <= 8 && mask + Ones(m, n, 8) == 255
    ensures forall i :: 0 <= i < 8 ==> ToBits(mask, 8)[i] == !(m <= i < m + n)
  {
    assert Pow2(8) == 256 by { PowerTable(8); }
    hide *;
    var o := Ones(m, n, 8);
    OnesBits(m, n, 8);
    ToBitsComplement(mask, o, 8);
    forall i | 0 <= i < 8
      ensures ToBits(mask, 8)[i] == !(m <= i < m + n)
    {
      assert ToBits(mask, 8)[i] == !ToBits(o, 8)[i];
    }
  }

  lemma ShiftedByte(m: nat, n: nat, v: nat, b: byte)
    requires m + n <= 8 && (m == 0 || v < Pow2(n)) && b == Shl(v, 8 - m - n) % 256
    ensures forall i :: 0 <= i < 8 ==> ToBits(b, 8)[i] == (m <= i < m + n && ToBits(v, n)[i - m])
  {
    hide *;
    var l := 8 - m - n;
    ToBitsByte(Shl(v, l));
    ToBitsShl(v, m + n, l);
    ToBitsSplit(v, m, n);
    if m > 0 {
      ShrSmall(v, n);
    }
    ToBitsZero(m);
    ToBitsZero(l);
    assert ToBits(b, 8) == (ToBits(Shr(v, n), m) + ToBits(v, n)) + ToBits(0, l);
    Between(ToBits(Shr(v, n), m), ToBits(v, n), ToBits(0, l));
  }

  /** A bit string between two blank ones. */
  lemma Between(a: seq<bool>, t: seq<bool>, c: seq<bool>)
    requires forall i :: 0 <= i < |a| ==> !a[i]
    requires forall i :: 0 <= i < |c| ==> !c[i]
    ensures forall i :: 0 <= i < |(a + t) + c| ==> ((a + t) + c)[i] == (|a| <= i < |a| + |t| && t[i - |a|])
  {
  }

  /** Masking out `n` bits at offset `m` of a byte and or-ing in a shifted value replaces exactly these bits. */
  lemma MaskedStore(x: byte, mask: byte, m: nat, n: nat, v: nat)
    requires m + n <= 8 && (m == 0 || v < Pow2(n))
    requires mask + Ones(m, n, 8) == 255
    ensures ToBits(Or(And(x, mask, 8), Shl(v, 8 - m - n) % 256, 8), 8)
            == Splice(ToBits(x, 8), m, ToBits(v, n))
  {
    hide *;
    var b := Shl(v, 8 - m - n) % 256;
    MaskBits(mask, m, n);
    ShiftedByte(m, n, v, b);
    AndBits(x, mask, 8);
    OrBits(And(x, mask, 8), b, 8);
    forall i | 0 <= i < 8
      ensures ToBits(Or(And(x, mask, 8), b, 8), 8)[i] == Splice(ToBits(x, 8), m, ToBits(v, n))[i]
    {
      SpliceAt(ToBits(x, 8), m, ToBits(v, n), i);
    }
  }

  /** Two adjacent splices are one. */
  lemma SpliceJoin(s: seq<bool>, begin: nat, t: seq<bool>, u: seq<bool>)
    requires begin + |t| + |u| <= |s|
    ensures Splice(Splice(s, begin + |t|, u), begin, t) == Splice(s, begin, t + u)
  {
  }

  /** With bits `b..` of a numeral in place, writing bits `a..b` puts bits `a..` in place. */
  lemma ExtendNumeral(s: seq<bool>, begin: nat, v: nat, n: nat, a: nat, b: nat)
    requires a <= b <= n && begin + n <= |s|
    ensures Splice(Splice(s, begin + b, ToBits(v, n)[b..]), begin + a, ToBits(Shr(v, n - b), b - a))
            == Splice(s, begin + a, ToBits(v, n)[a..])
  {
    hide *;
    ToBitsSlice(v, n, a, b);
    SpliceJoin(s, begin + a, ToBits(v, n)[a..b], ToBits(v, n)[b..]);
    assert ToBits(v, n)[a..] == ToBits(v, n)[a..b] + ToBits(v, n)[b..];
  }

  lemma StartNumeral(s: seq<bool>, begin: nat, v: nat, n: nat, a: nat)
    requires a <= n && begin + n <= |s|
    ensures Splice(s, begin + a, ToBits(v, n - a)) == Splice(s, begin + a, ToBits(v, n)[a..])
  {
    ToBitsSlice(v, n, a, n);
    assert Shr(v, 0) == v;
    hide *;
    assert ToBits(v, n)[a..n] == ToBits(v, n)[a..];
  }

  lemma FinishNumeral(s: seq<bool>, begin: nat, v: nat, n: nat, b: nat)
    requires b <= n && begin + n <= |s|
    ensures Splice(Splice(s, begin + b, ToBits(v, n)[b..]), begin, ToBits(Shr(v, n - b), b))
      == Splice(s, begin, ToBits(v, n))
  {
    hide *;
    ExtendNumeral(s, begin, v, n, 0, b);
    assert ToBits(v, n)[0..] == ToBits(v, n);
  }

  lemma BitsOfAt(bytes: seq<byte>, i: nat, k: nat)
    requires i < |bytes| && k < 8
    ensures BitsOf(bytes)[8 * i + k] == ToBits(bytes[i], 8)[k]
  {
    hide ToBits;
  }

  lemma SpliceInByte(bytes: seq<byte>, i: nat, b: byte, m: nat, t: seq<bool>)
    requires i < |bytes| && m + |t| <= 8 && ToBits(b, 8) == Splice(ToBits(bytes[i], 8), m, t)
    ensures BitsOf(bytes[i := b]) == Splice(BitsOf(bytes), 8 * i + m, t)
  {
    hide *;
    var l, r := BitsOf(bytes[i := b]), Splice(BitsOf(bytes), 8 * i + m, t);
    forall p | 0 <= p < 8 * |bytes|
      ensures l[p] == r[p]
    {
      var q, k := p / 8, p % 8;
      BitsOfAt(bytes, q, k);
      BitsOfAt(bytes[i := b], q, k);
      SpliceAt(BitsOf(bytes), 8 * i + m, t, p);
      SpliceAt(ToBits(bytes[i], 8), m, t, k);
    }
  }

  lemma OneBitMask(m: nat)
    requires m < 8
    ensures Shl(1, 7 - m) == Ones(m, 1, 8) <= 255 && Pow2(8) == 256
  {
    MaskTables(m, 1);
  }

  /** Or-ing in a one-bit mask raises that bit only. */
  lemma RaisedByte(x: byte, m: nat)
    requires m < 8
    ensures var b := Or(x, Shl(1, 7 - m), 8);
      b < 256 && ToBits(b, 8) == Splice(ToBits(x, 8), m, [true])
  {
    OneBitMask(m);
    hide *;
    var b := Or(x, Shl(1, 7 - m), 8);
    OnesBits(m, 1, 8);
    OrBits(x, Ones(m, 1, 8), 8);
    forall i | 0 <= i < 8
      ensures ToBits(b, 8)[i] == Splice(ToBits(x, 8), m, [true])[i]
    {
      SpliceAt(ToBits(x, 8), m, [true], i);
    }
  }

  /** And-ing with the complement of a one-bit mask lowers that bit only. */
  lemma LoweredByte(x: byte, m: nat)
    requires m < 8
    ensures Shl(1, 7 - m) <= 255
    ensures var b := And(x, 255 - Shl(1, 7 - m), 8);
      b < 256 && ToBits(b, 8) == Splice(ToBits(x, 8), m, [false])
  {
    OneBitMask(m);
    hide *;
    var b := And(x, 255 - Shl(1, 7 - m), 8);
    MaskBits(255 - Ones(m, 1, 8), m, 1);
    AndBits(x, 255 - Ones(m, 1, 8), 8);
    forall i | 0 <= i < 8
      ensures ToBits(b, 8)[i] == Splice(ToBits(x, 8), m, [false])[i]
    {
      SpliceAt(ToBits(x, 8), m, [false], i);
    }
  }

  /** Words with no common bit have a zero conjunction, others do not. */
  lemma AndZero(x: nat, y: nat, w: nat)
    requires forall i :: 0 <= i < w ==> !(ToBits(x, w)[i] && ToBits(y, w)[i])
    ensures And(x, y, w) == 0
  {
    ValZeros(seq(w, i requires 0 <= i < w => ToBits(x, w)[i] && ToBits(y, w)[i]));
  }

  lemma AndHit(x: nat, y: nat, w: nat, i: nat)
    requires i < w && ToBits(x, w)[i] && ToBits(y, w)[i]
    ensures And(x, y, w) != 0
  {
    AndBits(x, y, w);
    assert ToBits(And(x, y, w), w)[i];
    ToBitsZero(w);
  }

  lemma BitTest(x: byte, m: nat)
    requires m < 8
    ensures And(x, BitMask(m), 8) != 0 <==> ToBits(x, 8)[m]
  {
    hide And, Ones, BitMask;
    OnesBits(m, 1, 8);
    if ToBits(x, 8)[m] {
      AndHit(x, Ones(m, 1, 8), 8, m);
    } else {
      AndZero(x, Ones(m, 1, 8), 8);
    }
  }

  lemma {:induction false} ShlZero(m: nat)
    ensures Shl(0, m) == 0
  {
    if m > 0 {
      ShlZero(m - 1);
    }
  }

  /** Masking a byte to `n` bits at offset `m` and shifting them down reads their value. */
  lemma MaskedRead(x: byte, m: nat, n: nat)
    requires m + n <= 8
    ensures Shr(And(x, Ones(m, n, 8), 8), 8 - m - n) == Val(ToBits(x, 8)[m..m + n])
  {
    hide *;
    var r := And(x, Ones(m, n, 8), 8);
    var s, t := ToBits(r, 8), ToBits(x, 8)[m..m + n];
    OnesBits(m, n, 8);
    AndBits(x, Ones(m, n, 8), 8);
    ValToBits(r, 8);
    ShrVal(s, 8 - m - n);
    assert s[..m + n] == s[..m] + t;
    ValZeros(s[..m]);
    ValConcat(s[..m], t);
    ShlZero(n);
  }

  lemma MaskedReadLow(x: byte, m: nat)
    requires m < 8
    ensures And(x, Ones(m, 8 - m, 8), 8) == Val(ToBits(x, 8)[m..8])
  {
    hide And, Ones, Val, ToBits;
    MaskedRead(x, m, 8 - m);
  }

  /** Eight bits of the buffer are one byte. */
  lemma ByteSlice(bytes: seq<byte>, i: nat, a: nat, b: nat)
    requires i < |bytes| && a <= b <= 8
    ensures BitsOf(bytes)[8 * i + a..8 * i + b] == ToBits(bytes[i], 8)[a..b]
  {
    hide *;
    forall k | a <= k < b {
      BitsOfAt(bytes, i, k);
    }
    var l, r := BitsOf(bytes)[8 * i + a..8 * i + b], ToBits(bytes[i], 8)[a..b];
    forall k | 0 <= k < b - a
      ensures l[k] == r[k]
    {
      BitsOfAt(bytes, i, a + k);
    }
  }

  lemma ByteValue(x: byte)
    ensures Val(ToBits(x, 8)) == x
  {
    assert Pow2(8) == 256 by { PowerTable(8); }
    ValToBits(x, 8);
  }

  /** One more byte in front of a run of bits adds the byte, shifted past the run. */
  lemma PrependByte(bytes: seq<byte>, i: nat, end: nat)
    requires i < |bytes| && 8 * i + 8 <= end <= 8 * |bytes|
    ensures Val(BitsOf(bytes)[8 * i..end]) == Shl(bytes[i], end - 8 * i - 8) + Val(BitsOf(bytes)[8 * i + 8..end])
  {
    hide *;
    var s, x := BitsOf(bytes), ToBits(bytes[i], 8);
    ByteSlice(bytes, i, 0, 8);
    assert s[8 * i..end] == x[0..8] + s[8 * i + 8..end] && x[0..8] == x;
    ValConcat(x, s[8 * i + 8..end]);
    ByteValue(bytes[i]);
  }

  lemma PrependPart(bytes: seq<byte>, i: nat, m: nat, end: nat)
    requires i < |bytes| && m < 8 && 8 * i + 8 <= end <= 8 * |bytes|
    ensures Val(BitsOf(bytes)[8 * i + m..end])
            == Shl(And(bytes[i], Ones(m, 8 - m, 8), 8), end - 8 * i - 8) + Val(BitsOf(bytes)[8 * i + 8..end])
  {
    hide *;
    MaskedReadLow(bytes[i], m);
    var s, x := BitsOf(bytes), ToBits(bytes[i], 8)[m..8];
    ByteSlice(bytes, i, m, 8);
    assert s[8 * i + m..end] == x + s[8 * i + 8..end];
    ValConcat(x, s[8 * i + 8..end]);
  }

  lemma LastByte(bytes: seq<byte>, j: nat, k: nat)
    requires j < |bytes| && 1 <= k <= 8
    ensures Shr(bytes[j], 8 - k) == Val(BitsOf(bytes)[8 * j..8 * j + k])
  {
    hide *;
    var s := ToBits(bytes[j], 8);
    ByteValue(bytes[j]);
    ShrVal(s, 8 - k);
    ByteSlice(bytes, j, 0, k);
    assert s[..k] == s[0..k];
  }

  lemma ReadInByte(bytes: seq<byte>, i: nat, m: nat, n: nat)
    requires i < |bytes| && m + n <= 8
    ensures Shr(And(bytes[i], Ones(m, n, 8), 8), 8 - m - n) == Val(BitsOf(bytes)[8 * i + m..8 * i + m + n])
  {
    hide *;
    MaskedRead(bytes[i], m, n);
    ByteSlice(bytes, i, m, m + n);
  }

  /** How many bits `num` fields of width `size` take: `num * size`, kept linear. */
  function Span(num: nat, size: nat): nat {
    if num == 0 then 0 else Span(num - 1, size) + size
  }

  lemma {:induction false} SpanIsProduct(num: nat, size: nat)
    ensures Span(num, size) == num * size
  {
    if num > 0 {
      SpanIsProduct(num - 1, size);
    }
  }

  lemma {:induction false} SpanAdd(a: nat, b: nat, size: nat)
    ensures Span(a + b, size) == Span(a, size) + Span(b, size)
  {
    if b > 0 {
      SpanAdd(a, b - 1, size);
    }
  }

  lemma SpanMono(a: nat, b: nat, size: nat)
    requires a <= b
    ensures Span(a, size) <= Span(b, size)
    ensures a < b ==> Span(a, size) + size <= Span(b, size)
  {
    SpanAdd(a, b - a, size);
    if a < b {
      SpanAdd(1, b - a - 1, size);
    }
  }

  /** The numbers held by `num` consecutive fields of width `size`. */
  function Fields(s: seq<bool>, begin: nat, size: nat, num: nat): (r: seq<nat>)
    requires begin + Span(num, size) <= |s|
    ensures |r| == num
    decreases num
  {
    if num == 0 then [] else Fields(s, begin, size, num - 1) + [Field(s, begin + Span(num - 1, size), size)]
  }

  /** A field reads back what was written into it. */
  lemma ReadBack(s: seq<bool>, begin: nat, size: nat, v: nat)
    requires begin + size <= |s| && v < Pow2(size)
    ensures Field(Splice(s, begin, ToBits(v, size)), begin, size) == v
  {
    assert Splice(s, begin, ToBits(v, size))[begin..begin + size] == ToBits(v, size);
    ValToBits(v, size);
  }

  /** A field outside the written bits keeps its value. */
  lemma ReadElsewhere(s: seq<bool>, begin: nat, t: seq<bool>, b: nat, size: nat)
    requires begin + |t| <= |s| && b + size <= |s| && (b + size <= begin || begin + |t| <= b)
    ensures Field(Splice(s, begin, t), b, size) == Field(s, b, size)
  {
    assert Splice(s, begin, t)[b..b + size] == s[b..b + size];
  }

  /** The bits after writing `vals` into consecutive fields of width `size`, first to last. */
  function WriteFields(s: seq<bool>, begin: nat, size: nat, vals: seq<nat>): (r: seq<bool>)
    requires begin + Span(|vals|, size) <= |s|
    ensures |r| == |s|
    decreases |vals|
  {
    if vals == [] then s
    else
      var n := |vals| - 1;
      Splice(WriteFields(s, begin, size, vals[..n]), begin + Span(n, size), ToBits(vals[n], size))
  }

  lemma {:induction false} WriteFieldsOutside(s: seq<bool>, begin: nat, size: nat, vals: seq<nat>)
    requires begin + Span(|vals|, size) <= |s|
    ensures forall p :: 0 <= p < |s| && !(begin <= p < begin + Span(|vals|, size)) ==>
      WriteFields(s, begin, size, vals)[p] == s[p]
    decreases |vals|
  {
    if vals != [] {
      WriteFieldsOutside(s, begin, size, vals[..|vals| - 1]);
    }
  }

  /** Fields written in sequence all read back. */
  lemma {:induction false} WriteFieldsRead(s: seq<bool>, begin: nat, size: nat, vals: seq<nat>)
    requires begin + Span(|vals|, size) <= |s|
    requires forall i :: 0 <= i < |vals| ==> vals[i] < Pow2(size)
    ensures Fields(WriteFields(s, begin, size, vals), begin, size, |vals|) == vals
    decreases |vals|
  {
    hide *;
    if vals == [] {
      assert Fields(WriteFields(s, begin, size, vals), begin, size, 0) == [];
    } else {
      var n := |vals| - 1;
      var front, at := vals[..n], begin + Span(n, size);
      SpanMono(n, n + 1, size);
      WriteFieldsRead(s, begin, size, front);
      var w := WriteFields(s, begin, size, front);
      WriteLast(s, begin, size, vals);
      FieldsLast(Splice(w, at, ToBits(vals[n], size)), begin, size, n);
      ReadBack(w, at, size, vals[n]);
      FieldsKept(w, begin, size, n, ToBits(vals[n], size));
    }
  }

  lemma WriteLast(s: seq<bool>, begin: nat, size: nat, vals: seq<nat>)
    requires vals != [] && begin + Span(|vals|, size) <= |s|
    ensures begin + Span(|vals| - 1, size) + size <= |s|
    ensures WriteFields(s, begin, size, vals)
            == Splice(WriteFields(s, begin, size, vals[..|vals| - 1]), begin + Span(|vals| - 1, size),
                      ToBits(vals[|vals| - 1], size))
  {
    hide Splice, ToBits;
  }

  lemma FieldsLast(s: seq<bool>, begin: nat, size: nat, num: nat)
    requires begin + Span(num + 1, size) <= |s|
    ensures begin + Span(num, size) + size <= |s|
    ensures Fields(s, begin, size, num + 1) == Fields(s, begin, size, num) + [Field(s, begin + Span(num, size), size)]
  {
    hide Field;
  }

  /** Blank fields read zero. */
  lemma {:induction false} BlankFields(s: seq<bool>, begin: nat, size: nat, num: nat)
    requires begin + Span(num, size) <= |s|
    requires forall p :: begin <= p < begin + Span(num, size) ==> !s[p]
    ensures Fields(s, begin, size, num) == seq(num, _ => 0)
  {
    if num > 0 {
      BlankFields(s, begin, size, num - 1);
      var at := begin + Span(num - 1, size);
      ValZeros(s[at..at + size]);
    }
  }

  /** After a list is written over blank bits, the fields hold the list and then zeros. */
  lemma WriteOverBlank(s: seq<bool>, begin: nat, size: nat, vals: seq<nat>, num: nat)
    requires |vals| <= num && begin + Span(num, size) <= |s|
    requires forall i :: 0 <= i < |vals| ==> vals[i] < Pow2(size)
    requires forall p :: begin <= p < |s| ==> !s[p]
    ensures begin + Span(|vals|, size) <= |s|
    ensures Fields(WriteFields(s, begin, size, vals), begin, size, num) == vals + seq(num - |vals|, _ => 0)
  {
    hide *;
    var n := |vals|;
    SpanMono(n, num, size);
    SpanAdd(n, num - n, size);
    var r := WriteFields(s, begin, size, vals);
    WriteFieldsRead(s, begin, size, vals);
    WriteFieldsOutside(s, begin, size, vals);
    BlankFields(r, begin + Span(n, size), size, num - n);
    FieldsAppend(r, begin, size, n, num - n);
  }

  lemma {:induction false} FieldsAppend(s: seq<bool>, begin: nat, size: nat, a: nat, b: nat)
    requires begin + Span(a + b, size) <= |s| && Span(a + b, size) == Span(a, size) + Span(b, size)
    ensures Fields(s, begin, size, a + b) == Fields(s, begin, size, a) + Fields(s, begin + Span(a, size), size, b)
    decreases b
  {
    hide Field;
    if b > 0 {
      SpanAdd(a, b - 1, size);
      FieldsAppend(s, begin, size, a, b - 1);
    }
  }

  lemma {:induction false} FieldsKept(s: seq<bool>, begin: nat, size: nat, num: nat, t: seq<bool>)
    requires begin + Span(num, size) + |t| <= |s|
    ensures Fields(Splice(s, begin + Span(num, size), t), begin, size, num) == Fields(s, begin, size, num)
  {
    FieldsSameBits(s, Splice(s, begin + Span(num, size), t), begin, size, num);
  }

  /** Fields depend only on the bits they cover. */
  lemma {:induction false} FieldsSameBits(s: seq<bool>, r: seq<bool>, begin: nat, size: nat, num: nat)
    requires begin + Span(num, size) <= |s| == |r|
    requires forall p :: begin <= p < begin + Span(num, size) ==> s[p] == r[p]
    ensures Fields(s, begin, size, num) == Fields(r, begin, size, num)
  {
    if num > 0 {
      FieldsSameBits(s, r, begin, size, num - 1);
      var at := begin + Span(num - 1, size);
      assert s[at..at + size] == r[at..at + size];
    }
  }

  /** Ordered search that stops at the first field not below `value`. */
  function Scan(fields: seq<nat>, value: nat): PairType {
    if fields == [] then NonNeighbor
    else if fields[0] == value then Neighbor
    else if value < fields[0] then NonNeighbor
    else Scan(fields[1..], value)
  }

  lemma {:induction false} FieldsAt(s: seq<bool>, begin: nat, size: nat, num: nat, t: nat)
    requires begin + Span(num, size) <= |s| && t < num
    ensures begin + Span(t, size) + size <= |s|
    ensures Fields(s, begin, size, num)[t] == Field(s, begin + Span(t, size), size)
  {
    if t < num - 1 {
      FieldsAt(s, begin, size, num - 1, t);
    }
  }

  lemma FieldsSlice(s: seq<bool>, begin: nat, size: nat, num: nat, a: nat, n: nat)
    requires begin + Span(num, size) <= |s| && a + n <= num
    ensures begin + Span(a, size) + Span(n, size) <= |s|
    ensures Fields(s, begin + Span(a, size), size, n) == Fields(s, begin, size, num)[a..a + n]
  {
    hide *;
    SpanMono(a + n, num, size);
    SpanAdd(a, n, size);
    var l, r := Fields(s, begin + Span(a, size), size, n), Fields(s, begin, size, num);
    forall t | 0 <= t < n
      ensures l[t] == r[a..a + n][t]
    {
      FieldsAt(s, begin + Span(a, size), size, n, t);
      FieldsAt(s, begin, size, num, a + t);
      SpanAdd(a, t, size);
    }
  }

  /** Increasing positive values followed by zeros only: the shape of a stored neighbour list. */
  ghost predicate ZeroTailed(fields: seq<nat>, n: nat) {
    && n <= |fields|
    && (forall i :: 0 <= i < n ==> 1 <= fields[i])
    && (forall i, j :: 0 <= i < j < n ==> fields[i] < fields[j])
    && (forall i :: n <= i < |fields| ==> fields[i] == 0)
  }

  /** The early exit loses nothing on stored lists. */
  lemma {:induction false} ScanExact(fields: seq<nat>, n: nat, value: nat)
    requires ZeroTailed(fields, n) && value >= 1
    ensures Scan(fields, value) == if value in fields then Neighbor else NonNeighbor
  {
    if fields != [] {
      var rest := fields[1..];
      if n > 0 {
        assert ZeroTailed(rest, n - 1);
        ScanExact(rest, n - 1, value);
      } else {
        ScanExact(rest, 0, value);
      }
      assert fields == [fields[0]] + rest;
    }
  }

  /** What the four-lane search returns: equality in any lane, padded lanes being zero. */
  function LaneScan(fields: seq<nat>, value: nat): PairType {
    if value in fields || (value == 0 && |fields| % 4 != 0) then Neighbor else NonNeighbor
  }

  /** Both searches agree on every stored list, for all ids. */
  lemma ScansAgree(fields: seq<nat>, n: nat, value: nat)
    requires ZeroTailed(fields, n) && value >= 1
    ensures Scan(fields, value) == LaneScan(fields, value)
  {
    ScanExact(fields, n, value);
  }

  class BitSetSIMD {
    const data: array<byte>

    ghost function Bits(): (s: seq<bool>)
      reads data
      ensures |s| == 8 * data.Length
    {
      BitsOf(data[..])
    }

    constructor (size: nat)
      ensures data.Length == size / 8 && fresh(data)
      ensures forall p :: 0 <= p < |Bits()| ==> !Bits()[p]
    {
      data := new byte[size / 8](_ => 0);
      new;
      ToBitsZero(8);
    }

    method Clear()
      modifies data
      ensures forall i :: 0 <= i < data.Length ==> data[i] == 0
      ensures forall p :: 0 <= p < |Bits()| ==> !Bits()[p]
    {
      for i := 0 to data.Length
        invariant forall j :: 0 <= j < i ==> data[j] == 0
      {
        data[i] := 0;
      }
      ToBitsZero(8);
    }

    /** `data[i] &= mask; data[i] |= v << shift`: replaces `n` bits at offset `m` of byte `i`. */
    method StorePart(i: nat, mask: byte, m: nat, n: nat, v: nat)
      requires i < data.Length && m + n <= 8 && (m == 0 || v < Pow2(n))
      requires mask + Ones(m, n, 8) == 255
      modifies data
      ensures Bits() == Splice(old(Bits()), 8 * i + m, ToBits(v, n))
    {
      ghost var was := data[..];
      assert Pow2(8) == 256;
      data[i] := And(data[i], mask, 8);
      data[i] := Or(data[i], Shl(v, 8 - m - n) % 256, 8);
      MaskedStore(was[i], mask, m, n, v);
      assert data[..] == was[i := data[i]];
      SpliceInByte(was, i, data[i], m, ToBits(v, n));
    }

    method SetOne(pos: nat)
      requires pos < 8 * data.Length
      modifies data
      ensures Bits() == Splice(old(Bits()), pos, [true])
    {
      hide Splice, BitsOf, Or, Shl;
      ghost var was := data[..];
      var i, m := pos / 8, pos % 8;
      RaisedByte(data[i], m);
      data[i] := Or(data[i], Shl(1, 7 - m), 8);
      assert data[..] == was[i := data[i]];
      SpliceInByte(was, i, data[i], m, [true]);
    }

    /** `0xFF ^ y` on a byte is `255 - y`. */
    method SetZero(pos: nat)
      requires pos < 8 * data.Length
      modifies data
      ensures Bits() == Splice(old(Bits()), pos, [false])
    {
      hide Splice, BitsOf, And, Shl;
      ghost var was := data[..];
      var i, m := pos / 8, pos % 8;
      LoweredByte(data[i], m);
      data[i] := And(data[i], 255 - Shl(1, 7 - m), 8);
      assert data[..] == was[i := data[i]];
      SpliceInByte(was, i, data[i], m, [false]);
    }

    method IsOne(pos: nat) returns (r: bool)
      requires pos < 8 * data.Length
      ensures r == Bits()[pos]
    {
      BitTest(data[pos / 8], pos % 8);
      r := And(data[pos / 8], BitMask(pos % 8), 8) != 0;
    }

    method StoreNext(begin: nat, block_size: nat, value: nat, size: nat, idx: nat, rest: nat, ghost before: seq<bool>)
      returns (next: nat)
      requires 8 <= size <= block_size && begin + block_size <= 8 * data.Length && |before| == |Bits()|
      requires 8 * idx + 8 == begin + size && rest == Shr(value, block_size - size)
      requires Bits() == Splice(before, begin + size, ToBits(value, block_size)[size..])
      modifies data
      ensures next == Shr(value, block_size - (size - 8))
      ensures Bits() == Splice(before, begin + (size - 8), ToBits(value, block_size)[size - 8..])
    {
      assert Ones(0, 8, 8) == 255;
      hide *;
      StorePart(idx, 0x00, 0, 8, rest);
      ExtendNumeral(before, begin, value, block_size, size - 8, size);
      ShrAdd(value, block_size - size, 8);
      next := Shr(rest, 8);
    }

    /** Whole bytes of a value, from the low end, until at most eight of its bits are left. */
    method StoreMiddle(begin: nat, block_size: nat, value: nat, done: nat, end: nat, ghost before: seq<bool>)
      returns (size: nat, rest: nat, ghost at: nat)
      requires 1 <= done < block_size <= 32
      requires begin + block_size <= 8 * data.Length && |before| == |Bits()|
      requires 8 * end == begin + block_size - done
      requires Bits() == Splice(before, begin + block_size - done, ToBits(value, block_size)[block_size - done..])
      modifies data
      ensures 1 <= size <= 8 && size <= block_size && begin <= 8 * at == begin + size
      ensures rest == Shr(value, block_size - size)
      ensures Bits() == Splice(before, begin + size, ToBits(value, block_size)[size..])
    {
      hide *;
      size, rest := block_size - done, Shr(value, done);
      var endIdx := end;
      while size > 8
        invariant 1 <= size <= block_size && 8 * endIdx == begin + size
        invariant rest == Shr(value, block_size - size)
        invariant Bits() == Splice(before, begin + size, ToBits(value, block_size)[size..])
      {
        endIdx := endIdx - 1;
        rest := StoreNext(begin, block_size, value, size, endIdx, rest, before);
        size := size - 8;
      }
      at := endIdx;
    }

    /** The branch for a field that ends in a later byte than it begins in. */
    method StoreAcross(begin: nat, block_size: nat, value: nat, beginIdx: nat, endIdx: nat, left: nat)
      requires 1 <= block_size <= 32 && value < Pow2(block_size)
      requires begin / 8 == beginIdx < endIdx < data.Length && left < 8
      requires begin + block_size == 8 * endIdx + 8 - left
      modifies data
      ensures Bits() == Splice(old(Bits()), begin, ToBits(value, block_size))
    {
      hide *;
      ghost var before := Bits();
      StorePart(endIdx, LeftMask(left), 0, 8 - left, value);
      StartNumeral(before, begin, value, block_size, block_size - (8 - left));
      var size, rest, _ := StoreMiddle(begin, block_size, value, 8 - left, endIdx, before);
      ShrBound(value, block_size, block_size - size);
      StorePart(beginIdx, ZeroMask(begin % 8, size), begin % 8, size, rest);
      FinishNumeral(before, begin, value, block_size, size);
    }

    /** Writes `value` into `block_size` bits from `begin` on. The first byte index is held in eight bits. */
    method BlockSet(begin: nat, block_size: nat, value: nat)
      requires 1 <= block_size <= 32 && value < Pow2(block_size)
      requires begin + block_size <= 8 * data.Length && begin < 2048
      modifies data
      ensures Bits() == Splice(old(Bits()), begin, ToBits(value, block_size))
    {
      hide *;
      var beginIdx := begin / 8 % 256;
      var endIdx := (begin + block_size - 1) / 8;
      var left := 7 - (begin + block_size - 1) % 8;
      if beginIdx != endIdx {
        StoreAcross(begin, block_size, value, beginIdx, endIdx, left);
      } else {
        StorePart(beginIdx, ZeroMask(begin % 8, block_size), begin % 8, block_size, value);
      }
    }

    method ReadAcross(begin: nat, block_size: nat, i: nat, j: nat, lastMod: nat) returns (val: nat)
      requires i == begin / 8 < j < data.Length && lastMod < 8
      requires begin + block_size == 8 * j + lastMod + 1
      ensures val == Val(BitsOf(data[..])[begin..begin + block_size])
    {
      hide *;
      ghost var bytes, end := data[..], begin + block_size;
      val := Shr(data[j], 7 - lastMod);
      LastByte(bytes, j, lastMod + 1);
      for idx := 1 to j - i
        invariant val == Val(BitsOf(bytes)[8 * (j - idx + 1)..end])
      {
        PrependByte(bytes, j - idx, end);
        val := val + Shl(data[j - idx], 8 * (idx - 1) + lastMod + 1);
      }
      PrependPart(bytes, i, begin % 8, end);
      val := val + Shl(And(data[i], OneMask(begin % 8, 8 - begin % 8), 8), block_size - 8 + begin % 8);
    }

    /** The number in `block_size` bits from `begin` on; no partial sum exceeds 32 bits. */
    method BlockGet(begin: nat, block_size: nat) returns (val: nat)
      requires 1 <= block_size <= 32 && begin + block_size <= 8 * data.Length
      ensures val == Field(Bits(), begin, block_size)
    {
      hide And, Shr, Ones, BitsOf, OneMask, Val;
      var i, last := begin / 8, begin + block_size - 1;
      var j := last / 8;
      if i == j {
        ReadInByte(data[..], i, begin % 8, block_size);
        val := Shr(And(data[i], OneMask(begin % 8, block_size), 8), 7 - last % 8);
      } else {
        val := ReadAcross(begin, block_size, i, j, last % 8);
      }
    }

    method BlockFind(begin: nat, block_size: nat, block_num: nat, value: nat) returns (r: PairType)
      requires 1 <= block_size <= 32 && begin + Span(block_num, block_size) <= 8 * data.Length
      ensures r == Scan(Fields(Bits(), begin, block_size, block_num), value)
    {
      hide Fields, Field, Bits, BitsOf;
      SpanIsProduct(block_num, block_size);
      ghost var fields := Fields(Bits(), begin, block_size, block_num);
      var i := begin;
      ghost var t := 0;
      while i < block_size * block_num + begin
        invariant t <= block_num && i == begin + Span(t, block_size)
        invariant Scan(fields, value) == Scan(fields[t..], value)
        decreases block_num - t
      {
        FieldsAt(Bits(), begin, block_size, block_num, t);
        var val := BlockGet(i, block_size);
        assert fields[t..][0] == val && fields[t..][1..] == fields[t + 1..];
        if val == value {
          return Neighbor;
        } else if value < val {
          return NonNeighbor;
        }
        i, t := i + block_size, t + 1;
      }
      SpanMono(t, block_num, block_size);
      return NonNeighbor;
    }

    /** Loads up to four fields into lanes, zero-fills the rest and compares all lanes with `value`. */
    method LanesMatch(begin: nat, block_size: nat, lanes: nat, value: nat) returns (hit: bool)
      requires 1 <= block_size <= 32 && 1 <= lanes <= 4 && begin + Span(lanes, block_size) <= 8 * data.Length
      ensures hit <==> value in Fields(Bits(), begin, block_size, lanes) || (value == 0 && lanes < 4)
    {
      hide Fields, Field, Bits, BitsOf;
      ghost var fields := Fields(Bits(), begin, block_size, lanes);
      var keys, at := [0, 0, 0, 0], begin;
      for l := 0 to lanes
        invariant |keys| == 4 && at == begin + Span(l, block_size)
        invariant forall q :: 0 <= q < 4 ==> keys[q] == if q < l then fields[q] else 0
      {
        FieldsAt(Bits(), begin, block_size, lanes, l);
        var val := BlockGet(at, block_size);
        keys, at := keys[l := val], at + block_size;
      }
      hit := keys[0] == value || keys[1] == value || keys[2] == value || keys[3] == value;
      assert forall q :: 0 <= q < lanes ==> fields[q] == keys[q];
    }

    /** Four fields per comparison; the lanes past the last field hold zero. */
    method BlockFindSIMD(begin: nat, block_size: nat, block_num: nat, value: nat) returns (r: PairType)
      requires 1 <= block_size <= 32 && begin + Span(block_num, block_size) <= 8 * data.Length
      ensures r == LaneScan(Fields(Bits(), begin, block_size, block_num), value)
    {
      hide Fields, Field, Bits, BitsOf;
      ghost var fields := Fields(Bits(), begin, block_size, block_num);
      var shift := 0;
      for t := 0 to block_num / 4
        invariant shift == Span(4 * t, block_size)
        invariant value !in fields[..4 * t]
      {
        FieldsSlice(Bits(), begin, block_size, block_num, 4 * t, 4);
        var hit := LanesMatch(begin + shift, block_size, 4, value);
        if hit {
          return Neighbor;
        }
        SpanAdd(4 * t, 4, block_size);
        SpanIsProduct(4, block_size);
        shift := shift + block_size * 4;
        assert fields[..4 * t + 4] == fields[..4 * t] + fields[4 * t..4 * t + 4];
      }
      var rest := block_num % 4;
      var done := block_num - rest;
      assert fields == fields[..done] + fields[done..];
      if rest == 0 {
        return NonNeighbor;
      }
      FieldsSlice(Bits(), begin, block_size, block_num, done, rest);
      assert fields[done..done + rest] == fields[done..];
      var hit := LanesMatch(begin + shift, block_size, rest, value);
      return if hit then Neighbor else NonNeighbor;
    }
  }
}
