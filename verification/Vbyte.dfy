/** The byte codec: seven payload bits per byte, most significant group first, the top bit set on all but the last. */
module Vbyte {
  import opened Bits
  import opened BitSet

  const RANGE: seq<nat> := [127, 16383, 2097151]

  /** How many bytes a value takes, never more than four. */
  function IntegerBytes(value: nat): (n: nat)
    ensures 1 <= n <= 4
  {
    if value <= RANGE[0] then 1 else if value <= RANGE[1] then 2 else if value <= RANGE[2] then 3 else 4
  }

  /** What fits into `n` groups of seven bits. */
  function Capacity(n: nat): nat
    requires n <= 4
  {
    if n == 0 then 1 else if n == 1 then 128 else if n == 2 then 16384 else if n == 3 then 2097152 else 0x1000_0000
  }

  /** The thresholds find the least number of seven-bit groups that holds the value, and four beyond. */
  lemma LeastBytes(value: nat)
    ensures value < Capacity(4) ==> value < Capacity(IntegerBytes(value))
    ensures value >= Capacity(4) ==> IntegerBytes(value) == 4
    ensures forall n :: 1 <= n < IntegerBytes(value) ==> Capacity(n) <= value
  {
  }

  /** The code of a value, built with masks and shifts on a 32-bit word. */
  function Compress(value: nat): nat {
    var n := IntegerBytes(value);
    if n == 1 then value
    else if n == 2 then
      Or(Or(Shl(And(value, 0x3F80, 32), 1), 0x8000, 32), And(value, 0x7F, 32), 32)
    else if n == 3 then
      Or(Or(Or(Shl(And(value, 0x1FC000, 32), 2), 0x808000, 32), Shl(And(value, 0x3F80, 32), 1), 32),
        And(value, 0x7F, 32), 32)
    else
      Or(Or(Or(Or(Shl(And(value, 0xFE00000, 32), 3), 0x80808000, 32), Shl(And(value, 0x1FC000, 32), 2), 32),
            Shl(And(value, 0x3F80, 32), 1), 32), And(value, 0x7F, 32), 32)
  }

  /** The bytes a value is meant to be stored as. */
  function Bytes(value: nat): (r: seq<byte>)
    ensures |r| == IntegerBytes(value)
  {
    var n := IntegerBytes(value);
    var g0, g1, g2, g3 := value % 128, value / 128 % 128, value / 16384 % 128, value / 2097152 % 128;
    if n == 1 then [value]
    else if n == 2 then [128 + g1, g0]
    else if n == 3 then [128 + g2, 128 + g1, g0]
    else [128 + g3, 128 + g2, 128 + g1, g0]
  }

  /** Shifting a word left moves its bits towards the front. */
  lemma ShlBits(y: nat, k: nat, w: nat)
    requires k <= w
    ensures forall i :: 0 <= i < w ==> ToBits(Shl(y, k), w)[i] == (i + k < w && ToBits(y, w)[i + k])
  {
    ToBitsShl(y, w - k, k);
    ToBitsSlice(y, w, k, w);
    ToBitsZero(k);
    hide Shl;
    assert Shr(y, 0) == y;
    assert ToBits(y, w)[k..w] == ToBits(y, w - k);
    forall i | 0 <= i < w
      ensures ToBits(Shl(y, k), w)[i] == (i + k < w && ToBits(y, w)[i + k])
    {
      if i + k < w {
        assert ToBits(y, w)[k..w][i] == ToBits(y, w)[i + k];
      }
    }
  }

  lemma WordMasks()
    ensures 0x7F == Ones(25, 7, 32) && 0x3F80 == Ones(18, 7, 32) && 0x1FC000 == Ones(11, 7, 32)
      && 0xFE00000 == Ones(4, 7, 32)
  {
    assert Pow2(7) == 128 by { PowerTable(7); }
    assert Shl(127, 0) == 127;
    hide Shl, Pow2;
    Shl7(127);
    ShlAdd(127, 7, 7);
    Shl7(128 * 127);
    ShlAdd(127, 14, 7);
    Shl7(16384 * 127);
  }

  /** A masked and shifted group holds seven bits of the value and nothing else. */
  lemma GroupBits(value: nat, m: nat, k: nat, mask: nat, word: nat)
    requires k <= m && m + 7 <= 32 && mask == Ones(m, 7, 32)
      && word == (if k == 0 then And(value, mask, 32) else Shl(And(value, mask, 32), k))
    ensures IsGroup(ToBits(value, 32), m, k, ToBits(word, 32))
  {
    assert Shl(And(value, mask, 32), 0) == And(value, mask, 32);
    hide Shl, And, Ones;
    OnesBits(m, 7, 32);
    AndBits(value, mask, 32);
    ShlBits(And(value, mask, 32), k, 32);
    forall i | 0 <= i < 32
      ensures ToBits(word, 32)[i] == (m - k <= i < m - k + 7 && ToBits(value, 32)[i + k])
    {
      if i + k < 32 {
        assert ToBits(And(value, mask, 32), 32)[i + k] == (ToBits(value, 32)[i + k] && ToBits(mask, 32)[i + k]);
      }
    }
  }

  lemma Shl15(x: nat)
    ensures Shl(x, 15) == 32768 * x
  {
    ShlAdd(x, 8, 7);
    Shl8(x);
    assert Shl(256 * x, 3) == 2048 * x by { assert Shl(256 * x, 2) == 2 * Shl(256 * x, 1); }
    assert Shl(256 * x, 6) == 16384 * x by { assert Shl(256 * x, 5) == 2 * Shl(256 * x, 4); }
  }

  lemma Shr8(x: nat)
    ensures Shr(x, 8) == x / 256
  {
    ShrAdd(x, 4, 4);
    Shr4(x);
    Shr4(x / 16);
  }

  lemma Shr2(x: nat)
    ensures Shr(x, 2) == x / 4
  {
    assert Shr(x, 2) == Shr(x / 2, 1) == x / 2 / 2;
  }

  lemma Shr4(x: nat)
    ensures Shr(x, 4) == x / 16
  {
    Shr2(x);
    ShrAdd(x, 2, 2);
    Shr2(x / 4);
  }

  lemma OneByte()
    ensures ToBits(1, 8) == [false, false, false, false, false, false, false, true]
    ensures ToBits(0, 8) == [false, false, false, false, false, false, false, false]
    ensures ToBits(1, 1) == [true] && ToBits(0, 1) == [false]
  {
    ToBitsZero(8);
    ToBitsZero(7);
    assert ToBits(1, 8) == ToBits(0, 7) + [true];
  }

  /** The continuation flags: the top bit of each byte but the last. */
  lemma FlagBits(n: nat, word: nat)
    requires (n == 2 && word == 0x8000) || (n == 3 && word == 0x808000) || (n == 4 && word == 0x80808000)
    ensures IsFlags(n, ToBits(word, 32))
  {
    OneByte();
    ToBitsZero(15);
    hide ToBits;
    var t, h := if n == 4 then 1 else 0, if n >= 3 then 1 else 0;
    FlagShape(word, t, h);
    FlagsInPlace(n, ToBits(t, 1), ToBits(h, 8), ToBits(1, 8), ToBits(0, 15), ToBits(word, 32));
  }

  lemma FlagsInPlace(n: nat, t: seq<bool>, h: seq<bool>, o: seq<bool>, z: seq<bool>, f: seq<bool>)
    requires t == [n >= 4] && |h| == |o| == 8 && |z| == 15 && f == ((t + h) + o) + z
    requires forall i :: 0 <= i < 8 ==> h[i] == (i == 7 && n >= 3)
    requires forall i :: 0 <= i < 8 ==> o[i] == (i == 7)
    requires forall i :: 0 <= i < 15 ==> !z[i]
    ensures IsFlags(n, f)
  {
  }

  lemma FlagShape(word: nat, t: nat, h: nat)
    requires word == 32768 * (65536 * t + 256 * h + 1) && h < 256 && t < 2
    ensures ToBits(word, 32) == ((ToBits(t, 1) + ToBits(h, 8)) + ToBits(1, 8)) + ToBits(0, 15)
  {
    hide *;
    var x := 65536 * t + 256 * h + 1;
    Shl15(x);
    ToBitsShl(x, 17, 15);
    ToBitsSplit(x, 9, 8);
    Shr8(x);
    assert x / 256 == 256 * t + h && x % 256 == 1;
    ToBitsSplit(256 * t + h, 1, 8);
    Shr8(256 * t + h);
    ToBitsByte(x);
    ToBitsByte(256 * t + h);
  }

  /** The word a code occupies, bit by bit: flags at the byte boundaries, the value's groups between them. */
  ghost predicate CodeWord(v: seq<bool>, n: nat, r: seq<bool>) {
    && |v| == |r| == 32
    && (forall i :: 25 <= i < 32 ==> r[i] == v[i])
    && !r[24] && n <= 4 && (forall i :: 0 <= i < 32 - 8 * n ==> !r[i])
    && (n >= 2 ==> r[16] && forall i :: 17 <= i < 24 ==> r[i] == v[i + 1])
    && (n >= 3 ==> r[8] && forall i :: 9 <= i < 16 ==> r[i] == v[i + 2])
    && (n >= 4 ==> r[0] && forall i :: 1 <= i < 8 ==> r[i] == v[i + 3])
  }

  /** Bits `m..m + 7` of `v` moved `k` places to the front, all other bits off. */
  ghost predicate IsGroup(v: seq<bool>, m: nat, k: nat, g: seq<bool>) {
    |v| == |g| == 32 && k <= m <= 25 && forall i :: 0 <= i < 32 ==> g[i] == (m - k <= i < m - k + 7 && v[i + k])
  }

  ghost predicate IsFlags(n: nat, f: seq<bool>) {
    |f| == 32 && forall i :: 0 <= i < 32 ==> f[i] == (i == 16 || (i == 8 && n >= 3) || (i == 0 && n >= 4))
  }

  lemma MergeTwo(v: seq<bool>, f: seq<bool>, a1: seq<bool>, a0: seq<bool>, r: seq<bool>)
    requires IsFlags(2, f) && IsGroup(v, 18, 1, a1) && IsGroup(v, 25, 0, a0) && |r| == 32
    requires forall i :: 0 <= i < 32 ==> r[i] == (f[i] || a1[i] || a0[i])
    ensures CodeWord(v, 2, r)
  {
  }

  lemma MergeThree(v: seq<bool>, f: seq<bool>, a2: seq<bool>, a1: seq<bool>, a0: seq<bool>, r: seq<bool>)
    requires IsFlags(3, f) && IsGroup(v, 11, 2, a2) && IsGroup(v, 18, 1, a1) && IsGroup(v, 25, 0, a0) && |r| == 32
    requires forall i :: 0 <= i < 32 ==> r[i] == (f[i] || a2[i] || a1[i] || a0[i])
    ensures CodeWord(v, 3, r)
  {
  }

  lemma MergeFour(v: seq<bool>, f: seq<bool>, a3: seq<bool>, a2: seq<bool>, a1: seq<bool>, a0: seq<bool>, r: seq<bool>)
    requires IsFlags(4, f) && IsGroup(v, 4, 3, a3) && IsGroup(v, 11, 2, a2) && IsGroup(v, 18, 1, a1)
      && IsGroup(v, 25, 0, a0)
    requires |r| == 32 && forall i :: 0 <= i < 32 ==> r[i] == (f[i] || a3[i] || a2[i] || a1[i] || a0[i])
    ensures CodeWord(v, 4, r)
  {
  }

  lemma CompressTwo(value: nat)
    requires IntegerBytes(value) == 2
    ensures CodeWord(ToBits(value, 32), 2, ToBits(Compress(value), 32))
  {
    WordMasks();
    var a0, a1, f := And(value, 0x7F, 32), Shl(And(value, 0x3F80, 32), 1), 0x8000;
    assert Compress(value) == Or(Or(a1, f, 32), a0, 32);
    hide *;
    GroupBits(value, 25, 0, 0x7F, a0);
    GroupBits(value, 18, 1, 0x3F80, a1);
    FlagBits(2, f);
    OrBits(a1, f, 32);
    OrBits(Or(a1, f, 32), a0, 32);
    MergeTwo(ToBits(value, 32), ToBits(f, 32), ToBits(a1, 32), ToBits(a0, 32), ToBits(Compress(value), 32));
  }

  lemma CompressThree(value: nat)
    requires IntegerBytes(value) == 3
    ensures CodeWord(ToBits(value, 32), 3, ToBits(Compress(value), 32))
  {
    WordMasks();
    var a0, a1, a2, f := And(value, 0x7F, 32), Shl(And(value, 0x3F80, 32), 1), Shl(And(value, 0x1FC000, 32), 2),
      0x808000;
    assert Compress(value) == Or(Or(Or(a2, f, 32), a1, 32), a0, 32);
    hide *;
    GroupBits(value, 25, 0, 0x7F, a0);
    GroupBits(value, 18, 1, 0x3F80, a1);
    GroupBits(value, 11, 2, 0x1FC000, a2);
    FlagBits(3, f);
    OrBits(a2, f, 32);
    OrBits(Or(a2, f, 32), a1, 32);
    OrBits(Or(Or(a2, f, 32), a1, 32), a0, 32);
    MergeThree(ToBits(value, 32), ToBits(f, 32), ToBits(a2, 32), ToBits(a1, 32), ToBits(a0, 32),
      ToBits(Compress(value), 32));
  }

  lemma CompressFour(value: nat)
    requires IntegerBytes(value) == 4
    ensures CodeWord(ToBits(value, 32), 4, ToBits(Compress(value), 32))
  {
    WordMasks();
    var a0, a1, a2, a3, f := And(value, 0x7F, 32), Shl(And(value, 0x3F80, 32), 1), Shl(And(value, 0x1FC000, 32), 2),
      Shl(And(value, 0xFE00000, 32), 3), 0x80808000;
    assert Compress(value) == Or(Or(Or(Or(a3, f, 32), a2, 32), a1, 32), a0, 32);
    hide *;
    GroupBits(value, 25, 0, 0x7F, a0);
    GroupBits(value, 18, 1, 0x3F80, a1);
    GroupBits(value, 11, 2, 0x1FC000, a2);
    GroupBits(value, 4, 3, 0xFE00000, a3);
    FlagBits(4, f);
    OrBits(a3, f, 32);
    OrBits(Or(a3, f, 32), a2, 32);
    OrBits(Or(Or(a3, f, 32), a2, 32), a1, 32);
    OrBits(Or(Or(Or(a3, f, 32), a2, 32), a1, 32), a0, 32);
    MergeFour(ToBits(value, 32), ToBits(f, 32), ToBits(a3, 32), ToBits(a2, 32), ToBits(a1, 32), ToBits(a0, 32),
      ToBits(Compress(value), 32));
  }

  /** Eight bits of a value from bit `a` on, as a number. */
  lemma Group(value: nat, k: nat, g: nat)
    requires k <= 3 && g == Shr(value, 7 * k) % 128
    ensures ToBits(g, 7) == ToBits(value, 32)[25 - 7 * k..32 - 7 * k]
  {
    ToBitsSlice(value, 32, 25 - 7 * k, 32 - 7 * k);
    Low7(Shr(value, 7 * k));
  }

  lemma Low7(x: nat)
    ensures ToBits(x % 128, 7) == ToBits(x, 7)
  {
    ToBitsHigh(x % 128, x / 128, 7);
    Shl7(x / 128);
  }

  lemma Shl7(k: nat)
    ensures Shl(k, 7) == 128 * k
  {
    Shl8(k);
    assert Shl(k, 8) == 2 * Shl(k, 7);
  }

  lemma Shr7(x: nat)
    ensures Shr(x, 7) == x / 128
  {
    ShrAdd(x, 4, 3);
    Shr4(x);
    assert Shr(x / 16, 3) == Shr(x / 16 / 2, 2);
    Shr2(x / 16 / 2);
  }

  lemma Groups(value: nat)
    ensures Shr(value, 7) == value / 128 && Shr(value, 14) == value / 16384 && Shr(value, 21) == value / 2097152
  {
    ShrAdd(value, 7, 7);
    ShrAdd(value, 14, 7);
    Shr7(value);
    Shr7(value / 128);
    Shr7(value / 16384);
  }

  /** A byte is its top bit and seven more. */
  lemma SplitByte(top: bool, g: nat)
    requires g < 128
    ensures ToBits((if top then 128 else 0) + g, 8) == [top] + ToBits(g, 7)
  {
    hide ToBits;
    var b := (if top then 128 else 0) + g;
    OneByte();
    ToBitsSplit(b, 1, 7);
    Shr7(b);
    Low7(b);
  }

  lemma BitsOfCons(b: byte, rest: seq<byte>)
    ensures BitsOf([b] + rest) == ToBits(b, 8) + BitsOf(rest)
  {
    hide ToBits;
    var l, r := BitsOf([b] + rest), ToBits(b, 8) + BitsOf(rest);
    forall p | 0 <= p < |l|
      ensures l[p] == r[p]
    {
      BitsOfAt([b] + rest, p / 8, p % 8);
      if p >= 8 {
        BitsOfAt(rest, p / 8 - 1, p % 8);
      }
    }
  }

  /** A number whose high bits are zero is determined by, and bounded by, its low bits. */
  lemma LowBits(c: nat, n: nat)
    requires n <= 32 && c < Pow2(32) && forall i :: 0 <= i < 32 - n ==> !ToBits(c, 32)[i]
    ensures ToBits(c, n) == ToBits(c, 32)[32 - n..] && c < Pow2(n)
  {
    var s := ToBits(c, 32);
    ValToBits(c, 32);
    ToBitsSlice(c, 32, 32 - n, 32);
    assert Shr(c, 0) == c;
    hide ToBits, Val, Pow2, Shr;
    assert s == s[..32 - n] + s[32 - n..] && s[32 - n..32] == s[32 - n..];
    ValConcat(s[..32 - n], s[32 - n..]);
    ValZeros(s[..32 - n]);
    ShlZero(n);
    ToBitsVal(s[32 - n..]);
  }

  lemma CompressFits(value: nat)
    requires value < 0x1000_0000 && IntegerBytes(value) >= 2
    ensures CodeWord(ToBits(value, 32), IntegerBytes(value), ToBits(Compress(value), 32)) && Compress(value) < Pow2(32)
  {
    if IntegerBytes(value) == 2 {
      CompressTwo(value);
    } else if IntegerBytes(value) == 3 {
      CompressThree(value);
    } else {
      CompressFour(value);
    }
  }

  /** The payload groups of a word with their flags, most significant first. */
  ghost function Flagged(v: seq<bool>, n: nat): seq<bool>
    requires |v| == 32
  {
    (if n >= 4 then [true] + v[4..11] else []) + (if n >= 3 then [true] + v[11..18] else [])
    + (if n >= 2 then [true] + v[18..25] else []) + ([false] + v[25..32])
  }

  lemma CodeWordFlagged(v: seq<bool>, n: nat, r: seq<bool>)
    requires CodeWord(v, n, r) && 2 <= n
    ensures r[32 - 8 * n..] == Flagged(v, n)
  {
    assert r[24..32] == [false] + v[25..32];
    assert r[16..24] == [true] + v[18..25];
    if n >= 3 {
      assert r[8..16] == [true] + v[11..18];
    }
    if n >= 4 {
      assert r[0..8] == [true] + v[4..11];
    }
  }

  lemma TwoBytes(value: nat)
    ensures BitsOf([128 + value / 128 % 128, value % 128]) == Flagged(ToBits(value, 32), 2)
  {
    var g0, g1 := value % 128, value / 128 % 128;
    assert Shr(value, 0) == value && BitsOf([]) == [];
    Groups(value);
    hide ToBits, BitsOf, Shr;
    Tail(value, 0, g0, false, []);
    Tail(value, 1, g1, true, [g0]);
    assert [128 + g1] + [g0] == [128 + g1, g0] && [g0] + [] == [g0];
  }

  lemma ThreeBytes(value: nat)
    ensures BitsOf([128 + value / 16384 % 128, 128 + value / 128 % 128, value % 128]) == Flagged(ToBits(value, 32), 3)
  {
    hide ToBits, BitsOf, Shr;
    Groups(value);
    TwoBytes(value);
    var g0, g1, g2 := value % 128, value / 128 % 128, value / 16384 % 128;
    Tail(value, 2, g2, true, [128 + g1, g0]);
    assert [128 + g2] + [128 + g1, g0] == [128 + g2, 128 + g1, g0];
  }

  lemma FourBytes(value: nat)
    ensures BitsOf([128 + value / 2097152 % 128, 128 + value / 16384 % 128, 128 + value / 128 % 128, value % 128])
            == Flagged(ToBits(value, 32), 4)
  {
    hide ToBits, BitsOf, Shr;
    Groups(value);
    ThreeBytes(value);
    var g0, g1, g2, g3 := value % 128, value / 128 % 128, value / 16384 % 128, value / 2097152 % 128;
    Tail(value, 3, g3, true, [128 + g2, 128 + g1, g0]);
    assert [128 + g3] + [128 + g2, 128 + g1, g0] == [128 + g3, 128 + g2, 128 + g1, g0];
  }

  lemma BytesFlagged(value: nat)
    requires IntegerBytes(value) >= 2
    ensures BitsOf(Bytes(value)) == Flagged(ToBits(value, 32), IntegerBytes(value))
  {
    hide ToBits, BitsOf, Flagged;
    TwoBytes(value);
    ThreeBytes(value);
    FourBytes(value);
  }

  lemma Tail(value: nat, k: nat, g: nat, top: bool, rest: seq<byte>)
    requires k <= 3 && g == Shr(value, 7 * k) % 128
    ensures BitsOf([(if top then 128 else 0) + g] + rest)
      == [top] + ToBits(value, 32)[25 - 7 * k..32 - 7 * k] + BitsOf(rest)
  {
    hide *;
    Group(value, k, g);
    SplitByte(top, g);
    BitsOfCons((if top then 128 else 0) + g, rest);
  }

  /** The code word is exactly the intended bytes. */
  lemma CompressIsBytes(value: nat)
    requires value < 0x1000_0000
    ensures ToBits(Compress(value), 8 * IntegerBytes(value)) == BitsOf(Bytes(value))
    ensures Compress(value) < Pow2(8 * IntegerBytes(value))
  {
    var n := IntegerBytes(value);
    if n == 1 {
      assert BitsOf([]) == [] && [value] + [] == [value];
      BitsOfCons(value, []);
      assert Pow2(8) == 256;
    } else {
      hide *;
      CompressFits(value);
      LowCode(ToBits(value, 32), n, Compress(value));
      BytesFlagged(value);
    }
  }

  lemma LowCode(v: seq<bool>, n: nat, c: nat)
    requires 2 <= n <= 4 && c < Pow2(32) && CodeWord(v, n, ToBits(c, 32))
    ensures ToBits(c, 8 * n) == Flagged(v, n) && c < Pow2(8 * n)
  {
    LowBits(c, 8 * n);
    CodeWordFlagged(v, n, ToBits(c, 32));
  }
}
