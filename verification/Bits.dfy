/** Binary numerals: the meaning of fields, masks and shifts on fixed-width machine words. */
module Bits {

  /** A byte of an encode buffer. */
  type byte = x: nat | x < 256

  function Pow2(n: nat): (p: nat)
    ensures p >= 1
  {
    if n == 0 then 1 else 2 * Pow2(n - 1)
  }

  /** `v >> m` on an unsigned word. */
  function Shr(v: nat, m: nat): (r: nat)
    ensures r <= v
  {
    if m == 0 then v else Shr(v / 2, m - 1)
  }

  /** `v << m` before any truncation. */
  function Shl(v: nat, m: nat): nat {
    if m == 0 then v else 2 * Shl(v, m - 1)
  }

  /** The low `n` bits of `v`, most significant bit first. */
  function ToBits(v: nat, n: nat): (s: seq<bool>)
    ensures |s| == n
  {
    if n == 0 then [] else ToBits(v / 2, n - 1) + [v % 2 == 1]
  }

  /** The number a bit string denotes, most significant bit first. */
  function Val(s: seq<bool>): nat {
    if s == [] then 0 else 2 * Val(s[..|s| - 1]) + (if s[|s| - 1] then 1 else 0)
  }

  lemma {:induction false} Pow2Mono(a: nat, b: nat)
    requires a <= b
    ensures Pow2(a) <= Pow2(b)
  {
    if a < b {
      Pow2Mono(a, b - 1);
    }
  }

  lemma Pow2Word()
    ensures Pow2(8) == 0x100 && Pow2(28) == 0x1000_0000 && Pow2(32) == 0x1_0000_0000
  {
    assert Pow2(8) == 0x100;
    assert Pow2(12) == 16 * Pow2(8);
    assert Pow2(16) == 16 * Pow2(12);
    assert Pow2(20) == 16 * Pow2(16);
    assert Pow2(24) == 16 * Pow2(20);
    assert Pow2(28) == 16 * Pow2(24);
  }

  /** Reading back a numeral gives the number when it fits. */
  lemma {:induction false} ValToBits(v: nat, n: nat)
    requires v < Pow2(n)
    ensures Val(ToBits(v, n)) == v
  {
    if n > 0 {
      ValToBits(v / 2, n - 1);
      assert ToBits(v, n)[..n - 1] == ToBits(v / 2, n - 1);
    }
  }

  /** Every bit string is the numeral of its own value. */
  lemma {:induction false} ToBitsVal(s: seq<bool>)
    ensures Val(s) < Pow2(|s|)
    ensures ToBits(Val(s), |s|) == s
  {
    if s != [] {
      ToBitsVal(s[..|s| - 1]);
    }
  }

  lemma {:induction false} ValConcat(a: seq<bool>, b: seq<bool>)
    ensures Val(a + b) == Shl(Val(a), |b|) + Val(b)
  {
    if b == [] {
      assert a + b == a;
    } else {
      var c := b[..|b| - 1];
      ValConcat(a, c);
      assert (a + b)[..|a + b| - 1] == a + c && (a + b)[|a + b| - 1] == b[|b| - 1];
    }
  }

  /** A numeral splits into the numeral of its high part and that of its low part. */
  lemma {:induction false} ToBitsSplit(v: nat, n: nat, m: nat)
    ensures ToBits(v, n + m) == ToBits(Shr(v, m), n) + ToBits(v, m)
  {
    if m == 0 {
      assert ToBits(v, 0) == [];
    } else {
      ToBitsSplit(v / 2, n, m - 1);
      var h, l := ToBits(Shr(v, m), n), ToBits(v / 2, m - 1);
      assert (h + l) + [v % 2 == 1] == h + (l + [v % 2 == 1]);
    }
  }

  lemma SliceMiddle<T>(x: seq<T>, y: seq<T>, z: seq<T>)
    ensures ((x + y) + z)[|x|..|x| + |y|] == y
  {
  }

  /** A slice of a numeral is itself the numeral of a shifted number. */
  lemma ToBitsSlice(v: nat, n: nat, a: nat, b: nat)
    requires a <= b <= n
    ensures ToBits(v, n)[a..b] == ToBits(Shr(v, n - b), b - a)
  {
    var w := Shr(v, n - b);
    ToBitsSplit(v, b, n - b);
    ToBitsSplit(w, a, b - a);
    SliceMiddle(ToBits(Shr(w, b - a), a), ToBits(w, b - a), ToBits(v, n - b));
  }

  lemma {:induction false} ToBitsZero(n: nat)
    ensures forall i :: 0 <= i < n ==> !ToBits(0, n)[i]
  {
    if n > 0 {
      ToBitsZero(n - 1);
    }
  }

  lemma {:induction false} ValZeros(s: seq<bool>)
    requires forall i :: 0 <= i < |s| ==> !s[i]
    ensures Val(s) == 0
  {
    if s != [] {
      ValZeros(s[..|s| - 1]);
    }
  }

  lemma {:induction false} ShrAdd(v: nat, a: nat, b: nat)
    ensures Shr(Shr(v, a), b) == Shr(v, a + b)
  {
    if a > 0 {
      ShrAdd(v / 2, a - 1, b);
    }
  }

  lemma {:induction false} ShlAdd(v: nat, a: nat, b: nat)
    ensures Shl(Shl(v, a), b) == Shl(v, a + b)
  {
    if b > 0 {
      ShlAdd(v, a, b - 1);
    }
  }

  /** Shifting left appends zeros. */
  lemma {:induction false} ToBitsShl(v: nat, n: nat, m: nat)
    ensures ToBits(Shl(v, m), n + m) == ToBits(v, n) + ToBits(0, m)
  {
    if m == 0 {
      assert ToBits(0, 0) == [];
    } else {
      ToBitsShl(v, n, m - 1);
      assert ToBits(v, n) + (ToBits(0, m - 1) + [false]) == (ToBits(v, n) + ToBits(0, m - 1)) + [false];
    }
  }

  /** Shifting right drops low bits. */
  lemma {:induction false} ShrVal(s: seq<bool>, m: nat)
    requires m <= |s|
    ensures Shr(Val(s), m) == Val(s[..|s| - m])
  {
    if m == 0 {
      assert s[..|s|] == s;
    } else {
      ShrVal(s[..|s| - 1], m - 1);
      assert s[..|s| - 1][..|s| - m] == s[..|s| - m];
    }
  }

  /** Only the low `n` bits of a number matter for its `n`-bit numeral. */
  lemma {:induction false} ToBitsHigh(v: nat, k: nat, n: nat)
    ensures ToBits(v + Shl(k, n), n) == ToBits(v, n)
  {
    if n > 0 {
      ToBitsHigh(v / 2, k, n - 1);
      assert (v + 2 * Shl(k, n - 1)) / 2 == v / 2 + Shl(k, n - 1);
    }
  }

  lemma ToBitsByte(v: nat)
    ensures ToBits(v % 256, 8) == ToBits(v, 8)
  {
    Shl8(v / 256);
    ToBitsHigh(v % 256, v / 256, 8);
  }

  lemma Shl8(k: nat)
    ensures Shl(k, 8) == 256 * k
  {
    assert Shl(k, 3) == 8 * k by { assert Shl(k, 2) == 2 * Shl(k, 1); }
    assert Shl(k, 6) == 64 * k by { assert Shl(k, 5) == 2 * Shl(k, 4); }
    assert Shl(k, 8) == 2 * Shl(k, 7);
  }

  /** Numbers that add up to `2^n - 1` have complementary numerals. */
  lemma {:induction false} ToBitsComplement(u: nat, v: nat, n: nat)
    requires u + v == Pow2(n) - 1
    ensures forall i :: 0 <= i < n ==> ToBits(u, n)[i] == !ToBits(v, n)[i]
  {
    if n > 0 {
      assert u / 2 + v / 2 == Pow2(n - 1) - 1;
      ToBitsComplement(u / 2, v / 2, n - 1);
    }
  }

  /** A run of `n` ones starting `m` bits from the left of a `w`-bit word. */
  function Ones(m: nat, n: nat, w: nat): (r: nat)
    requires m + n <= w
    ensures r < Pow2(w)
  {
    ShlBound(Pow2(n) - 1, n, w - m - n);
    Pow2Mono(w - m, w);
    Shl(Pow2(n) - 1, w - m - n)
  }

  lemma {:induction false} ShrBound(v: nat, n: nat, k: nat)
    requires v < Pow2(n) && k <= n
    ensures Shr(v, k) < Pow2(n - k)
  {
    if k > 0 {
      ShrBound(v / 2, n - 1, k - 1);
    }
  }

  lemma {:induction false} ShlBound(v: nat, n: nat, k: nat)
    requires v < Pow2(n)
    ensures Shl(v, k) < Pow2(n + k)
  {
    if k > 0 {
      ShlBound(v, n, k - 1);
    }
  }

  lemma OnesBits(m: nat, n: nat, w: nat)
    requires m + n <= w
    ensures forall i :: 0 <= i < w ==> ToBits(Ones(m, n, w), w)[i] == (m <= i < m + n)
  {
    ToBitsShl(Pow2(n) - 1, m + n, w - m - n);
    ToBitsSplit(Pow2(n) - 1, m, n);
    ShrSmall(Pow2(n) - 1, n);
    ToBitsComplement(Pow2(n) - 1, 0, n);
    ToBitsZero(n);
    ToBitsZero(m);
    ToBitsZero(w - m - n);
    hide Shl, Shr, ToBits, Pow2;
    assert ToBits(Ones(m, n, w), w) == (ToBits(0, m) + ToBits(Pow2(n) - 1, n)) + ToBits(0, w - m - n);
  }

  lemma {:induction false} ShrSmall(v: nat, n: nat)
    requires v < Pow2(n)
    ensures Shr(v, n) == 0
  {
    if n > 0 {
      ShrSmall(v / 2, n - 1);
    }
  }

  /** Bitwise conjunction and disjunction of two `w`-bit words. */
  function And(x: nat, y: nat, w: nat): (r: nat)
    ensures r < Pow2(w)
  {
    var s := seq(w, i requires 0 <= i < w => ToBits(x, w)[i] && ToBits(y, w)[i]);
    ToBitsVal(s);
    Val(s)
  }

  function Or(x: nat, y: nat, w: nat): (r: nat)
    ensures r < Pow2(w)
  {
    var s := seq(w, i requires 0 <= i < w => ToBits(x, w)[i] || ToBits(y, w)[i]);
    ToBitsVal(s);
    Val(s)
  }

  lemma AndBits(x: nat, y: nat, w: nat)
    ensures forall i :: 0 <= i < w ==> ToBits(And(x, y, w), w)[i] == (ToBits(x, w)[i] && ToBits(y, w)[i])
  {
    ToBitsVal(seq(w, i requires 0 <= i < w => ToBits(x, w)[i] && ToBits(y, w)[i]));
  }

  lemma OrBits(x: nat, y: nat, w: nat)
    ensures forall i :: 0 <= i < w ==> ToBits(Or(x, y, w), w)[i] == (ToBits(x, w)[i] || ToBits(y, w)[i])
  {
    ToBitsVal(seq(w, i requires 0 <= i < w => ToBits(x, w)[i] || ToBits(y, w)[i]));
  }
}
