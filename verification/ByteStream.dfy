/** Streams of byte codes in a buffer: writing at byte boundaries, decoding, and what decoding gives back. */
module ByteStream {
  import opened Bits
  import opened BitSet
  import opened Vbyte

  lemma SpliceAligned(bytes: seq<byte>, p: nat, t: seq<byte>)
    requires p + |t| <= |bytes|
    ensures BitsOf(Splice(bytes, p, t)) == Splice(BitsOf(bytes), 8 * p, BitsOf(t))
  {
    hide *;
    var b := Splice(bytes, p, t);
    var l, r := BitsOf(b), Splice(BitsOf(bytes), 8 * p, BitsOf(t));
    forall q | 0 <= q < 8 * |bytes|
      ensures l[q] == r[q]
    {
      BitsOfAt(b, q / 8, q % 8);
      BitsOfAt(bytes, q / 8, q % 8);
      SpliceAt(bytes, p, t, q / 8);
      SpliceAt(BitsOf(bytes), 8 * p, BitsOf(t), q);
      if p <= q / 8 < p + |t| {
        BitsOfAt(t, q / 8 - p, q % 8);
      }
    }
  }

  lemma BitsOfInjective(a: seq<byte>, b: seq<byte>)
    requires BitsOf(a) == BitsOf(b)
    ensures a == b
  {
    hide BitsOf, ToBits, Val;
    assert |a| == |b|;
    forall i | 0 <= i < |a|
      ensures a[i] == b[i]
    {
      ByteSlice(a, i, 0, 8);
      ByteSlice(b, i, 0, 8);
      assert ToBits(a[i], 8)[0..8] == ToBits(a[i], 8) && ToBits(b[i], 8)[0..8] == ToBits(b[i], 8);
      ByteValue(a[i]);
      ByteValue(b[i]);
    }
  }

  /** The codes of a list, one after the other. */
  function Codes(list: seq<nat>): seq<byte> {
    if list == [] then [] else Codes(list[..|list| - 1]) + Bytes(list[|list| - 1])
  }

  /** The bits a list of codes takes. */
  function ByteCost(list: seq<nat>): (r: nat) {
    if list == [] then 0 else ByteCost(list[..|list| - 1]) + 8 * IntegerBytes(list[|list| - 1])
  }

  lemma {:induction false} CodesLength(list: seq<nat>)
    ensures 8 * |Codes(list)| == ByteCost(list)
  {
    if list != [] {
      CodesLength(list[..|list| - 1]);
    }
  }

  lemma {:induction false} CodesAppend(a: seq<nat>, b: seq<nat>)
    ensures Codes(a + b) == Codes(a) + Codes(b)
    ensures ByteCost(a + b) == ByteCost(a) + ByteCost(b)
  {
    hide Bytes, IntegerBytes;
    if b == [] {
      assert a + b == a;
    } else {
      var n := |b| - 1;
      CodesAppend(a, b[..n]);
      assert (a + b)[..|a + b| - 1] == a + b[..n];
      assert Codes(a) + (Codes(b[..n]) + Bytes(b[n])) == (Codes(a) + Codes(b[..n])) + Bytes(b[n]);
    }
  }

  /** Writes one code at a byte boundary. */
  method PutCode(encode: BitSetSIMD, p: nat, value: nat)
    requires value < 0x1000_0000 && p + IntegerBytes(value) <= encode.data.Length <= 256
    modifies encode.data
    ensures encode.data[..] == Splice(old(encode.data[..]), p, Bytes(value))
  {
    hide ToBits, Pow2, Compress, Bytes, Splice;
    ghost var before := encode.data[..];
    CompressIsBytes(value);
    encode.BlockSet(8 * p, 8 * IntegerBytes(value), Compress(value));
    SpliceAligned(before, p, Bytes(value));
    BitsOfInjective(encode.data[..], Splice(before, p, Bytes(value)));
  }

  /** A word shifted left by seven with seven bits or-ed in, truncated to 32 bits. */
  function Push7(acc: nat, b: byte): (r: nat)
    ensures r < 0x1_0000_0000
  {
    (acc * 128 + b % 128) % 0x1_0000_0000
  }

  /** One decoded value and the index behind it. The last byte of the buffer ends a value. */
  function DecodeFrom(bytes: seq<byte>, p: nat, acc: nat): (r: (nat, nat))
    requires p < |bytes| && bytes[|bytes| - 1] < 128
    ensures p < r.1 <= |bytes|
    decreases |bytes| - p
  {
    if bytes[p] < 128 then (Push7(acc, bytes[p]), p + 1) else DecodeFrom(bytes, p + 1, Push7(acc, bytes[p]))
  }

  /** All values from index `p` to the end of the buffer. */
  function Values(bytes: seq<byte>, p: nat): (r: seq<nat>)
    requires p <= |bytes| && (p < |bytes| ==> bytes[|bytes| - 1] < 128)
    decreases |bytes| - p
  {
    if p == |bytes| then []
    else
      var (v, q) := DecodeFrom(bytes, p, 0);
      [v] + Values(bytes, q)
  }

  method Decode(encode: BitSetSIMD, p: nat) returns (value: nat, next: nat)
    requires p < encode.data.Length && encode.data[encode.data.Length - 1] < 128
    ensures (value, next) == DecodeFrom(encode.data[..], p, 0) && p < next <= encode.data.Length
  {
    value, next := 0, p;
    ghost var bytes := encode.data[..];
    while true
      invariant p <= next < encode.data.Length
      invariant DecodeFrom(bytes, p, 0) == DecodeFrom(bytes, next, value)
      decreases encode.data.Length - next
    {
      var b := encode.data[next];
      value := Push7(value, b);
      next := next + 1;
      if b < 128 {
        break;
      }
    }
  }

  /** Pushing a group undoes splitting it off, with or without its flag. */
  lemma PushBack(w: nat, b: byte)
    requires w < 0x1_0000_0000 && b % 128 == w % 128
    ensures Push7(w / 128, b) == w
  {
  }

  /** A stored code decodes to its value and ends where it was written. */
  lemma DecodeCode(bytes: seq<byte>, p: nat, value: nat)
    requires value < 0x1000_0000 && p + IntegerBytes(value) <= |bytes| && bytes[|bytes| - 1] < 128
    requires bytes[p..p + IntegerBytes(value)] == Bytes(value)
    ensures DecodeFrom(bytes, p, 0) == (value, p + IntegerBytes(value))
  {
    var n, c := IntegerBytes(value), Bytes(value);
    assert forall i :: 0 <= i < n ==> bytes[p + i] == c[i];
    hide DecodeFrom, Push7;
    DecodeSteps(bytes, p, n, value);
  }

  /** A byte string of at most four bytes that decodes to `value` as a whole. */
  ghost predicate IsCodeOf(bytes: seq<byte>, value: nat) {
    1 <= |bytes| <= 4 && bytes[|bytes| - 1] < 128 && DecodeFrom(bytes, 0, 0) == (value, |bytes|)
  }

  lemma {:induction false} DecodedSmall(bytes: seq<byte>, p: nat, acc: nat, n: nat)
    requires p < |bytes| && bytes[|bytes| - 1] < 128 && 1 <= n <= 4 && acc < Capacity(4 - n)
    requires DecodeFrom(bytes, p, acc).1 == p + n
    ensures DecodeFrom(bytes, p, acc).0 < 0x1000_0000
    decreases n
  {
    if bytes[p] >= 128 {
      DecodedSmall(bytes, p + 1, Push7(acc, bytes[p]), n - 1);
    }
  }

  /** A value has a code of at most four bytes, the most an encoder ever reserves, exactly when it is below 2^28. */
  lemma CodableIff(value: nat)
    ensures value < 0x1000_0000 <==> exists bytes :: IsCodeOf(bytes, value)
  {
    if value < 0x1000_0000 {
      var c := Bytes(value);
      assert c[0..|c|] == c;
      DecodeCode(c, 0, value);
      assert IsCodeOf(c, value);
    }
    if bytes :| IsCodeOf(bytes, value) {
      DecodedSmall(bytes, 0, 0, |bytes|);
    }
  }

  lemma DecodeSteps(bytes: seq<byte>, p: nat, n: nat, w: nat)
    requires 1 <= n <= 4 && p + n <= |bytes| && bytes[|bytes| - 1] < 128 && w < 0x1000_0000
    requires bytes[p + n - 1] == w % 128
    requires n >= 2 ==> bytes[p + n - 2] == 128 + w / 128 % 128
    requires n >= 3 ==> bytes[p + n - 3] == 128 + w / 16384 % 128
    requires n >= 4 ==> bytes[p + n - 4] == 128 + w / 2097152 % 128
    requires if n == 1 then w < 128 else if n == 2 then w < 16384 else if n == 3 then w < 2097152 else true
    ensures DecodeFrom(bytes, p, 0) == (w, p + n)
  {
    hide DecodeFrom, Push7;
    DecodeLast(bytes, p + n - 1, w);
    if n >= 2 {
      DecodeMore(bytes, p + n - 2, w / 128);
    }
    if n >= 3 {
      assert w / 128 / 128 == w / 16384;
      DecodeMore(bytes, p + n - 3, w / 16384);
    }
    if n >= 4 {
      assert w / 16384 / 128 == w / 2097152;
      DecodeMore(bytes, p + n - 4, w / 2097152);
    }
  }

  /** A flagged byte moves on with its group pushed; an unflagged one ends the value. */
  lemma DecodeMore(bytes: seq<byte>, p: nat, w: nat)
    requires p < |bytes| && bytes[|bytes| - 1] < 128 && bytes[p] >= 128 && w < 0x1_0000_0000
      && bytes[p] % 128 == w % 128
    ensures p + 1 < |bytes| && DecodeFrom(bytes, p, w / 128) == DecodeFrom(bytes, p + 1, w)
  {
    PushBack(w, bytes[p]);
    hide Push7;
  }

  lemma DecodeLast(bytes: seq<byte>, p: nat, w: nat)
    requires p < |bytes| && bytes[|bytes| - 1] < 128 && bytes[p] < 128 && w < 0x1_0000_0000 && bytes[p] == w % 128
    ensures DecodeFrom(bytes, p, w / 128) == (w, p + 1)
  {
    PushBack(w, bytes[p]);
    hide Push7;
  }

  /** Blank bytes, or the zeros they decode to. */
  function ZeroFill(n: nat): (r: seq<byte>)
    ensures |r| == n
  {
    seq(n, _ => 0)
  }

  /** A zero byte is the value zero. */
  lemma {:induction false} ValuesPadding(bytes: seq<byte>, p: nat)
    requires p <= |bytes| && forall i :: p <= i < |bytes| ==> bytes[i] == 0
    ensures p < |bytes| ==> bytes[|bytes| - 1] < 128
    ensures Values(bytes, p) == ZeroFill(|bytes| - p)
    decreases |bytes| - p
  {
    hide DecodeFrom;
    if p < |bytes| {
      ValuesPadding(bytes, p + 1);
      DecodeLast(bytes, p, 0);
      assert ZeroFill(|bytes| - p) == [0] + ZeroFill(|bytes| - p - 1);
    }
  }

  /** A buffer of a prefix, the codes of a list and zeros decodes to the list and zeros. */
  lemma {:induction false} ValuesOfCodes(bytes: seq<byte>, p: nat, list: seq<nat>)
    requires (forall i :: 0 <= i < |list| ==> list[i] < 0x1000_0000) && p + |Codes(list)| <= |bytes|
    requires bytes[p..p + |Codes(list)|] == Codes(list)
    requires forall i :: p + |Codes(list)| <= i < |bytes| ==> bytes[i] == 0
    ensures p < |bytes| ==> bytes[|bytes| - 1] < 128
    ensures Values(bytes, p) == list + ZeroFill(|bytes| - p - |Codes(list)|)
    decreases |list|
  {
    hide Values, Bytes, IntegerBytes, DecodeFrom;
    if list == [] {
      ValuesPadding(bytes, p);
    } else {
      var x, rest := list[0], list[1..];
      CodesFirst(list);
      var q := p + |Bytes(x)|;
      SliceParts(bytes, p, Bytes(x), Codes(rest));
      ValuesOfCodes(bytes, q, rest);
      LastSmall(x, bytes, p);
      ValuesFirst(bytes, p, x);
      assert list == [x] + rest;
    }
  }

  lemma SliceParts(bytes: seq<byte>, p: nat, a: seq<byte>, b: seq<byte>)
    requires p + |a + b| <= |bytes| && bytes[p..p + |a + b|] == a + b
    ensures bytes[p..p + |a|] == a && bytes[p + |a|..p + |a| + |b|] == b
  {
    assert bytes[p..p + |a|] == (a + b)[..|a|];
    assert bytes[p + |a|..p + |a| + |b|] == (a + b)[|a|..];
  }

  lemma CodesFirst(list: seq<nat>)
    requires list != []
    ensures Codes(list) == Bytes(list[0]) + Codes(list[1..])
  {
    hide Bytes, IntegerBytes;
    var x := list[0];
    assert list == [x] + list[1..] && [x][..0] == [];
    CodesAppend([x], list[1..]);
    assert Codes([x]) == [] + Bytes(x);
  }

  lemma ValuesFirst(bytes: seq<byte>, p: nat, x: nat)
    requires x < 0x1000_0000 && p + |Bytes(x)| <= |bytes| && bytes[|bytes| - 1] < 128
      && bytes[p..p + |Bytes(x)|] == Bytes(x)
    ensures Values(bytes, p) == [x] + Values(bytes, p + |Bytes(x)|)
  {
    DecodeCode(bytes, p, x);
    hide DecodeFrom, Bytes;
  }

  lemma LastSmall(x: nat, bytes: seq<byte>, p: nat)
    requires p + |Bytes(x)| <= |bytes| && bytes[p..p + |Bytes(x)|] == Bytes(x)
    ensures p + |Bytes(x)| == |bytes| ==> bytes[|bytes| - 1] < 128
  {
    var b := Bytes(x);
    assert b[|b| - 1] < 128 && b[|b| - 1] == bytes[p + |b| - 1];
  }
}
