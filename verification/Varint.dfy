/** The variable-length integer codec: unsigned LEB128 (section 7.6 of DWARF Version 5) over words or their gaps. */
module Varint {
  import opened Common
  import opened Bits

  /** Unsigned LEB128: seven bits per byte, low group first, the top bit set on all but the last byte. */
  function Leb(v: nat): (r: seq<byte>)
    ensures |r| >= 1
  {
    if v < 128 then [v] else [128 + v % 128] + Leb(v / 128)
  }

  function LebAll(values: seq<nat>): seq<byte> {
    if values == [] then [] else LebAll(values[..|values| - 1]) + Leb(values[|values| - 1])
  }

  predicate Words(s: seq<nat>) {
    forall i :: 0 <= i < |s| ==> s[i] < WORD
  }

  /** What is stored: the entries, or their differences modulo 2^32. */
  function Stored(input: seq<nat>, delta: bool): (r: seq<nat>)
    requires Words(input)
    ensures |r| == |input| && Words(r)
  {
    seq(|input|, i requires 0 <= i < |input| => StoredAt(input, delta, i))
  }

  function StoredAt(input: seq<nat>, delta: bool, i: nat): (r: nat)
    requires Words(input) && i < |input|
    ensures r < WORD
  {
    if delta then Sub32(input[i], if i == 0 then 0 else input[i - 1]) else input[i]
  }

  function OneLength(v: nat): nat {
    if v < 0x80 then 1 else if v < 0x4000 then 2 else if v < 0x20_0000 then 3 else if v < 0x1000_0000 then 4 else 5
  }

  /** The bytes the encoder's branch for a value stores. */
  function OneCode(v: nat): seq<byte>
    requires v < WORD
  {
    if v < 0x80 then [v % 128]
    else if v < 0x4000 then [128 + v % 128, v / 128]
    else if v < 0x20_0000 then [128 + v % 128, 128 + v / 128 % 128, v / 16384]
    else if v < 0x1000_0000 then [128 + v % 128, 128 + v / 128 % 128, 128 + v / 16384 % 128, v / 0x20_0000]
    else [128 + v % 128, 128 + v / 128 % 128, 128 + v / 16384 % 128, 128 + v / 0x20_0000 % 128, v / 0x1000_0000]
  }

  /** Every branch of the encoder stores LEB128. */
  lemma OneCodeIsLeb(v: nat)
    requires v < WORD
    ensures OneCode(v) == Leb(v) && |Leb(v)| == OneLength(v)
  {
    hide Leb;
    var a, b, c, d := v / 128, v / 16384, v / 0x20_0000, v / 0x1000_0000;
    assert a / 128 == b && b / 128 == c && c / 128 == d;
    LebStep(v);
    if v >= 0x80 {
      LebStep(a);
    }
    if v >= 0x4000 {
      LebStep(b);
    }
    if v >= 0x20_0000 {
      LebStep(c);
    }
    if v >= 0x1000_0000 {
      LebStep(d);
    }
  }

  lemma LebStep(v: nat)
    ensures Leb(v) == if v < 128 then [v] else [128 + v % 128] + Leb(v / 128)
  {
  }

  lemma LebLast(values: seq<nat>, i: nat)
    requires i < |values|
    ensures LebAll(values[..i + 1]) == LebAll(values[..i]) + Leb(values[i])
  {
    assert values[..i + 1][..i] == values[..i];
  }

  lemma {:induction false} LebAppend(a: seq<nat>, b: seq<nat>)
    ensures LebAll(a + b) == LebAll(a) + LebAll(b)
  {
    hide Leb;
    if b == [] {
      assert a + b == a;
    } else {
      var n := |b| - 1;
      LebAppend(a, b[..n]);
      assert (a + b)[..|a + b| - 1] == a + b[..n];
      assert LebAll(a) + (LebAll(b[..n]) + Leb(b[n])) == (LebAll(a) + LebAll(b[..n])) + Leb(b[n]);
    }
  }

  method WriteOne(out: array<byte>, p: nat, v: nat) returns (next: nat)
    requires v < WORD && p + |Leb(v)| <= out.Length
    modifies out
    ensures next == p + |Leb(v)| && out[..next] == old(out[..p]) + Leb(v)
    ensures out[next..] == old(out[next..])
  {
    OneCodeIsLeb(v);
    ghost var before := out[..];
    if v < 0x80 {
      out[p] := v % 128;
      next := p + 1;
    } else if v < 0x4000 {
      out[p] := 128 + v % 128;
      out[p + 1] := v / 128;
      next := p + 2;
    } else if v < 0x20_0000 {
      out[p] := 128 + v % 128;
      out[p + 1] := 128 + v / 128 % 128;
      out[p + 2] := v / 16384;
      next := p + 3;
    } else if v < 0x1000_0000 {
      out[p] := 128 + v % 128;
      out[p + 1] := 128 + v / 128 % 128;
      out[p + 2] := 128 + v / 16384 % 128;
      out[p + 3] := v / 0x20_0000;
      next := p + 4;
    } else {
      out[p] := 128 + v % 128;
      out[p + 1] := 128 + v / 128 % 128;
      out[p + 2] := 128 + v / 16384 % 128;
      out[p + 3] := 128 + v / 0x20_0000 % 128;
      out[p + 4] := v / 0x1000_0000;
      next := p + 5;
    }
    hide Leb;
    assert out[p..next] == OneCode(v);
    assert out[..p] == before[..p];
    assert out[..next] == out[..p] + out[p..next];
  }

  /** One turn of the encoding loop: the word it stores, and that its code still has room. */
  lemma EncodeStep(input: seq<nat>, delta: bool, k: nat)
    requires Words(input) && k < |input|
    ensures var vals := Stored(input, delta);
      && LebAll(vals[..k + 1]) == LebAll(vals[..k]) + Leb(vals[k])
      && |LebAll(vals[..k + 1])| <= |LebAll(vals)|
      && vals[k] == if delta then Sub32(input[k], if k == 0 then 0 else input[k - 1]) else input[k]
  {
    hide Leb, Sub32;
    var vals := Stored(input, delta);
    LebLast(vals, k);
    LebAppend(vals[..k + 1], vals[k + 1..]);
    assert vals[..k + 1] + vals[k + 1..] == vals;
  }

  method EncodeArray(input: seq<nat>, delta: bool, out: array<byte>) returns (length: nat)
    requires Words(input) && |LebAll(Stored(input, delta))| <= out.Length
    modifies out
    ensures length == |LebAll(Stored(input, delta))| && out[..length] == LebAll(Stored(input, delta))
    ensures out[length..] == old(out[length..])
  {
    EmptyStream();
    hide LebAll, Leb, Stored, Sub32;
    ghost var vals, before := Stored(input, delta), out[..];
    length := 0;
    var prev := 0;
    assert vals[..0] == [];
    for k := 0 to |input|
      invariant delta ==> prev == if k == 0 then 0 else input[k - 1]
      invariant length <= out.Length && out[..length] == LebAll(vals[..k])
      invariant out[length..] == before[length..]
    {
      EncodeStep(input, delta, k);
      var val := if delta then Sub32(input[k], prev) else input[k];
      if delta {
        prev := input[k];
      }
      ghost var start, were := length, out[length..];
      length := WriteOne(out, length, val);
      assert out[length..] == were[length - start..];
    }
    assert vals[..|vals|] == vals;
  }

  /** The bytes of `w` stand at `p`. */
  ghost predicate CodeAt(bytes: seq<byte>, p: nat, w: nat) {
    w < WORD && p + |Leb(w)| <= |bytes| && bytes[p..p + |Leb(w)|] == Leb(w)
  }

  /** A seven-bit group moved to place `s`: `g << 7 * s`. */
  function Place(g: nat, s: nat): nat
    requires s <= 4
  {
    if s == 0 then g
    else if s == 1 then g * 128
    else if s == 2 then g * 16384
    else if s == 3 then g * 0x20_0000
    else g * 0x1000_0000
  }

  /** The low `s` groups of `w`, and the rest. */
  function Low(w: nat, s: nat): nat
    requires s <= 4
  {
    if s == 0 then 0
    else if s == 1 then w % 128
    else if s == 2 then w % 16384
    else if s == 3 then w % 0x20_0000
    else w % 0x1000_0000
  }

  function High(w: nat, s: nat): nat
    requires s <= 4
  {
    if s == 0 then w
    else if s == 1 then w / 128
    else if s == 2 then w / 16384
    else if s == 3 then w / 0x20_0000
    else w / 0x1000_0000
  }

  /** One more group: the accumulated value never exceeds 32 bits, and is `w` once nothing is left. */
  ghost predicate GroupAdds(w: nat, s: nat)
    requires s <= 4
  {
    var g := High(w, s) % 128;
    && Low(w, s) + Place(g, s) < WORD
    && (s < 4 ==> Low(w, s) + Place(g, s) == Low(w, s + 1) && High(w, s) / 128 == High(w, s + 1))
    && (High(w, s) < 128 ==> Low(w, s) + Place(g, s) == w)
    && (s == 4 ==> High(w, s) < 16)
  }

  lemma GroupAdds0(w: nat)
    requires w < WORD
    ensures GroupAdds(w, 0)
  {
  }

  lemma GroupAdds1(w: nat)
    requires w < WORD
    ensures GroupAdds(w, 1)
  {
    Split1(w);
  }

  lemma GroupAdds2(w: nat)
    requires w < WORD
    ensures GroupAdds(w, 2)
  {
    Split2(w);
  }

  lemma GroupAdds3(w: nat)
    requires w < WORD
    ensures GroupAdds(w, 3)
  {
    Split3(w);
  }

  lemma GroupAdds4(w: nat)
    requires w < WORD
    ensures GroupAdds(w, 4)
  {
    Split4(w);
  }

  lemma NextGroup(w: nat, s: nat)
    requires w < WORD && s <= 4
    ensures GroupAdds(w, s)
  {
    hide *;
    if s == 0 {
      GroupAdds0(w);
    } else if s == 1 {
      GroupAdds1(w);
    } else if s == 2 {
      GroupAdds2(w);
    } else if s == 3 {
      GroupAdds3(w);
    } else {
      GroupAdds4(w);
    }
  }

  lemma Split4(w: nat)
    requires w < WORD
    ensures w / 0x1000_0000 < 16 && w % 0x1000_0000 + w / 0x1000_0000 % 128 * 0x1000_0000 == w
  {
  }

  /** The state of a reader after `s` groups of the code at `p`. */
  ghost predicate Reading(bytes: seq<byte>, p: nat, w: nat, s: nat, v: nat, next: nat) {
    s <= 4 && w < WORD && v == Low(w, s) && CodeAt(bytes, next, High(w, s)) && next + |Leb(High(w, s))| == p + |Leb(w)|
  }

  lemma ReadStart(bytes: seq<byte>, p: nat, w: nat)
    requires CodeAt(bytes, p, w)
    ensures Reading(bytes, p, w, 0, 0, p)
  {
  }

  /** Reading one more byte either finishes the value or moves to the next group. */
  lemma ReadStep(bytes: seq<byte>, p: nat, w: nat, s: nat, v: nat, next: nat)
    requires Reading(bytes, p, w, s, v, next)
    ensures next < |bytes| && v + Place(bytes[next] % 128, s) < WORD
    ensures s == 4 ==> bytes[next] < 128 && bytes[next] % 16 == bytes[next] % 128
    ensures bytes[next] < 128 ==> v + Place(bytes[next] % 128, s) == w && next + 1 == p + |Leb(w)|
    ensures bytes[next] >= 128 ==> s < 4 && Reading(bytes, p, w, s + 1, v + Place(bytes[next] % 128, s), next + 1)
  {
    hide Leb, Low, High, Place;
    NextGroup(w, s);
    CodeTail(bytes, next, High(w, s));
  }

  /** Reads a value with at most five tests, without looking for the end of the buffer. */
  method ReadFast(bytes: seq<byte>, p: nat, ghost w: nat) returns (v: nat, next: nat)
    requires CodeAt(bytes, p, w)
    ensures v == w && next == p + |Leb(w)|
  {
    hide Leb, Reading, CodeAt, Place;
    ReadStart(bytes, p, w);
    ReadStep(bytes, p, w, 0, 0, p);
    var c: nat := bytes[p];
    v := 0 + Place(c % 128, 0);
    if c < 128 {
      return v, p + 1;
    }
    ReadStep(bytes, p, w, 1, v, p + 1);
    c := bytes[p + 1];
    v := v + Place(c % 128, 1);
    if c < 128 {
      return v, p + 2;
    }
    ReadStep(bytes, p, w, 2, v, p + 2);
    c := bytes[p + 2];
    v := v + Place(c % 128, 2);
    if c < 128 {
      return v, p + 3;
    }
    ReadStep(bytes, p, w, 3, v, p + 3);
    c := bytes[p + 3];
    v := v + Place(c % 128, 3);
    if c < 128 {
      return v, p + 4;
    }
    ReadStep(bytes, p, w, 4, v, p + 4);
    c := bytes[p + 4];
    v := v + Place(c % 16, 4);
    return v, p + 5;
  }

  lemma Split1(w: nat)
    ensures w % 128 + w / 128 % 128 * 128 == w % 16384 <= w && w / 128 / 128 == w / 16384
    ensures w / 128 < 128 ==> w % 16384 == w
  {
  }

  lemma Split2(w: nat)
    ensures w % 16384 + w / 16384 % 128 * 16384 == w % 0x20_0000 <= w && w / 16384 / 128 == w / 0x20_0000
    ensures w / 16384 < 128 ==> w % 0x20_0000 == w
  {
  }

  lemma Split3(w: nat)
    ensures w % 0x20_0000 + w / 0x20_0000 % 128 * 0x20_0000 == w % 0x1000_0000 <= w
      && w / 0x20_0000 / 128 == w / 0x1000_0000
    ensures w / 0x20_0000 < 128 ==> w % 0x1000_0000 == w
  {
  }

  /** The code of a number with more than one group continues with the code of the rest. */
  lemma CodeTail(bytes: seq<byte>, p: nat, w: nat)
    requires CodeAt(bytes, p, w)
    ensures bytes[p] % 128 == w % 128 && (bytes[p] < 128 <==> w < 128)
    ensures w >= 128 ==> CodeAt(bytes, p + 1, w / 128) && |Leb(w)| == 1 + |Leb(w / 128)|
    ensures w < 128 ==> |Leb(w)| == 1
  {
    var s := bytes[p..p + |Leb(w)|];
    assert s[0] == bytes[p];
    if w >= 128 {
      assert s[1..] == bytes[p + 1..p + |Leb(w)|];
      assert s[1..] == Leb(w / 128);
    }
  }

  /** Reads a value byte by byte, testing for the end each time. */
  method ReadSlow(bytes: seq<byte>, p: nat, ghost w: nat) returns (v: nat, next: nat)
    requires CodeAt(bytes, p, w)
    ensures v == w && next == p + |Leb(w)|
  {
    hide Leb, Reading, CodeAt, Place;
    ReadStart(bytes, p, w);
    v, next := 0, p;
    var shift := 0;
    while true
      invariant shift <= 4 && Reading(bytes, p, w, shift, v, next)
      decreases 4 - shift
    {
      ReadStep(bytes, p, w, shift, v, next);
      var c: nat := bytes[next];
      next := next + 1;
      v := (v + Place(c % 128, shift)) % WORD;
      if c < 128 {
        break;
      }
      shift := shift + 1;
    }
  }

  /** The values decoded so far: the stored words, or their running sums modulo 2^32. */
  function Restored(values: seq<nat>, delta: bool): (r: seq<nat>)
    ensures |r| == |values|
  {
    if values == [] then []
    else
      var n := |values| - 1;
      var front := Restored(values[..n], delta);
      front + [if delta then (values[n] + LastWord(front)) % WORD else values[n]]
  }

  function LastWord(s: seq<nat>): nat {
    if s == [] then 0 else s[|s| - 1]
  }

  /** Running sums undo differences. */
  lemma {:induction false} RestoredStored(input: seq<nat>, delta: bool)
    requires Words(input)
    ensures Restored(Stored(input, delta), delta) == input
  {
    if input != [] {
      var n := |input| - 1;
      var front := input[..n];
      RestoredStored(front, delta);
      assert Stored(input, delta)[..n] == Stored(front, delta);
      assert front != [] ==> LastWord(front) == input[n - 1];
    }
  }

  /** Where the `t`-th code of a stream starts, and that it stands there. */
  lemma StreamAt(values: seq<nat>, t: nat, bytes: seq<byte>)
    requires bytes == LebAll(values) && t < |values| && Words(values)
    ensures CodeAt(bytes, |LebAll(values[..t])|, values[t])
    ensures |LebAll(values[..t + 1])| == |LebAll(values[..t])| + |Leb(values[t])| <= |bytes|
  {
    hide Leb, LebAll, Words;
    assert values[t] < WORD by { WordAt(values, t); }
    LebLast(values, t);
    LebAppend(values[..t + 1], values[t + 1..]);
    assert values[..t + 1] + values[t + 1..] == values;
    var a, b, c := LebAll(values[..t]), Leb(values[t]), LebAll(values[t + 1..]);
    assert bytes == (a + b) + c;
    SliceMiddle(a, b, c);
  }

  lemma WordAt(s: seq<nat>, i: nat)
    requires Words(s) && i < |s|
    ensures s[i] < WORD
  {
  }

  lemma {:induction false} StreamEnds(values: seq<nat>, t: nat)
    requires t <= |values|
    ensures |LebAll(values[..t])| <= |LebAll(values)|
    ensures |LebAll(values[..t])| == |LebAll(values)| <==> t == |values|
  {
    LebAppend(values[..t], values[t..]);
    assert values[..t] + values[t..] == values;
    if t < |values| {
      LebAppend(values[t..t + 1], values[t + 1..]);
      assert values[t..] == values[t..t + 1] + values[t + 1..];
      assert values[t..t + 1] == [values[t]] && [values[t]][..0] == [];
      assert LebAll([values[t]]) == [] + Leb(values[t]);
    } else {
      assert values[t..] == [];
    }
  }

  /** Appends one decoded word to the output. */
  method Store(out: array<nat>, count: nat, delta: bool, v: nat, prev: nat) returns (next: nat)
    requires count < out.Length
    modifies out
    ensures next == if delta then (v + prev) % WORD else prev
    ensures out[..count + 1] == old(out[..count]) + [if delta then (v + prev) % WORD else v]
  {
    next := if delta then (v + prev) % WORD else prev;
    out[count] := if delta then next else v;
    assert out[..count + 1] == out[..count] + [out[count]];
  }

  /** Byte `p` has been reached, and the words up to it are done. */
  ghost predicate Decoding(bytes: seq<byte>, values: seq<nat>, delta: bool, p: nat, prev: nat, done: seq<nat>) {
    && |done| <= |values| && p == |LebAll(values[..|done|])| <= |bytes|
    && done == Restored(values[..|done|], delta)
    && (delta ==> prev == LastWord(done))
  }

  lemma DecodingStarts(bytes: seq<byte>, values: seq<nat>, delta: bool)
    ensures Decoding(bytes, values, delta, 0, 0, [])
  {
    assert values[..0] == [];
  }

  lemma DecodingNext(bytes: seq<byte>, values: seq<nat>, delta: bool, p: nat, prev: nat, done: seq<nat>)
    requires Words(values) && bytes == LebAll(values) && Decoding(bytes, values, delta, p, prev, done) && p < |bytes|
    ensures |done| < |values| && CodeAt(bytes, p, values[|done|])
    ensures var v := values[|done|];
      var x := if delta then (v + prev) % WORD else v;
      Decoding(bytes, values, delta, p + |Leb(v)|, if delta then x else prev, done + [x])
  {
    hide LebAll, Leb, Restored, CodeAt, Words;
    StreamEnds(values, |done|);
    StreamAt(values, |done|, bytes);
    RestoredStep(values, |done|, delta);
  }

  lemma DecodingEnds(bytes: seq<byte>, values: seq<nat>, delta: bool, p: nat, prev: nat, done: seq<nat>)
    requires bytes == LebAll(values) && Decoding(bytes, values, delta, p, prev, done) && p == |bytes|
    ensures |done| == |values| && done == Restored(values, delta)
  {
    hide LebAll, Leb, Restored;
    StreamEnds(values, |done|);
    assert values[..|values|] == values;
  }

  /** Decodes a stream: five-byte steps while more than five bytes are left, then byte by byte. */
  method Decode(bytes: seq<byte>, delta: bool, out: array<nat>, ghost values: seq<nat>) returns (count: nat)
    requires Words(values) && bytes == LebAll(values) && |values| <= out.Length
    modifies out
    ensures count == |values| && out[..count] == Restored(values, delta)
  {
    hide *;
    var p, prev := 0, 0;
    count := 0;
    DecodingStarts(bytes, values, delta);
    while |bytes| > p + 5
      invariant count <= out.Length && p <= |bytes| && Decoding(bytes, values, delta, p, prev, out[..count])
      decreases |bytes| - p
    {
      DecodingNext(bytes, values, delta, p, prev, out[..count]);
      var v: nat;
      v, p := ReadFast(bytes, p, values[count]);
      prev := Store(out, count, delta, v, prev);
      count := count + 1;
      WithinStream(bytes, values, delta, p, prev, out[..count]);
    }
    while |bytes| > p
      invariant count <= out.Length && p <= |bytes| && Decoding(bytes, values, delta, p, prev, out[..count])
      decreases |bytes| - p
    {
      DecodingNext(bytes, values, delta, p, prev, out[..count]);
      var v: nat;
      v, p := ReadSlow(bytes, p, values[count]);
      prev := Store(out, count, delta, v, prev);
      count := count + 1;
      WithinStream(bytes, values, delta, p, prev, out[..count]);
    }
    DecodingEnds(bytes, values, delta, p, prev, out[..count]);
  }

  lemma WithinStream(bytes: seq<byte>, values: seq<nat>, delta: bool, p: nat, prev: nat, done: seq<nat>)
    requires Decoding(bytes, values, delta, p, prev, done)
    ensures p <= |bytes|
  {
  }

  lemma EmptyStream()
    ensures LebAll([]) == []
  {
  }

  lemma RestoredStep(values: seq<nat>, t: nat, delta: bool)
    requires t < |values|
    ensures var was, next := Restored(values[..t], delta), Restored(values[..t + 1], delta);
      && next == was + [if delta then (values[t] + LastWord(was)) % WORD else values[t]]
      && LastWord(next) == if delta then (values[t] + LastWord(was)) % WORD else values[t]
  {
    assert values[..t + 1][..t] == values[..t];
  }

  /** Encoding an array and decoding it gives the array back, in both modes. */
  method RoundTrip(input: seq<nat>, delta: bool, buffer: array<byte>, out: array<nat>) returns (length: nat, count: nat)
    requires Words(input) && |LebAll(Stored(input, delta))| <= buffer.Length && |input| <= out.Length
    modifies buffer, out
    ensures count == |input| && out[..count] == input
  {
    length := EncodeArray(input, delta, buffer);
    RestoredStored(input, delta);
    count := Decode(buffer[..length], delta, out, Stored(input, delta));
  }

  /** The bytes a list will take. */
  method GetEncodeLength(input: seq<nat>, delta: bool) returns (size: nat)
    requires Words(input)
    ensures size == |LebAll(Stored(input, delta))|
  {
    EmptyStream();
    hide Leb, LebAll, Sub32, OneLength, OneCode, Stored;
    ghost var vals := Stored(input, delta);
    size := 0;
    var pre := 0;
    assert vals[..0] == [];
    for i := 0 to |input|
      invariant delta ==> pre == if i == 0 then 0 else input[i - 1]
      invariant size == |LebAll(vals[..i])|
    {
      EncodeStep(input, delta, i);
      var val := if delta then Sub32(input[i], pre) else input[i];
      if delta {
        pre := input[i];
      }
      OneCodeIsLeb(val);
      size := size + OneLength(val);
    }
    assert vals[..|vals|] == vals;
  }

  datatype DeltaInfo = DeltaInfo(delta_bits: nat, val_bits: nat, total_bits: nat)

  /** Per entry: the bytes of the stored word, of the entry itself, and of everything up to it. */
  method ParseEncode(input: seq<nat>, delta: bool) returns (infos: seq<DeltaInfo>)
    requires Words(input)
    ensures |infos| == |input|
    ensures forall i :: 0 <= i < |input| ==>
      && infos[i].delta_bits == (if i == 0 then 0 else |Leb(Stored(input, delta)[i])|)
      && infos[i].val_bits == |Leb(input[i])|
      && infos[i].total_bits == |LebAll(Stored(input, delta)[..i + 1])|
  {
    EmptyStream();
    hide Leb, LebAll, Sub32, OneLength, OneCode, Stored;
    ghost var vals := Stored(input, delta);
    infos := [];
    var size, pre := 0, 0;
    assert vals[..0] == [];
    for i := 0 to |input|
      invariant delta ==> pre == if i == 0 then 0 else input[i - 1]
      invariant size == |LebAll(vals[..i])| && |infos| == i
      invariant forall j :: 0 <= j < i ==>
        && infos[j].delta_bits == (if j == 0 then 0 else |Leb(vals[j])|)
        && infos[j].val_bits == |Leb(input[j])|
        && infos[j].total_bits == |LebAll(vals[..j + 1])|
    {
      EncodeStep(input, delta, i);
      var val := if delta then Sub32(input[i], pre) else input[i];
      if delta {
        pre := input[i];
      }
      OneCodeIsLeb(val);
      OneCodeIsLeb(input[i]);
      var val_bits := OneLength(val);
      size := size + val_bits;
      infos := infos + [DeltaInfo(if i == 0 then 0 else val_bits, OneLength(input[i]), size)];
    }
  }

  // ---- Searching an encoded list without decoding it --------------------------------------------------------

  datatype FindRes = EXIST | LESS_THAN_MIN | GREATER_THAN_MAX | NOT_EXIST

  /** Membership, or else the side of the list the element lies on. */
  function Located(list: seq<nat>, element: nat): FindRes
    requires list != []
  {
    if element in list then EXIST
    else if element < list[0] then LESS_THAN_MIN
    else if list[|list| - 1] < element then GREATER_THAN_MAX
    else NOT_EXIST
  }

  /** After `t` entries none of which is the element, all of them below it or it below the last of them. */
  ghost predicate Searched(list: seq<nat>, t: nat, element: nat) {
    1 <= t <= |list| && element !in list[..t] && list[0] < element
  }

  lemma GapAt(list: seq<nat>, t: nat)
    requires Words(list) && Ascending(list) && 1 <= t < |list|
    ensures Stored(list, true)[t] == list[t] - list[t - 1] && (Stored(list, true)[t] + list[t - 1]) % WORD == list[t]
  {
  }

  /** The element was met: it exists. Or it lies below an entry it has not met: it is between entries. */
  lemma FoundAt(list: seq<nat>, t: nat, element: nat)
    requires Ascending(list) && t < |list|
    ensures element == list[t] ==> Located(list, element) == EXIST
    ensures t >= 1 && Searched(list, t, element) && element < list[t] ==> Located(list, element) == NOT_EXIST
    ensures t >= 1 && Searched(list, t, element) && element != list[t] ==> Searched(list, t + 1, element)
  {
    if t >= 1 && Searched(list, t, element) && element < list[t] {
      forall j | 0 <= j < |list|
        ensures list[j] != element
      {
        if j < t {
          assert list[..t][j] == list[j];
        }
      }
    }
    assert list[..t + 1] == list[..t] + [list[t]];
  }

  lemma FirstEntry(list: seq<nat>, element: nat)
    requires Words(list) && Ascending(list) && list != []
    ensures Stored(list, true)[0] == list[0]
    ensures element < list[0] ==> Located(list, element) == LESS_THAN_MIN
    ensures element > list[0] ==> Searched(list, 1, element)
  {
    assert list[..1] == [list[0]];
    if element < list[0] {
      forall j | 0 <= j < |list|
        ensures list[j] != element
      {
      }
    }
  }

  lemma SearchedAll(list: seq<nat>, element: nat)
    requires list != [] && Ascending(list) && Searched(list, |list|, element)
    ensures Located(list, element) == if list[|list| - 1] < element then GREATER_THAN_MAX else NOT_EXIST
  {
    assert list[..|list|] == list;
  }

  /** Searches the gap code of an increasing list; the byte-wise tail stops early only on a gap above the element. */
  method FindGaps(bytes: seq<byte>, element: nat, ghost list: seq<nat>) returns (r: FindRes)
    requires list != [] && Words(list) && Ascending(list) && bytes == LebAll(Stored(list, true))
    ensures r == Located(list, element)
  {
    hide Leb, LebAll, CodeAt, Ascending, Located, Searched, Words;
    ghost var vals, t := Stored(list, true), 1;
    FirstEntry(list, element);
    assert vals[..0] == [] && |LebAll([])| == 0 by { EmptyStream(); }
    StreamAt(vals, 0, bytes);
    FoundAt(list, 0, element);
    var prev, p := ReadFast(bytes, 0, vals[0]);
    if element == prev {
      return EXIST;
    } else if element < prev {
      return LESS_THAN_MIN;
    }
    while |bytes| > p + 5
      invariant 1 <= t <= |list| && p == |LebAll(vals[..t])| && prev == list[t - 1] && Searched(list, t, element)
      decreases |bytes| - p
    {
      StreamEnds(vals, t);
      StreamAt(vals, t, bytes);
      GapAt(list, t);
      FoundAt(list, t, element);
      var v: nat;
      v, p := ReadFast(bytes, p, vals[t]);
      prev := (v + prev) % WORD;
      t := t + 1;
      if element == prev {
        return EXIST;
      } else if element < prev {
        return NOT_EXIST;
      }
    }
    while |bytes| > p
      invariant 1 <= t <= |list| && p == |LebAll(vals[..t])| && prev == list[t - 1] && Searched(list, t, element)
      decreases |bytes| - p
    {
      StreamEnds(vals, t);
      StreamAt(vals, t, bytes);
      GapAt(list, t);
      FoundAt(list, t, element);
      var v: nat;
      v, p := ReadSlow(bytes, p, vals[t]);
      prev := (v + prev) % WORD;
      t := t + 1;
      if element == prev {
        return EXIST;
      } else if element < v {
        return NOT_EXIST;
      }
    }
    StreamEnds(vals, t);
    SearchedAll(list, element);
    return if prev < element then GREATER_THAN_MAX else NOT_EXIST;
  }

  /** What the search without gaps reports: it has no result for elements below the list. */
  function LocatedValue(list: seq<nat>, element: nat): FindRes {
    if element in list then EXIST
    else if element == 0 || (list != [] && element < list[|list| - 1]) then NOT_EXIST
    else GREATER_THAN_MAX
  }

  /** The first `t` entries are below the element. */
  ghost predicate Passed(list: seq<nat>, t: nat, element: nat) {
    t <= |list| && forall i :: 0 <= i < t ==> list[i] < element
  }

  lemma PassedNext(list: seq<nat>, t: nat, element: nat)
    requires Ascending(list) && t < |list| && Passed(list, t, element)
    ensures element == list[t] ==> LocatedValue(list, element) == EXIST
    ensures element < list[t] ==> LocatedValue(list, element) == NOT_EXIST
    ensures list[t] < element ==> Passed(list, t + 1, element)
  {
    if element < list[t] {
      forall j | 0 <= j < |list|
        ensures list[j] != element
      {
      }
    }
  }

  lemma PassedAll(list: seq<nat>, element: nat)
    requires Passed(list, |list|, element)
    ensures LocatedValue(list, element) == if 0 < element then GREATER_THAN_MAX else NOT_EXIST
  {
  }

  lemma PassedNone(list: seq<nat>, element: nat)
    ensures Passed(list, 0, element) && |LebAll(list[..0])| == 0
  {
  }

  /** Searches the code of an increasing list stored as it is; an empty one too. */
  method FindValues(bytes: seq<byte>, element: nat, ghost list: seq<nat>) returns (r: FindRes)
    requires Words(list) && Ascending(list) && bytes == LebAll(list)
    ensures r == LocatedValue(list, element)
  {
    PassedNone(list, element);
    hide Leb, LebAll, CodeAt, Ascending, LocatedValue, Words;
    var p := 0;
    ghost var t := 0;
    while |bytes| > p + 5
      invariant Passed(list, t, element) && p == |LebAll(list[..t])|
      decreases |bytes| - p
    {
      StreamEnds(list, t);
      StreamAt(list, t, bytes);
      PassedNext(list, t, element);
      var v: nat;
      v, p := ReadFast(bytes, p, list[t]);
      t := t + 1;
      if element == v {
        return EXIST;
      } else if element < v {
        return NOT_EXIST;
      }
    }
    while |bytes| > p
      invariant Passed(list, t, element) && p == |LebAll(list[..t])|
      decreases |bytes| - p
    {
      StreamEnds(list, t);
      StreamAt(list, t, bytes);
      PassedNext(list, t, element);
      var v: nat;
      v, p := ReadSlow(bytes, p, list[t]);
      t := t + 1;
      if element == v {
        return EXIST;
      } else if element < v {
        return NOT_EXIST;
      }
    }
    StreamEnds(list, t);
    PassedAll(list, element);
    return if 0 < element then GREATER_THAN_MAX else NOT_EXIST;
  }

  /** The search in both modes. The gap mode reads a first value unasked. */
  method Find(bytes: seq<byte>, delta: bool, element: nat, ghost list: seq<nat>) returns (r: FindRes)
    requires (delta ==> list != []) && Words(list) && Ascending(list) && bytes == LebAll(Stored(list, delta))
    ensures r == if delta then Located(list, element) else LocatedValue(list, element)
  {
    if delta {
      r := FindGaps(bytes, element, list);
    } else {
      assert Stored(list, false) == list;
      r := FindValues(bytes, element, list);
    }
  }
}
