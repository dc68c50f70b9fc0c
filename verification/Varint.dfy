/** Variable-length integers, section 16 of RFC 9000. */
module Varint {
  import opened Bytes
  import opened Common

  /** A value together with the width class chosen for it: widths need not be minimal. */
  datatype VInt = VInt(v: nat, exp: nat) {
    predicate Valid() {
      exp < 4 && v < 64 * Pow256(Width(exp) - 1)
    }
  }

  function Width(exp: nat): (w: nat)
    requires exp < 4
    ensures 1 <= w <= 8
  {
    if exp == 0 then 1 else if exp == 1 then 2 else if exp == 2 then 4 else 8
  }

  /** The width class goes into the two top bits of the leading byte. */
  function Encode(x: VInt): (b: bytes)
    requires x.Valid()
    ensures |b| == Width(x.exp)
  {
    var raw := Be(x.v, Width(x.exp));
    LeadingByte(x.v, |raw|);
    [x.exp * 64 + raw[0]] + raw[1..]
  }

  lemma {:induction false} LeadingByte(v: nat, w: nat)
    requires w > 0 && v < 64 * Pow256(w - 1)
    ensures Be(v, w)[0] < 64
  {
    if w == 1 {
      assert Be(v / 256, 0) == [];
    } else {
      LeadingByte(v / 256, w - 1);
    }
  }

  /** What `readVarint` yields: the value and the number of bytes it took. */
  function Read(b: bytes): (r: Option<(nat, nat)>)
    ensures r.Some? ==> 0 < r.value.1 <= |b| && r.value.1 <= 8
  {
    if |b| == 0 then None
    else
      var w := Width(b[0] / 64);
      if |b| < w then None else Some((FromBe([b[0] % 64] + b[1..w]), w))
  }

  /** The source's loop: shift the value left and add the next byte. The value
      stays below 2^62, so the 64-bit shifts never lose a bit. */
  method ReadVarint(b: bytes) returns (v: nat, n: nat, ok: bool)
    ensures (if ok then Some((v, n)) else None) == Read(b)
    ensures ok ==> v < 64 * Pow256(7)
  {
    if |b| == 0 {
      return 0, 0, false;
    }
    var length := Width(b[0] / 64);
    if |b| < length {
      return 0, 0, false;
    }
    v := b[0] % 64;
    ghost var raw := [b[0] % 64] + b[1..length];
    assert raw[..1] == [b[0] % 64] && [b[0] % 64][..0] == [];
    assert FromBe(raw[..1]) == b[0] % 64;
    hide FromBe;
    var i := 1;
    while i < length
      invariant 1 <= i <= length
      invariant v == FromBe(raw[..i])
      invariant v < 64 * Pow256(i - 1)
    {
      assert raw[i] == b[i];
      FromBeStep(raw, i);
      v := v * 256 + b[i];
      i := i + 1;
    }
    assert raw[..length] == raw;
    Pow256Monotone(length - 1, 7);
    return v, length, true;
  }

  lemma {:induction false} Pow256Monotone(j: nat, k: nat)
    requires j <= k
    ensures Pow256(j) <= Pow256(k)
    decreases k
  {
    if j < k {
      Pow256Monotone(j, k - 1);
    }
  }

  /** `x` written in front of `rest`. */
  function Put(x: VInt, rest: bytes): (b: bytes)
    requires x.Valid()
    ensures |b| == Width(x.exp) + |rest|
  {
    Encode(x) + rest
  }

  /** Reading undoes writing at all four widths, whatever follows. */
  lemma ReadPut(x: VInt, rest: bytes)
    requires x.Valid()
    ensures Read(Put(x, rest)) == Some((x.v, Width(x.exp)))
    ensures Put(x, rest)[Width(x.exp)..] == rest
  {
    var w := Width(x.exp);
    var raw := Be(x.v, w);
    LeadingByte(x.v, w);
    var b := Put(x, rest);
    assert b[0] / 64 == x.exp && b[0] % 64 == raw[0];
    assert [b[0] % 64] + b[1..w] == raw;
    FromBeOfBe(x.v, w);
    assert x.v < Pow256(w);
  }

  /** A byte below 64 is its own one-byte encoding. */
  lemma ReadOneByte(t: byte, rest: bytes)
    requires t < 64
    ensures Read([t] + rest) == Some((t as nat, 1))
    ensures ([t] + rest)[1..] == rest
  {
    var b := [t] + rest;
    assert b[1..1] == [];
    assert [b[0] % 64] + b[1..1] == [t];
    assert [t][..0] == [];
    assert FromBe([t]) == FromBe([t][..0]) * 256 + t;
  }

  /** Section 16 of RFC 9000: the two top bits of the first byte are the base-2 logarithm of the
      length, and the other bits of all bytes are the value. */
  lemma {:induction false} EncodingMeaning(x: VInt)
    requires x.Valid()
    ensures var b := Encode(x);
      |b| == Pow2(b[0] / 64) && b[0] / 64 == x.exp && FromBe([b[0] % 64] + b[1..]) == x.v
  {
    var raw := Be(x.v, Width(x.exp));
    LeadingByte(x.v, |raw|);
    assert Pow2(0) == 1 && Pow2(1) == 2 && Pow2(2) == 4 && Pow2(3) == 8;
    var b := Encode(x);
    assert [b[0] % 64] + b[1..] == raw;
    WidthBounds(x);
    FromBeOfBe(x.v, Width(x.exp));
  }

  lemma WidthBounds(x: VInt)
    requires x.Valid()
    ensures x.v < Pow256(Width(x.exp))
  {
    assert Pow256(Width(x.exp)) == 256 * Pow256(Width(x.exp) - 1);
  }
}
