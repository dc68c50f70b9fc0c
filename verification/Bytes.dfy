/** Bytes as bounded integers, with the big-endian and exclusive-or operations
    the packet code performs on them. */
module Bytes {
  type byte = x: int | 0 <= x < 256
  type bytes = seq<byte>

  function Pow256(k: nat): (p: nat)
    ensures p > 0
  {
    if k == 0 then 1 else 256 * Pow256(k - 1)
  }

  /** The number a byte string denotes, most significant byte first. */
  function FromBe(b: bytes): nat {
    if b == [] then 0 else FromBe(b[..|b| - 1]) * 256 + b[|b| - 1]
  }

  /** The low `k` bytes of `n`, most significant first. */
  function Be(n: nat, k: nat): (b: bytes)
    ensures |b| == k
  {
    if k == 0 then [] else Be(n / 256, k - 1) + [n % 256]
  }

  lemma {:induction false} FromBeOfBe(n: nat, k: nat)
    requires n < Pow256(k)
    ensures FromBe(Be(n, k)) == n
  {
    if k > 0 {
      FromBeOfBe(n / 256, k - 1);
      assert Be(n, k)[..k - 1] == Be(n / 256, k - 1);
    }
  }

  /** Byte `j` from the right is the number shifted right by `j` bytes, modulo 256. */
  lemma {:induction false} BeByte(n: nat, k: nat, j: nat)
    requires j < k
    ensures Be(n, k)[k - 1 - j] == n / Pow256(j) % 256
    decreases k
  {
    if j > 0 {
      BeByte(n / 256, k - 1, j - 1);
      DivideTwice(n, 256, Pow256(j - 1));
    }
  }

  lemma {:induction false} BeOfFromBe(b: bytes)
    ensures Be(FromBe(b), |b|) == b
  {
    if b != [] {
      BeOfFromBe(b[..|b| - 1]);
    }
  }

  lemma FromBeStep(b: bytes, i: nat)
    requires i < |b|
    ensures FromBe(b[..i + 1]) == FromBe(b[..i]) * 256 + b[i]
  {
    assert b[..i + 1][..i] == b[..i];
  }

  function U16(hi: byte, lo: byte): nat {
    hi * 256 + lo
  }

  lemma U16OfBe(n: nat, rest: bytes)
    requires n < 65536
    ensures var b := Be(n, 2) + rest; U16(b[0], b[1]) == n
  {
    assert Be(n, 2) == Be(n / 256, 1) + [n % 256];
    assert Be(n / 256, 1) == Be(n / 256 / 256, 0) + [n / 256 % 256];
  }

  lemma SliceOfTail(b: bytes, at: nat, i: nat, j: nat)
    requires i <= j && at + j <= |b|
    ensures b[at + i..at + j] == b[at..][i..j]
  {
  }

  lemma SliceOfSlice(b: bytes, lo: nat, hi: nat, i: nat, j: nat)
    requires lo <= hi <= |b| && i <= j <= hi - lo
    ensures b[lo + i..lo + j] == b[lo..hi][i..j]
    ensures j == hi - lo ==> b[lo..hi][i..j] == b[lo..hi][i..]
  {
    forall k | 0 <= k < j - i
      ensures b[lo + i..lo + j][k] == b[lo..hi][i..j][k]
    {
      assert b[lo..hi][i + k] == b[lo + i + k];
    }
  }

  // ---------- Division ----------

  lemma Product(a: int, b: int)
    requires a >= 0 && b >= 0
    ensures a * b >= 0
  {
  }

  lemma {:induction false} DivideTwice(x: nat, a: nat, c: nat)
    requires a > 0 && c > 0
    ensures a * c > 0 && x / (a * c) == x / a / c
  {
    var y := x / a;
    DivMod(x, a);
    DivMod(y, c);
    Product(a, c);
    assert a * c != 0;
    Stacked(x, a, c, y / c, y % c, x % a);
    QuotientIs(x, a * c, y / c, y % c * a + x % a);
  }

  lemma DivMod(x: nat, a: nat)
    requires a > 0
    ensures x == a * (x / a) + x % a && 0 <= x % a < a
  {
  }

  lemma Stacked(x: nat, a: nat, c: nat, q: nat, r: nat, s: nat)
    requires x == a * (c * q + r) + s && r < c && s < a
    ensures x == q * (a * c) + (r * a + s) && 0 <= r * a + s < a * c
  {
    Regroup(q, c, r, a, s);
    Product(c - 1 - r, a);
    Product(r, a);
    assert (c - 1 - r) * a == a * c - a - r * a;
  }

  lemma Regroup(q: nat, c: nat, r: nat, a: nat, s: nat)
    ensures (q * c + r) * a + s == q * (a * c) + (r * a + s)
  {
  }

  lemma {:induction false} QuotientIs(x: nat, d: nat, q: nat, r: nat)
    requires r < d && x == q * d + r
    ensures x / d == q
  {
    var k := x / d - q;
    assert k * d == r - x % d;
    AtLeastOne(k, d);
    AtLeastOne(-k, d);
  }

  lemma AtLeastOne(k: int, d: nat)
    ensures k >= 1 ==> k * d >= d
  {
    if k >= 1 {
      assert (k - 1) * d >= 0;
    }
  }

  // ---------- Exclusive or ----------

  function Bit(a: nat, b: nat): (r: nat)
    ensures r < 2
  {
    if a % 2 == b % 2 then 0 else 1
  }

  /** Exclusive or of the low `k` bits. */
  function Xor(a: nat, b: nat, k: nat): nat {
    if k == 0 then 0 else Bit(a, b) + 2 * Xor(a / 2, b / 2, k - 1)
  }

  lemma XorStep(a: nat, b: nat, k: nat)
    requires k > 0
    ensures Xor(a, b, k) / 2 == Xor(a / 2, b / 2, k - 1)
    ensures Xor(a, b, k) % 2 == Bit(a, b)
  {
  }

  function Pow2(k: nat): (p: nat)
    ensures p > 0
  {
    if k == 0 then 1 else 2 * Pow2(k - 1)
  }

  lemma {:induction false} XorCancel(a: nat, b: nat, k: nat)
    requires a < Pow2(k)
    ensures Xor(a, b, k) < Pow2(k)
    ensures Xor(Xor(a, b, k), b, k) == a
  {
    if k > 0 {
      XorStep(a, b, k);
      XorCancel(a / 2, b / 2, k - 1);
      var c := Xor(a, b, k);
      assert Xor(c, b, k) == Bit(c, b) + 2 * Xor(c / 2, b / 2, k - 1);
    }
  }

  lemma {:induction false} XorZero(a: nat, k: nat)
    requires a < Pow2(k)
    ensures Xor(a, 0, k) == a
  {
    if k > 0 {
      XorZero(a / 2, k - 1);
    }
  }

  function XorByte(a: byte, b: byte): byte {
    XorByteFacts(a, b);
    Xor(a, b, 8)
  }

  lemma Pow2Of8()
    ensures Pow2(8) == 256
  {
    assert Pow2(4) == 16;
  }

  lemma XorByteFacts(a: byte, b: byte)
    ensures Xor(a, b, 8) < 256
    ensures Xor(Xor(a, b, 8), b, 8) == a
  {
    Pow2Of8();
    XorCancel(a, b, 8);
  }

  /** A mask of `j` bits leaves the bits above alone. */
  lemma {:induction false} XorLowBits(h: nat, l: nat, m: nat, j: nat, k: nat)
    requires l < Pow2(j) && m < Pow2(j) && j <= k && h < Pow2(k - j)
    ensures Xor(h * Pow2(j) + l, m, k) == h * Pow2(j) + Xor(l, m, j)
  {
    if j == 0 {
      XorZero(h, k);
    } else {
      var q := h * Pow2(j - 1);
      assert h * Pow2(j) == 2 * q;
      assert (2 * q + l) / 2 == q + l / 2 && (2 * q + l) % 2 == l % 2;
      XorLowBits(h, l / 2, m / 2, j - 1, k - 1);
    }
  }

  /** Bit `j` of an exclusive or is set exactly when bit `j` of one operand alone is. */
  lemma {:induction false} XorBit(a: nat, b: nat, k: nat, j: nat)
    requires j < k
    ensures Xor(a, b, k) / Pow2(j) % 2 == 1 <==> a / Pow2(j) % 2 != b / Pow2(j) % 2
  {
    XorStep(a, b, k);
    if j > 0 {
      XorBit(a / 2, b / 2, k - 1, j - 1);
      DivideTwice(Xor(a, b, k), 2, Pow2(j - 1));
      DivideTwice(a, 2, Pow2(j - 1));
      DivideTwice(b, 2, Pow2(j - 1));
    }
  }

  lemma {:induction false} XorCommutes(a: nat, b: nat, k: nat)
    ensures Xor(a, b, k) == Xor(b, a, k)
  {
    if k > 0 {
      XorCommutes(a / 2, b / 2, k - 1);
    }
  }

  /** The exclusive or of two bytes differs from the second exactly in the bits of the first. */
  lemma XorByteMeaning(a: byte, b: byte, j: nat)
    requires j < 8
    ensures XorByte(a, b) / Pow2(j) % 2 == 1 <==> a / Pow2(j) % 2 != b / Pow2(j) % 2
    ensures XorByte(a, b) == XorByte(b, a) && XorByte(a, 0) == a
  {
    XorBit(a, b, 8, j);
    XorCommutes(a, b, 8);
    Pow2Of8();
    XorZero(a, 8);
  }

  lemma XorKeepsHighBits(a: byte, m: byte)
    requires m < 16
    ensures XorByte(a, m) / 16 == a / 16
  {
    assert Pow2(4) == 16;
    XorLowBits(a / 16, a % 16, m, 4, 8);
    XorCancel(a % 16, m, 4);
  }

  function XorBytes(a: bytes, b: bytes): (c: bytes)
    requires |a| <= |b|
    ensures |c| == |a|
  {
    seq(|a|, i requires 0 <= i < |a| => XorByte(a[i], b[i]))
  }

  lemma XorBytesCancel(a: bytes, b: bytes)
    requires |a| <= |b|
    ensures XorBytes(XorBytes(a, b), b) == a
  {
    forall i | 0 <= i < |a|
      ensures XorBytes(XorBytes(a, b), b)[i] == a[i]
    {
      XorByteFacts(a[i], b[i]);
    }
  }
}
