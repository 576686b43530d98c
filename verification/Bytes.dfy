/** Bytes, 32-bit words and the bitwise operations the C code applies to them. */
module Bytes {

  type byte = x: int | 0 <= x < 256
  type bytes = seq<byte>

  const TWO32 := 0x1_0000_0000
  const TWO64 := 0x1_0000_0000_0000_0000

  type uint32 = x: int | 0 <= x < TWO32
  type uint64 = x: int | 0 <= x < TWO64

  /** A byte string whose length fits an `unsigned int`. */
  type chunk = s: seq<byte> | |s| < TWO32

  datatype Option<+T> = None | Some(value: T)

  /** Reduction of an integer to 32 bits, as every uint32 assignment does. */
  function W32(x: int): uint32 {
    x % TWO32
  }

  /** uint32_pack: four bytes, least significant first. */
  function Pack(u: int): (s: bytes)
    ensures |s| == 4
  {
    [u % 256, u / 256 % 256, u / 256 / 256 % 256, u / 256 / 256 / 256 % 256]
  }

  function Horner(a: int, b: int, c: int, d: int): int {
    ((a * 256 + b) * 256 + c) * 256 + d
  }

  /** uint32_unpack. */
  function Unpack(s: bytes): uint32
    requires |s| == 4
  {
    Horner(s[3], s[2], s[1], s[0])
  }

  lemma UnpackPack(u: uint32)
    ensures Unpack(Pack(u)) == u
  {
  }

  /** uint32_pack_big: four bytes, most significant first. */
  function PackBig(u: int): (s: bytes)
    ensures |s| == 4
  {
    [u / 256 / 256 / 256 % 256, u / 256 / 256 % 256, u / 256 % 256, u % 256]
  }

  /** uint32_unpack_big. */
  function UnpackBig(s: bytes): uint32
    requires |s| == 4
  {
    Horner(s[0], s[1], s[2], s[3])
  }

  lemma UnpackPackBig(u: uint32)
    ensures UnpackBig(PackBig(u)) == u
  {
  }

  /** uint16_unpack_big of the two bytes at x. */
  function Word16(buf: bytes, x: nat): nat
    requires x + 1 < |buf|
  {
    buf[x] as nat * 256 + buf[x + 1]
  }

  /** tai_pack: eight bytes, most significant first. */
  function PackTai(t: uint64): (s: bytes)
    ensures |s| == 8
  {
    PackBig(t / TWO32) + PackBig(t % TWO32)
  }

  /** tai_unpack. */
  function UnpackTai(s: bytes): uint64
    requires |s| == 8
  {
    UnpackBig(s[..4]) as int * TWO32 + UnpackBig(s[4..])
  }

  lemma UnpackPackTai(t: uint64)
    ensures UnpackTai(PackTai(t)) == t
  {
    hide PackBig, UnpackBig;
    var s := PackTai(t);
    assert s[..4] == PackBig(t / TWO32) && s[4..] == PackBig(t % TWO32);
    UnpackPackBig(t / TWO32);
    UnpackPackBig(t % TWO32);
  }

  function XorBit(x: nat, y: nat): (r: nat)
    ensures r < 2
  {
    if x == y then 0 else 1
  }

  /** Bitwise exclusive or on non-negative integers. */
  function Xor(a: nat, b: nat): nat {
    if a == 0 && b == 0 then 0 else XorBit(a % 2, b % 2) + 2 * Xor(a / 2, b / 2)
  }

  lemma {:induction false} XorZero(a: nat)
    ensures Xor(a, 0) == a && Xor(0, a) == a
  {
    if a != 0 {
      XorZero(a / 2);
    }
  }

  lemma {:induction false} XorSelf(a: nat)
    ensures Xor(a, a) == 0
  {
    if a != 0 {
      XorSelf(a / 2);
    }
  }

  lemma {:induction false} XorCommutes(a: nat, b: nat)
    ensures Xor(a, b) == Xor(b, a)
  {
    if a != 0 || b != 0 {
      XorCommutes(a / 2, b / 2);
    }
  }

  /** The lowest bit and the remaining bits of an exclusive or. */
  lemma XorBits(a: nat, b: nat)
    ensures Xor(a, b) % 2 == XorBit(a % 2, b % 2)
    ensures Xor(a, b) / 2 == Xor(a / 2, b / 2)
  {
    hide Xor;
    if a == 0 && b == 0 {
      XorZero(0);
    } else {
      XorUnfold(a, b);
      HalfAndBit(XorBit(a % 2, b % 2), Xor(a / 2, b / 2));
    }
  }

  lemma XorUnfold(a: nat, b: nat)
    requires a != 0 || b != 0
    ensures Xor(a, b) == XorBit(a % 2, b % 2) + 2 * Xor(a / 2, b / 2)
  {
  }

  lemma HalfAndBit(bit: nat, half: nat)
    requires bit < 2
    ensures (bit + 2 * half) % 2 == bit && (bit + 2 * half) / 2 == half
  {
  }

  lemma SameHalves(l: nat, r: nat)
    requires l / 2 == r / 2 && l % 2 == r % 2
    ensures l == r
  {
  }

  lemma {:induction false} XorAssociates(a: nat, b: nat, c: nat)
    ensures Xor(Xor(a, b), c) == Xor(a, Xor(b, c))
    decreases a + b + c
  {
    hide Xor;
    if a == 0 && b == 0 && c == 0 {
      XorZero(0);
    } else {
      XorBits(a, b);
      XorBits(b, c);
      XorBits(Xor(a, b), c);
      XorBits(a, Xor(b, c));
      XorAssociates(a / 2, b / 2, c / 2);
      SameHalves(Xor(Xor(a, b), c), Xor(a, Xor(b, c)));
    }
  }

  /** Combining twice with the same word undoes the first combination. */
  lemma XorCancel(a: nat, b: nat)
    ensures Xor(a, Xor(a, b)) == b
    ensures Xor(Xor(b, a), a) == b
  {
    XorAssociates(a, a, b);
    XorAssociates(b, a, a);
    XorSelf(a);
    XorZero(b);
  }

  function Pow2(n: nat): (p: nat)
    ensures p > 0
  {
    if n == 0 then 1 else 2 * Pow2(n - 1)
  }

  lemma {:induction false} XorBound(a: nat, b: nat, n: nat)
    requires a < Pow2(n) && b < Pow2(n)
    ensures Xor(a, b) < Pow2(n)
  {
    if n != 0 {
      XorBound(a / 2, b / 2, n - 1);
    }
  }

  lemma XorByte(a: byte, b: byte)
    ensures Xor(a, b) < 256
  {
    assert Pow2(8) == 256 by {
      assert Pow2(4) == 16;
    }
    XorBound(a, b, 8);
  }

  lemma Pow2Of32()
    ensures Pow2(32) == TWO32
  {
    assert Pow2(8) == 256 by {
      assert Pow2(4) == 16;
    }
    assert Pow2(12) == 0x1000;
    assert Pow2(16) == 0x1_0000;
    assert Pow2(20) == 0x10_0000;
    assert Pow2(24) == 0x100_0000;
    assert Pow2(28) == 0x1000_0000;
  }

  lemma XorWord(a: uint32, b: uint32)
    ensures Xor(a, b) < TWO32
  {
    Pow2Of32();
    XorBound(a, b, 32);
  }

  /** The two halves of a 32-bit exclusive or, usable where a uint32 is needed. */
  function Xor32(a: uint32, b: uint32): (c: uint32)
    ensures c == Xor(a, b)
  {
    XorWord(a, b);
    Xor(a, b)
  }

  function AndBit(x: nat, y: nat): (r: nat)
    ensures r <= y && r < 2
  {
    if x == 1 && y == 1 then 1 else 0
  }

  /** Bitwise and on non-negative integers. */
  function And(a: nat, b: nat): nat {
    if a == 0 || b == 0 then 0 else AndBit(a % 2, b % 2) + 2 * And(a / 2, b / 2)
  }

  lemma AndUnfold(a: nat, b: nat)
    requires a != 0 && b != 0
    ensures And(a, b) == AndBit(a % 2, b % 2) + 2 * And(a / 2, b / 2)
  {
  }

  lemma AndZero(a: nat)
    ensures And(a, 0) == 0 && And(0, a) == 0
  {
  }

  /** Masking keeps a value within the mask. */
  lemma {:induction false} AndWithin(a: nat, mask: nat)
    ensures And(a, mask) <= mask
  {
    hide And;
    if a == 0 || mask == 0 {
      AndZero(a + mask);
    } else {
      AndUnfold(a, mask);
      AndWithin(a / 2, mask / 2);
    }
  }

  /** Masking with an even mask gives an even number, ... */
  lemma AndEven(a: nat, mask: nat)
    requires mask % 2 == 0
    ensures And(a, mask) % 2 == 0
  {
    hide And;
    if a == 0 || mask == 0 {
      AndZero(a + mask);
    } else {
      AndUnfold(a, mask);
      HalfAndBit(0, And(a / 2, mask / 2));
    }
  }

  /** ... and with a multiple of four a multiple of four. */
  lemma AndWordAligned(a: nat, mask: nat)
    requires mask % 4 == 0
    ensures And(a, mask) % 4 == 0
  {
    hide And;
    if a == 0 || mask == 0 {
      AndZero(a + mask);
    } else {
      AndUnfold(a, mask);
      HalfOfWord(mask);
      AndEven(a / 2, mask / 2);
      TwiceEven(And(a / 2, mask / 2));
    }
  }

  lemma HalfOfWord(m: nat)
    requires m % 4 == 0
    ensures m % 2 == 0 && m / 2 % 2 == 0
  {
    var k := m / 4;
    assert m == 2 * (2 * k);
    HalfAndBit(0, 2 * k);
    HalfAndBit(0, k);
  }

  lemma TwiceEven(h: nat)
    requires h % 2 == 0
    ensures 2 * h % 4 == 0
  {
  }

  // --- remainders ---------------------------------------------------------------------------------

  lemma RemainderIs(n: nat, q: nat, r: nat)
    requires r < n
    ensures (n * q + r) % n == r
  {
    var x := n * q + r;
    assert x == n * (x / n) + x % n;
    assert n * (x / n - q) == r - x % n;
    assert n * (q - x / n) == -(n * (x / n - q));
    if x / n > q {
      MultipleFar(n, x / n - q);
    } else if x / n < q {
      MultipleFar(n, q - x / n);
    }
  }

  lemma MultipleFar(n: nat, d: nat)
    requires n > 0 && d > 0
    ensures n * d >= n
  {
    assert n * d == n + n * (d - 1);
  }

  lemma HalfRemainder(x: nat, p: nat)
    requires p > 0
    ensures x % (2 * p) == x % 2 + 2 * (x / 2 % p)
  {
    var q, r := x / 2 / p, x / 2 % p;
    assert x / 2 == p * q + r;
    assert x == 2 * p * q + (2 * r + x % 2);
    RemainderIs(2 * p, q, 2 * r + x % 2);
  }

  lemma Pow2Step(n: nat)
    requires n > 0
    ensures Pow2(n) == 2 * Pow2(n - 1) && Pow2(n) - 1 == 2 * (Pow2(n - 1) - 1) + 1
  {
  }

  /** Masking with one less than a power of two is the remainder. */
  lemma {:induction false} AndMask(x: nat, n: nat)
    ensures And(x, Pow2(n) - 1) == x % Pow2(n)
  {
    hide And;
    if n == 0 {
      AndZero(x);
    } else {
      hide Pow2;
      Pow2Step(n);
      AndOdd(x, Pow2(n - 1) - 1);
      AndMask(x / 2, n - 1);
      HalfRemainder(x, Pow2(n - 1));
    }
  }

  lemma AndOdd(x: nat, y: nat)
    ensures And(x, 2 * y + 1) == x % 2 + 2 * And(x / 2, y)
  {
    hide And;
    if x == 0 {
      AndZero(2 * y + 1);
      AndZero(y);
    } else {
      HalfAndBit(1, y);
      AndUnfold(x, 1 + 2 * y);
    }
  }

  /** A multiple of four, masked with four less than a power of two. */
  lemma AndMaskFour(x: nat, n: nat)
    requires n >= 2 && x % 4 == 0
    ensures Pow2(n) >= 4 && And(x, Pow2(n) - 4) == x % Pow2(n)
  {
    hide And, Pow2;
    Pow2Step(n);
    Pow2Step(n - 1);
    var y, p := x / 4, Pow2(n - 2);
    assert x == 4 * y && Pow2(n) == 4 * p;
    AndTwice(y, p - 1);
    AndTwice(2 * y, 2 * (p - 1));
    AndMask(y, n - 2);
    FourRemainder(y, p);
  }

  /** Bits that are zero in both stay zero. */
  lemma AndTwice(x: nat, y: nat)
    ensures And(2 * x, 2 * y) == 2 * And(x, y)
  {
    hide And;
    AndZero(x + y);
    AndZero(2 * x + 2 * y);
    if x > 0 && y > 0 {
      AndUnfold(2 * x, 2 * y);
    }
  }

  /** A remainder modulo 2^32 has the same remainder modulo any smaller power of two. */
  lemma RemainderOfWord(x: nat, n: nat)
    requires n <= 32
    ensures W32(x) % Pow2(n) == x % Pow2(n)
  {
    hide Pow2;
    var p := Pow2(n);
    PowersMultiply(n, 32 - n);
    Pow2Of32();
    var q, r := x / TWO32, W32(x);
    var q', r' := r / p, r % p;
    assert x == TWO32 * q + r && r == p * q' + r';
    Regroup(p, Pow2(32 - n), q, q');
    RemainderIs(p, Pow2(32 - n) * q + q', r');
  }

  lemma FourRemainder(y: nat, p: nat)
    requires p > 0
    ensures 4 * y % (4 * p) == 4 * (y % p)
  {
    var q, r := y / p, y % p;
    assert y == p * q + r;
    assert 4 * y == 4 * p * q + 4 * r;
    RemainderIs(4 * p, q, 4 * r);
  }

  lemma Regroup(p: nat, m: nat, q: nat, q': nat)
    ensures p * m * q + p * q' == p * (m * q + q')
  {
  }

  lemma {:induction false} PowersMultiply(a: nat, b: nat)
    ensures Pow2(a) * Pow2(b) == Pow2(a + b)
  {
    if a > 0 {
      PowersMultiply(a - 1, b);
    }
  }
}
