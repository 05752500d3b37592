/**
 * Bytes and the bit operations the codec applies to them. A byte is a
 * number from 0 to 255; testing the bit of weight 2^k (Python's `b & mask`
 * with a one-bit mask) and keeping the low bits (`b & 0x7F`, `b & 0x0F`) are
 * written arithmetically, and so is exclusive or, bit by bit.
 */
module Octets {
  newtype byte = x: int | 0 <= x < 256

  /** 2^k. */
  function Pow2(k: nat): (r: nat)
    ensures r >= 1
  {
    if k == 0 then 1 else 2 * Pow2(k - 1)
  }

  /** Exclusive or of two naturals, bit by bit from the least significant. */
  function XorNat(a: nat, b: nat): nat
    decreases a + b
  {
    if a == 0 && b == 0 then 0 else (a % 2 + b % 2) % 2 + 2 * XorNat(a / 2, b / 2)
  }

  /** Exclusive or of two k-bit numbers has at most k bits. */
  lemma {:induction false} XorNatBound(a: nat, b: nat, k: nat)
    requires a < Pow2(k) && b < Pow2(k)
    ensures XorNat(a, b) < Pow2(k)
    decreases k
  {
    if k > 0 && !(a == 0 && b == 0) {
      XorNatBound(a / 2, b / 2, k - 1);
    }
  }

  /** `a ^ b`. */
  function Xor(a: byte, b: byte): byte {
    XorNatBound(a as nat, b as nat, 8);
    XorNat(a as nat, b as nat) as byte
  }

  /** Exclusive or with b twice gives back a. */
  lemma {:induction false} XorNatInvolution(a: nat, b: nat)
    ensures XorNat(XorNat(a, b), b) == a
    decreases a + b
  {
    if !(a == 0 && b == 0) {
      var x := XorNat(a, b);
      var y := XorNat(a / 2, b / 2);
      XorNatStep(a, b);
      XorNatStep(x, b);
      XorNatInvolution(a / 2, b / 2);
      XorBitArith(a, b, x, y);
    }
  }

  /** One step of XorNat, which also holds when both operands are zero. */
  lemma XorNatStep(a: nat, b: nat)
    ensures XorNat(a, b) == (a % 2 + b % 2) % 2 + 2 * XorNat(a / 2, b / 2)
  {
  }

  /** The arithmetic of one bit of the involution. */
  lemma XorBitArith(a: nat, b: nat, x: nat, y: nat)
    requires x == (a % 2 + b % 2) % 2 + 2 * y
    ensures x / 2 == y && (x % 2 + b % 2) % 2 + 2 * (a / 2) == a
  {
  }

  /** Exclusive or with the same byte twice is the identity. */
  lemma XorInvolution(a: byte, k: byte)
    ensures Xor(Xor(a, k), k) == a
  {
    XorNatInvolution(a as nat, k as nat);
  }

  /** `b & w != 0` for a one-bit mask w = 2^k: bit k of b is set. */
  function HasBit(b: byte, w: nat): bool
    requires w in {0x01, 0x02, 0x04, 0x08, 0x10, 0x20, 0x40, 0x80}
  {
    (b as int / w) % 2 == 1
  }

  /** `b & (w - 1)` for w = 2^k: the k low bits of b. */
  function LowBits(b: byte, w: nat): (r: nat)
    requires w in {0x10, 0x80}
    ensures r < w
  {
    b as int % w
  }
}

/** Byte strings, big-endian integers and concatenation of chunk lists. */
module Bytes {
  import opened Octets

  /** 256^k: one more than the largest k-byte unsigned integer. */
  function Pow256(k: nat): (r: nat)
    ensures r >= 1
  {
    if k == 0 then 1 else 256 * Pow256(k - 1)
  }

  /** The k-byte big-endian form of n (struct's '!H' for k = 2, '!Q' for k = 8). */
  function BigEndian(n: nat, k: nat): (r: seq<byte>)
    requires n < Pow256(k)
    ensures |r| == k
  {
    if k == 0 then []
    else
      assert n / 256 < Pow256(k - 1);
      BigEndian(n / 256, k - 1) + [(n % 256) as byte]
  }

  /** The unsigned integer whose big-endian form is s. */
  function FromBigEndian(s: seq<byte>): (r: nat)
    ensures r < Pow256(|s|)
  {
    if s == [] then 0
    else
      var hi := FromBigEndian(s[..|s| - 1]);
      assert hi * 256 + s[|s| - 1] as int <= (Pow256(|s| - 1) - 1) * 256 + 255;
      hi * 256 + s[|s| - 1] as int
  }

  lemma {:induction false} BigEndianRoundTrip(n: nat, k: nat)
    requires n < Pow256(k)
    ensures FromBigEndian(BigEndian(n, k)) == n
  {
    if k > 0 {
      var s := BigEndian(n, k);
      assert s[..k - 1] == BigEndian(n / 256, k - 1);
      assert s[k - 1] as int == n % 256;
      BigEndianRoundTrip(n / 256, k - 1);
      assert FromBigEndian(s) == (n / 256) * 256 + n % 256;
    }
  }

  /** The concatenation of a list of chunks, in order. */
  function Concat<T>(ss: seq<seq<T>>): (r: seq<T>)
  {
    if ss == [] then [] else ss[0] + Concat(ss[1..])
  }

  lemma {:induction false} ConcatAppend<T>(ss: seq<seq<T>>, s: seq<T>)
    ensures Concat(ss + [s]) == Concat(ss) + s
  {
    if ss != [] {
      assert (ss + [s])[1..] == ss[1..] + [s];
      ConcatAppend(ss[1..], s);
    }
  }
}
