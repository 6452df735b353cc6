/** Byte strings: integer conversions (sections 4.1 and 4.2 of RFC 8017), exclusive or,
    clamping slices, and the size of a modulus in bytes. */
module Bytes {
  import opened Bits
  import opened NumberTheory

  type Byte = b: nat | b < 256
  type Bytes = seq<Byte>

  function Take<T>(s: seq<T>, n: nat): seq<T> {
    if n <= |s| then s[..n] else s
  }

  function Drop<T>(s: seq<T>, n: nat): seq<T> {
    if n <= |s| then s[n..] else []
  }

  function Slice<T>(s: seq<T>, lo: nat, hi: nat): seq<T> {
    Drop(Take(s, hi), lo)
  }

  function Zeros(n: nat): (r: Bytes) {
    seq(n, _ => 0)
  }

  // --- Integers -------------------------------------------------------------

  function OctetsToInt(s: Bytes): nat {
    if s == [] then 0 else OctetsToInt(s[..|s| - 1]) * 256 + s[|s| - 1]
  }

  /** The k-octet big-endian form of x, most significant octets dropped. */
  function IntToOctets(x: nat, k: nat): (s: Bytes)
    ensures |s| == k
  {
    if k == 0 then [] else IntToOctets(x / 256, k - 1) + [x % 256]
  }

  lemma {:induction false} OctetsToIntBound(s: Bytes)
    ensures OctetsToInt(s) < Pow(256, |s|)
  {
    if s == [] {
    } else {
      OctetsToIntBound(s[..|s| - 1]);
    }
  }

  lemma {:induction false} IntRoundTrip(x: nat, k: nat)
    requires x < Pow(256, k)
    ensures OctetsToInt(IntToOctets(x, k)) == x
  {
    if k == 0 {
    } else {
      IntRoundTrip(x / 256, k - 1);
      assert IntToOctets(x, k)[..k - 1] == IntToOctets(x / 256, k - 1);
    }
  }

  lemma {:induction false} OctetsRoundTrip(s: Bytes)
    ensures IntToOctets(OctetsToInt(s), |s|) == s
  {
    if s == [] {
    } else {
      OctetsRoundTrip(s[..|s| - 1]);
      assert s == s[..|s| - 1] + [s[|s| - 1]];
    }
  }

  lemma OctetsToIntOne(b: Byte)
    ensures OctetsToInt([b]) == b
  {
    assert [b][..0] == [];
  }

  lemma {:induction false} OctetsToIntConcat(a: Bytes, b: Bytes)
    ensures OctetsToInt(a + b) == OctetsToInt(a) * Pow(256, |b|) + OctetsToInt(b)
  {
    if b == [] {
      assert a + b == a;
    } else {
      var b', l := b[..|b| - 1], b[|b| - 1];
      OctetsToIntConcat(a, b');
      assert (a + b)[..|a + b| - 1] == a + b';
      assert OctetsToInt(a) * Pow(256, |b'|) * 256 == OctetsToInt(a) * Pow(256, |b|);
    }
  }

  // --- Exclusive or ---------------------------------------------------------

  function XorByte(a: Byte, b: Byte): Byte {
    assert Pow(2, 8) == 256;
    XorBound(a, b, 8);
    BitXor(a, b)
  }

  function XorBytes(a: Bytes, b: Bytes): (r: Bytes)
    requires |a| == |b|
    ensures |r| == |a|
  {
    seq(|a|, i requires 0 <= i < |a| => XorByte(a[i], b[i]))
  }

  /** Octet by octet and digit by digit. */
  lemma XorBytesDigits(a: Bytes, b: Bytes, i: nat, k: nat)
    requires i < |a| == |b|
    ensures Digit(XorBytes(a, b)[i], k) == (Digit(a[i], k) + Digit(b[i], k)) % 2
  {
    XorDigits(a[i], b[i], k);
  }

  /** Masking twice with the same mask changes nothing. */
  lemma XorBytesInvolution(a: Bytes, b: Bytes)
    requires |a| == |b|
    ensures XorBytes(XorBytes(a, b), b) == a
  {
    forall i | 0 <= i < |a| ensures XorBytes(XorBytes(a, b), b)[i] == a[i] {
      XorInvolution(a[i], b[i]);
    }
  }

  // --- Modulus size ---------------------------------------------------------

  function BitLength(n: nat): nat {
    if n == 0 then 0 else 1 + BitLength(n / 2)
  }

  function ModulusBytes(n: nat): nat {
    (BitLength(n) + 7) / 8
  }

  lemma {:induction false} BitLengthBounds(n: nat)
    requires n > 0
    ensures BitLength(n) >= 1 && Pow(2, BitLength(n) - 1) <= n < Pow(2, BitLength(n))
  {
    if n == 1 {
      assert BitLength(1) == 1 + BitLength(0) && Pow(2, 1) == 2 * Pow(2, 0);
    } else {
      BitLengthBounds(n / 2);
    }
  }

  lemma {:induction false} PowMonotone(b: nat, x: nat, y: nat)
    requires b > 0 && x <= y
    ensures Pow(b, x) <= Pow(b, y)
    decreases y
  {
    if x < y {
      PowMonotone(b, x, y - 1);
      PowPositive(b, y - 1);
      MulMonotone(Pow(b, y - 1), 1, b);
    }
  }

  lemma PowBytes(k: nat)
    ensures Pow(2, 8 * k) == Pow(256, k)
  {
    PowMul(2, 8, k);
    assert Pow(2, 8) == 256;
  }

  /** k octets hold every residue of n, and k - 1 octets hold only residues of n. */
  lemma ModulusBytesBounds(n: nat)
    requires n > 0
    ensures var k := ModulusBytes(n); k >= 1 && Pow(256, k - 1) <= n < Pow(256, k)
  {
    var k := ModulusBytes(n);
    BitLengthBounds(n);
    PowBytes(k);
    PowBytes(k - 1);
    PowMonotone(2, BitLength(n), 8 * k);
    PowMonotone(2, 8 * (k - 1), BitLength(n) - 1);
  }
}
