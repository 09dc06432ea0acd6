/** Bytes and fixed-width little-endian integers, as `rpc/serializer.hpp` shifts them out and in and
    as the structs of `rpc/protocol.hpp` lie in memory. */
module Bytes {
  import opened Modular

  type Byte = x: int | 0 <= x < 256

  function Pow256(n: nat): (p: nat)
    ensures p >= 1
  {
    if n == 0 then 1 else 256 * Pow256(n - 1)
  }

  /** The low n bytes of an integer, least significant first: two's complement for negatives. */
  function ToBytes(v: int, n: nat): (s: seq<Byte>)
    ensures |s| == n
    decreases n
  {
    if n == 0 then [] else [v % 256] + ToBytes(v / 256, n - 1)
  }

  function FromBytes(s: seq<Byte>): nat {
    if s == [] then 0 else s[0] + 256 * FromBytes(s[1..])
  }

  /** An n-byte pattern read as a signed number (C++20 conversion is modular). */
  function AsSigned(u: nat, n: nat): int {
    if 2 * u < Pow256(n) then u else u - Pow256(n)
  }

  predicate FitsUnsigned(v: int, n: nat) {
    0 <= v < Pow256(n)
  }

  predicate FitsSigned(v: int, n: nat) {
    0 <= 2 * v + Pow256(n) && 2 * v < Pow256(n)
  }

  lemma Pow256Values()
    ensures Pow256(1) == 0x100 && Pow256(2) == 0x1_0000
    ensures Pow256(4) == 0x1_0000_0000 && Pow256(8) == 0x1_0000_0000_0000_0000
  {
    assert Pow256(3) == 256 * Pow256(2);
    assert Pow256(5) == 256 * Pow256(4);
    assert Pow256(6) == 256 * Pow256(5);
    assert Pow256(7) == 256 * Pow256(6);
  }

  lemma {:induction false} FromBytesBound(s: seq<Byte>)
    ensures FromBytes(s) < Pow256(|s|)
  {
    if s != [] {
      FromBytesBound(s[1..]);
    }
  }

  lemma Distribute(q: int, p: int, r: int)
    ensures 256 * (q * p + r) == q * (256 * p) + 256 * r
  {
  }

  lemma ModByDigits(v: int, p: nat)
    requires p >= 1
    ensures v % (256 * p) == 256 * ((v / 256) % p) + v % 256
  {
    var h := v / 256;
    var q, r := h / p, h % p;
    assert h == q * p + r;
    Distribute(q, p, r);
    QuotientUnique(v, q, 256 * r + v % 256, 256 * p);
  }

  /** Reading back the low n bytes gives the number modulo 256^n. */
  lemma {:induction false} FromToBytes(v: int, n: nat)
    ensures FromBytes(ToBytes(v, n)) == v % Pow256(n)
    decreases n
  {
    if n > 0 {
      FromToBytes(v / 256, n - 1);
      assert ToBytes(v, n)[1..] == ToBytes(v / 256, n - 1);
      ModByDigits(v, Pow256(n - 1));
    }
  }

  lemma {:induction false} ToFromBytes(s: seq<Byte>)
    ensures ToBytes(FromBytes(s), |s|) == s
  {
    if s != [] {
      var u := FromBytes(s);
      QuotientUnique(u, FromBytes(s[1..]), s[0], 256);
      ToFromBytes(s[1..]);
    }
  }

  lemma UnsignedRoundTrip(v: int, n: nat)
    requires FitsUnsigned(v, n)
    ensures FromBytes(ToBytes(v, n)) == v
  {
    FromToBytes(v, n);
    QuotientUnique(v, 0, v, Pow256(n));
  }

  lemma SignedRoundTrip(v: int, n: nat)
    requires FitsSigned(v, n)
    ensures AsSigned(FromBytes(ToBytes(v, n)), n) == v
  {
    FromToBytes(v, n);
    var p := Pow256(n);
    if v >= 0 {
      QuotientUnique(v, 0, v, p);
    } else {
      QuotientUnique(v, -1, v + p, p);
    }
  }

  /** Numbers that differ by a multiple of 256^n have the same low n bytes. */
  lemma SameLowBytes(u: int, k: int, n: nat)
    ensures ToBytes(u + k * Pow256(n), n) == ToBytes(u, n)
  {
    var v := u + k * Pow256(n);
    FromToBytes(u, n);
    FromToBytes(v, n);
    ModAddMultiple(u, k, Pow256(n));
    ToFromBytes(ToBytes(u, n));
    ToFromBytes(ToBytes(v, n));
  }

  lemma DivDiv(v: int, a: nat, b: nat)
    requires a >= 1 && b >= 1
    ensures a * b >= 1 && (v / a) / b == v / (a * b)
  {
    var h, ra := v / a, v % a;
    var q, rb := h / b, h % b;
    assert a * b >= 1 by { MulMonotone(1, b, a); }
    assert v == (q * b + rb) * a + ra;
    assert (q * b + rb) * a == q * (a * b) + rb * a;
    MulMonotone(rb + 1, b, a);
    MulPlusOne(rb, a);
    assert 0 <= rb * a by { MulMonotone(0, rb, a); }
    QuotientUnique(v, q, rb * a + ra, a * b);
  }

  /** Byte i of the loop form: (value >> 8i) & 0xFF. */
  lemma {:induction false} ByteOfShift(v: int, n: nat, i: nat)
    requires i < n
    ensures ToBytes(v, n)[i] == (v / Pow256(i)) % 256
    decreases n
  {
    if i > 0 {
      ByteOfShift(v / 256, n - 1, i - 1);
      DivDiv(v, 256, Pow256(i - 1));
    }
  }

  /** One more byte or-ed in at its place. */
  lemma {:induction false} FromBytesSnoc(s: seq<Byte>, b: Byte)
    ensures FromBytes(s + [b]) == FromBytes(s) + b * Pow256(|s|)
  {
    if s == [] {
      assert s + [b] == [b];
    } else {
      assert (s + [b])[1..] == s[1..] + [b];
      FromBytesSnoc(s[1..], b);
      assert 256 * (b * Pow256(|s| - 1)) == b * (256 * Pow256(|s| - 1));
    }
  }

  /** memcpy into a buffer. */
  method CopyBytes(buffer: array<Byte>, at: nat, src: seq<Byte>)
    requires at + |src| <= buffer.Length
    modifies buffer
    ensures buffer[..at] == old(buffer[..at])
    ensures buffer[at..at + |src|] == src
    ensures buffer[at + |src|..] == old(buffer[at + |src|..])
  {
    var i := 0;
    while i < |src|
      invariant 0 <= i <= |src|
      invariant buffer[..at] == old(buffer[..at])
      invariant buffer[at..at + i] == src[..i]
      invariant buffer[at + |src|..] == old(buffer[at + |src|..])
    {
      buffer[at + i] := src[i];
      i := i + 1;
    }
  }
}
