/**
  The padding of FIPS 180-4, sections 5.1.1 and 5.1.2, over bytes: its length, that it is minimal and
  injective, and how it falls into blocks.
*/
module ShaPad {
  import opened Basics

  /** Block size and size of the length field: of SHA-1, SHA-224 and SHA-256, or of SHA-384 and
      SHA-512. */
  datatype Sizes = Sizes(block: nat, pad: nat)
  {
    predicate Valid() {
      (block == 64 && pad == 8) || (block == 128 && pad == 16)
    }
  }

  function Zeros(n: nat): (s: seq<Byte>)
    ensures |s| == n && forall i :: 0 <= i < n ==> s[i] == 0
  {
    seq(n, _ => 0)
  }

  function Pow256(n: nat): (p: nat)
    ensures p > 0
  {
    if n == 0 then 1 else 256 * Pow256(n - 1)
  }

  /** The low `n` bytes of a number, most significant first. */
  function BigEndian(v: nat, n: nat): (s: seq<Byte>)
    ensures |s| == n
  {
    if n == 0 then [] else BigEndian(v / 256, n - 1) + [v % 256]
  }

  function Number(s: seq<Byte>): nat {
    if s == [] then 0 else 256 * Number(s[..|s| - 1]) + s[|s| - 1]
  }

  lemma {:induction false} NumberOfBigEndian(v: nat, n: nat)
    requires v < Pow256(n)
    ensures Number(BigEndian(v, n)) == v
  {
    if n > 0 {
      NumberOfBigEndian(v / 256, n - 1);
    }
  }

  lemma {:induction false} BigEndianOfZero(n: nat)
    ensures BigEndian(0, n) == Zeros(n)
  {
    if n > 0 {
      BigEndianOfZero(n - 1);
      assert Zeros(n) == Zeros(n - 1) + [0];
    }
  }

  /** Leading bytes of a number that does not need them are zero. */
  lemma {:induction false} BigEndianShort(v: nat, n: nat, m: nat)
    requires v < Pow256(n)
    ensures BigEndian(v, m + n) == Zeros(m) + BigEndian(v, n)
  {
    if n == 0 {
      BigEndianOfZero(m);
    } else {
      BigEndianShort(v / 256, n - 1, m);
    }
  }

  lemma {:induction false} BigEndianModulo(v: nat, n: nat)
    ensures BigEndian(v % Pow256(n), n) == BigEndian(v, n)
  {
    if n > 0 {
      var p := Pow256(n - 1);
      BigEndianModulo(v / 256, n - 1);
      ModOfMultiple(v, p);
    }
  }

  lemma ModOfMultiple(v: nat, p: nat)
    requires p > 0
    ensures v % (256 * p) / 256 == v / 256 % p
    ensures v % (256 * p) % 256 == v % 256
  {
    var q, r := v / 256 / p, v / 256 % p;
    assert v / 256 == p * q + r;
    assert v == 256 * p * q + (256 * r + v % 256);
    DivUnique(v, 256 * p, q, 256 * r + v % 256);
  }

  // ------------------------------------------------------------------ padding

  lemma Completes(n: nat, block: nat, pad: nat, k: nat)
    requires pad < block && k == (2 * block - 1 - pad - n % block) % block
    ensures k < block && (n + 1 + k + pad) % block == 0
  {
    var a := 2 * block - 1 - pad - n % block;
    assert a == block * (a / block) + k;
    assert n == block * (n / block) + n % block;
    var q := n / block + 2 - a / block;
    assert n + 1 + k + pad == block * q by {
      assert block * q == block * (n / block) + block * 2 - block * (a / block);
    }
    MulGap(block, q);
    DivUnique(n + 1 + k + pad, block, q, 0);
  }

  /** How many zero bytes follow the byte 0x80. */
  function ZeroCount(n: nat, z: Sizes): (k: nat)
    requires z.Valid()
    ensures k < z.block && (n + 1 + k + z.pad) % z.block == 0
  {
    Completes(n, z.block, z.pad, (2 * z.block - 1 - z.pad - n % z.block) % z.block);
    (2 * z.block - 1 - z.pad - n % z.block) % z.block
  }

  /** Sections 5.1.1 and 5.1.2 of FIPS 180-4. */
  function Padded(m: seq<Byte>, z: Sizes): seq<Byte>
    requires z.Valid()
  {
    m + [0x80] + Zeros(ZeroCount(|m|, z)) + BigEndian(8 * |m|, z.pad)
  }

  /** Two counts that both complete a multiple differ by a multiple. */
  lemma CompletionsDiffer(a: nat, j: nat, k: nat)
    ensures (a + j) % 64 == 0 && (a + k) % 64 == 0 && j < 64 ==> j <= k
    ensures (a + j) % 128 == 0 && (a + k) % 128 == 0 && j < 128 ==> j <= k
  {
  }

  /** No shorter padding reaches a whole number of blocks. */
  lemma PaddingIsMinimal(m: seq<Byte>, z: Sizes, k: nat)
    requires z.Valid() && (|m| + 1 + k + z.pad) % z.block == 0
    ensures |Padded(m, z)| % z.block == 0
    ensures |Padded(m, z)| <= |m| + 1 + k + z.pad
  {
    var j := ZeroCount(|m|, z);
    hide ZeroCount;
    var a := |m| + 1 + z.pad;
    CompletionsDiffer(a, j, k);
    assert |Padded(m, z)| == a + j;
    if z.block == 64 {
      assert (a + k) % 64 == 0 && (a + j) % 64 == 0;
    } else {
      assert (a + k) % 128 == 0 && (a + j) % 128 == 0;
    }
  }

  /** Messages up to the length FIPS 180-4 allows are told apart by their padded forms. */
  lemma PaddingIsInjective(a: seq<Byte>, b: seq<Byte>, z: Sizes)
    requires z.Valid() && 8 * |a| < Pow256(z.pad) && 8 * |b| < Pow256(z.pad)
    requires Padded(a, z) == Padded(b, z)
    ensures a == b
  {
    hide BigEndian, Number, Pow256, ZeroCount;
    var p := Padded(a, z);
    var tail := p[|p| - z.pad..];
    assert tail == BigEndian(8 * |a|, z.pad) == BigEndian(8 * |b|, z.pad);
    NumberOfBigEndian(8 * |a|, z.pad);
    NumberOfBigEndian(8 * |b|, z.pad);
    assert a == p[..|a|] && b == p[..|b|];
  }

  /** Byte by byte: the message, the bit 1, zero bits up to the length field, and in that field, most
      significant byte first, the number of bits of the message. */
  lemma PaddedForm(m: seq<Byte>, z: Sizes)
    requires z.Valid() && 8 * |m| < Pow256(z.pad)
    ensures
      var p := Padded(m, z);
      var n := |p| - z.pad;
      && |m| < n && p[..|m|] == m && p[|m|] == 0x80
      && (forall i :: |m| < i < n ==> p[i] == 0)
      && Number(p[n..]) == 8 * |m|
  {
    hide BigEndian, Number, Pow256, ZeroCount;
    NumberOfBigEndian(8 * |m|, z.pad);
    var p := Padded(m, z);
    assert p[|p| - z.pad..] == BigEndian(8 * |m|, z.pad);
  }

  /** What the driver encodes: the bit length in 64 bits, the rest of the length field zero. */
  function Encoded(m: seq<Byte>, z: Sizes): seq<Byte>
    requires z.Valid()
  {
    m + [0x80] + Zeros(ZeroCount(|m|, z) + (z.pad - 8)) + BigEndian(8 * |m| % 0x1_0000_0000_0000_0000, 8)
  }

  lemma Pow256Of8()
    ensures Pow256(8) == 0x1_0000_0000_0000_0000
  {
    assert Pow256(4) == 0x1_0000_0000;
  }

  /** That is the padding of the standard, for the 64-bit length field always and for the 128-bit one
      if and only if the message is shorter than 2^61 bytes. */
  lemma EncodedIsPadded(m: seq<Byte>, z: Sizes)
    requires z.Valid() && |m| < 0x1_0000_0000_0000_0000
    ensures Encoded(m, z) == Padded(m, z) <==> (z.pad == 8 || |m| < 0x2000_0000_0000_0000)
  {
    hide BigEndian, ZeroCount, Pow256;
    var n, k := 8 * |m|, ZeroCount(|m|, z);
    var head, low := m + [0x80] + Zeros(k), n % 0x1_0000_0000_0000_0000;
    Pow256Of8();
    BigEndianModulo(n, 8);
    if z.pad == 16 {
      BigEndianShort(low, 8, 8);
      Pow256Of16();
      assert Zeros(k + 8) == Zeros(k) + Zeros(8);
      assert Encoded(m, z) == head + BigEndian(low, 16);
      SameEnding(head, n, low, 16);
    } else {
      assert Zeros(k + 0) == Zeros(k);
    }
  }

  lemma SameEnding(head: seq<Byte>, a: nat, b: nat, n: nat)
    requires a < Pow256(n) && b < Pow256(n)
    ensures head + BigEndian(a, n) == head + BigEndian(b, n) <==> a == b
  {
    hide BigEndian, Pow256;
    NumberOfBigEndian(a, n);
    NumberOfBigEndian(b, n);
    assert (head + BigEndian(a, n))[|head|..] == BigEndian(a, n);
    assert (head + BigEndian(b, n))[|head|..] == BigEndian(b, n);
  }

  lemma Pow256Of16()
    ensures Pow256(16) == 0x1_0000_0000_0000_0000 * 0x1_0000_0000_0000_0000
  {
    assert Pow256(8) == 0x1_0000_0000_0000_0000 by { Pow256Of8(); }
    assert Pow256(12) == 0x1_0000_0000 * Pow256(8);
    assert Pow256(16) == 0x1_0000_0000 * Pow256(12);
  }
}
