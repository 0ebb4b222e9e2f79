/**
  The SHA driver: whole blocks straight from the message, then one or two more from a local buffer,
  which together are the blocks of the padded message; and the byte order of what it stores.

  The compression functions are assembly and a parameter here.  Words are numbers; where the C code
  combines disjoint bit fields with `|`, the model adds them.
*/
module ShaDriver {
  import opened Basics
  import opened ShaPad

  // ------------------------------------------------------------------ byte order

  function Bswap4(v: nat): (r: nat)
    requires v < 0x1_0000_0000
    ensures r < 0x1_0000_0000
  {
    v / 0x100_0000 + v / 0x1_0000 % 256 * 0x100 + v / 0x100 % 256 * 0x1_0000 + v % 256 * 0x100_0000
  }

  function Bswap8(v: nat): (r: nat)
    requires v < 0x1_0000_0000_0000_0000
    ensures r < 0x1_0000_0000_0000_0000
  {
    Bswap4(v % 0x1_0000_0000) * 0x1_0000_0000 + Bswap4(v / 0x1_0000_0000)
  }

  /** The `n` bytes of a word in memory: least significant first. */
  function Memory(v: nat, n: nat): (s: seq<Byte>)
    ensures |s| == n
  {
    if n == 0 then [] else [v % 256] + Memory(v / 256, n - 1)
  }

  lemma FourBytes(v: nat, a: nat, b: nat, c: nat, d: nat)
    requires v < 0x1_0000_0000
    requires a == v / 0x100_0000 && b == v / 0x1_0000 % 256 && c == v / 0x100 % 256 && d == v % 256
    ensures v == d + 256 * (c + 256 * (b + 256 * a)) && a < 256
  {
    TwoSteps(v);
    ThreeSteps(v);
    var x := v / 0x100;
    var y := x / 0x100;
    assert v == 256 * x + d && x == 256 * y + c && y == 256 * a + b;
  }

  lemma TwoSteps(v: nat)
    ensures v / 0x1_0000 == v / 0x100 / 0x100
  {
  }

  lemma ThreeSteps(v: nat)
    ensures v / 0x100_0000 == v / 0x100 / 0x100 / 0x100
  {
  }

  lemma Bswap4Stores(v: nat)
    requires v < 0x1_0000_0000
    ensures Memory(Bswap4(v), 4) == BigEndian(v, 4)
  {
    hide Memory, BigEndian;
    var a, b, c, d := v / 0x100_0000, v / 0x1_0000 % 256, v / 0x100 % 256, v % 256;
    assert Bswap4(v) == a + 256 * (b + 256 * (c + 256 * d));
    FourBytes(v, a, b, c, d);
    FourInMemory(a, b, c, d);
    FourBigEndian(a, b, c, d);
  }

  // One byte of a word.

  lemma MemoryStep(v: nat, n: nat)
    ensures Memory(v, 0) == [] && Memory(v, n + 1) == [v % 256] + Memory(v / 256, n)
  {
  }

  lemma BigEndianStep(v: nat, n: nat)
    ensures BigEndian(v, 0) == [] && BigEndian(v, n + 1) == BigEndian(v / 256, n) + [v % 256]
  {
  }

  lemma FourInMemory(a: Byte, b: Byte, c: Byte, d: Byte)
    ensures Memory(a + 256 * (b + 256 * (c + 256 * d)), 4) == [a, b, c, d]
  {
    hide Memory;
    MemoryStep(a + 256 * (b + 256 * (c + 256 * d)), 3);
    MemoryStep(b + 256 * (c + 256 * d), 2);
    MemoryStep(c + 256 * d, 1);
    MemoryStep(d, 0);
    MemoryStep(0, 0);
  }

  lemma FourBigEndian(a: Byte, b: Byte, c: Byte, d: Byte)
    ensures BigEndian(d + 256 * (c + 256 * (b + 256 * a)), 4) == [a, b, c, d]
  {
    hide BigEndian;
    BigEndianStep(d + 256 * (c + 256 * (b + 256 * a)), 3);
    BigEndianStep(c + 256 * (b + 256 * a), 2);
    BigEndianStep(b + 256 * a, 1);
    BigEndianStep(a, 0);
    BigEndianStep(0, 0);
  }

  /** The lowest byte of a word in two parts, and what is above it. */
  lemma LowestByte(high: nat, low: nat, p: nat)
    ensures (high * (256 * p) + low) / 256 == high * p + low / 256
    ensures (high * (256 * p) + low) % 256 == low % 256
  {
    assert high * (256 * p) == 256 * (high * p);
    DivUnique(high * (256 * p) + low, 256, high * p + low / 256, low % 256);
  }

  lemma Pow256Step(n: nat)
    ensures Pow256(0) == 1 && Pow256(n + 1) == 256 * Pow256(n)
  {
  }

  lemma BelowPower(low: nat, p: nat)
    requires low < 256 * p
    ensures low / 256 < p
  {
  }

  lemma {:induction false} MemorySplit(high: nat, low: nat, n: nat, m: nat)
    requires low < Pow256(n)
    ensures Memory(high * Pow256(n) + low, n + m) == Memory(low, n) + Memory(high, m)
  {
    hide Memory, Pow256;
    if n == 0 {
      Pow256Step(0);
      MemoryStep(low, 0);
    } else {
      Pow256Step(n - 1);
      LowestByte(high, low, Pow256(n - 1));
      BelowPower(low, Pow256(n - 1));
      MemorySplit(high, low / 256, n - 1, m);
      MemoryStep(high * Pow256(n) + low, n - 1 + m);
      MemoryStep(low, n - 1);
    }
  }

  lemma {:induction false} BigEndianSplit(high: nat, low: nat, n: nat, m: nat)
    requires low < Pow256(n)
    ensures BigEndian(high * Pow256(n) + low, m + n) == BigEndian(high, m) + BigEndian(low, n)
  {
    hide BigEndian, Pow256;
    if n == 0 {
      Pow256Step(0);
      BigEndianStep(low, 0);
    } else {
      Pow256Step(n - 1);
      LowestByte(high, low, Pow256(n - 1));
      BelowPower(low, Pow256(n - 1));
      BigEndianSplit(high, low / 256, n - 1, m);
      BigEndianStep(high * Pow256(n) + low, m + n - 1);
      BigEndianStep(low, n - 1);
    }
  }

  lemma Pow256Of4()
    ensures Pow256(4) == 0x1_0000_0000
  {
  }

  lemma Bswap8Stores(v: nat)
    requires v < 0x1_0000_0000_0000_0000
    ensures Memory(Bswap8(v), 8) == BigEndian(v, 8)
  {
    hide Bswap4, Memory, BigEndian, Pow256;
    var high, low := v / 0x1_0000_0000, v % 0x1_0000_0000;
    Pow256Of4();
    Bswap4Stores(high);
    Bswap4Stores(low);
    MemorySplit(Bswap4(low), Bswap4(high), 4, 4);
    BigEndianSplit(high, low, 4, 4);
  }

  /** A word written to memory. */
  method StoreBytes(dst: array<Byte>, at: nat, bytes: seq<Byte>)
    requires at + |bytes| <= dst.Length
    modifies dst
    ensures dst[..] == old(dst[..at]) + bytes + old(dst[at + |bytes|..])
  {
    forall i | 0 <= i < |bytes| {
      dst[at + i] := bytes[i];
    }
  }

  /** store8_be */
  method Store8Be(cb: array<Byte>, at: nat, val: nat)
    requires at + 8 <= cb.Length && val < 0x1_0000_0000_0000_0000
    modifies cb
    ensures cb[..] == old(cb[..at]) + BigEndian(val, 8) + old(cb[at + 8..])
  {
    hide Bswap8, Memory, BigEndian;
    Bswap8Stores(val);
    StoreBytes(cb, at, Memory(Bswap8(val), 8));
  }

  // ------------------------------------------------------------------ hashing

  /** The digest after the blocks of `p`, first to last. */
  function Folded<D>(f: (seq<Byte>, D) -> D, h: D, p: seq<Byte>, block: nat): D
    requires block > 0
  {
    if |p| < block then h
    else f(p[|p| - block..], Folded(f, h, p[..|p| - block], block))
  }

  lemma FoldedMore<D>(f: (seq<Byte>, D) -> D, h: D, p: seq<Byte>, b: seq<Byte>)
    requires |b| > 0
    ensures Folded(f, h, p + b, |b|) == f(b, Folded(f, h, p, |b|))
  {
    assert (p + b)[..|p|] == p && (p + b)[|p|..] == b;
  }

  /** What is left of the message and the rest of the first block of the buffer. */
  function Tail(m: seq<Byte>, z: Sizes): seq<Byte>
    requires z.Valid()
  {
    m[|m| - |m| % z.block..] + [0x80] + Zeros(z.block - 1 - |m| % z.block)
  }

  /** The last block: the length after zeros, or after the end of the message. */
  function WithLength(head: seq<Byte>, n: nat, z: Sizes): seq<Byte>
    requires z.Valid() && |head| == z.block
  {
    head[..z.block - 8] + BigEndian(8 * n % 0x1_0000_0000_0000_0000, 8)
  }

  /** The message in its encoding ends in one or two blocks of the buffer. */
  lemma EncodedBlocks(m: seq<Byte>, z: Sizes)
    requires z.Valid()
    ensures
      var whole, r := m[..|m| - |m| % z.block], |m| % z.block;
      Encoded(m, z)
      == if r >= z.block - z.pad
         then whole + Tail(m, z) + WithLength(Zeros(z.block), |m|, z)
         else whole + WithLength(Tail(m, z), |m|, z)
  {
    hide BigEndian;
    var r := |m| % z.block;
    var whole, rest := m[..|m| - r], m[|m| - r..];
    assert m == whole + rest;
    ZeroCountIs(|m|, z);
    var k := ZeroCount(|m|, z) + (z.pad - 8);
    if r >= z.block - z.pad {
      assert Zeros(k) == Zeros(z.block - 1 - r) + Zeros(z.block)[..z.block - 8];
    } else {
      assert Tail(m, z)[..z.block - 8] == rest + [0x80] + Zeros(k);
    }
  }

  lemma ZeroCountIs(n: nat, z: Sizes)
    requires z.Valid()
    ensures
      var r := n % z.block;
      ZeroCount(n, z) == if r >= z.block - z.pad then 2 * z.block - 1 - z.pad - r else z.block - 1 - z.pad - r
  {
  }

  /** var_memcpy */
  method VarMemcpy(dst: array<Byte>, src: seq<Byte>, at: nat, len: nat)
    requires len <= dst.Length && at + len <= |src|
    modifies dst
    ensures forall j :: 0 <= j < len ==> dst[j] == src[at + j]
    ensures forall j :: len <= j < dst.Length ==> dst[j] == old(dst[j])
  {
    for i := 0 to len
      invariant forall j :: 0 <= j < i ==> dst[j] == src[at + j]
      invariant forall j :: i <= j < dst.Length ==> dst[j] == old(dst[j])
    {
      dst[i] := src[at + i];
    }
  }

  method Clear(cb: array<Byte>)
    modifies cb
    ensures cb[..] == Zeros(cb.Length)
  {
    forall i | 0 <= i < cb.Length {
      cb[i] := 0;
    }
  }

  /** The loop over the whole blocks of the message. */
  method WholeBlocks<D>(f: (seq<Byte>, D) -> D, init: D, data: seq<Byte>, length: nat, block: nat)
    returns (ld: D, idx: nat)
    requires block > 0 && length <= |data|
    ensures idx == length - length % block && ld == Folded(f, init, data[..idx], block)
  {
    hide Folded;
    ld := init;
    idx := 0;
    FoldedNothing(f, init, data, block);
    while idx + block <= length
      invariant idx % block == 0 && idx <= length
      invariant ld == Folded(f, init, data[..idx], block)
    {
      var b := data[idx..idx + block];
      FoldedMore(f, init, data[..idx], b);
      assert data[..idx] + b == data[..idx + block];
      NextMultiple(idx, block);
      ld := f(b, ld);
      idx := idx + block;
    }
    LastMultiple(idx, length, block);
  }

  lemma FoldedNothing<D>(f: (seq<Byte>, D) -> D, h: D, p: seq<Byte>, block: nat)
    requires block > 0
    ensures Folded(f, h, p[..0], block) == h
  {
  }

  lemma NextMultiple(n: nat, block: nat)
    requires block > 0 && n % block == 0
    ensures (n + block) % block == 0
  {
    DivUnique(n + block, block, n / block + 1, 0);
  }

  lemma LastMultiple(n: nat, length: nat, block: nat)
    requires block > 0 && n % block == 0 && n <= length < n + block
    ensures n == length - length % block
  {
    DivUnique(length, block, n / block, length - n);
  }

  /** The remainder of the message and the byte 0x80 in the cleared buffer. */
  method FillTail(cb: array<Byte>, data: seq<Byte>, length: nat, idx: nat, z: Sizes)
    requires z.Valid() && cb.Length == 128 && length <= |data| && idx == length - length % z.block
    modifies cb
    ensures cb[..z.block] == Tail(data[..length], z)
  {
    hide Tail;
    var r := length - idx;
    Clear(cb);
    VarMemcpy(cb, data, idx, r);
    cb[r] := 0x80;
    TailIs(cb[..z.block], data[..length], z);
  }

  lemma TailPieces(s: seq<Byte>, rest: seq<Byte>)
    requires |rest| < |s| && s[|rest|] == 0x80
    requires forall j :: 0 <= j < |rest| ==> s[j] == rest[j]
    requires forall j :: |rest| < j < |s| ==> s[j] == 0
    ensures s == rest + [0x80] + Zeros(|s| - 1 - |rest|)
  {
  }

  lemma TailIs(s: seq<Byte>, m: seq<Byte>, z: Sizes)
    requires z.Valid() && |s| == z.block
    requires
      var r := |m| % z.block;
      && (forall j :: 0 <= j < r ==> s[j] == m[|m| - r + j])
      && s[r] == 0x80
      && forall j :: r < j < z.block ==> s[j] == 0
    ensures s == Tail(m, z)
  {
    TailPieces(s, m[|m| - |m| % z.block..]);
  }

  /** The length goes into the last eight bytes of the block. */
  method PutLength(cb: array<Byte>, length: nat, z: Sizes)
    requires z.Valid() && cb.Length == 128
    modifies cb
    ensures cb[..z.block] == WithLength(old(cb[..z.block]), length, z)
  {
    hide BigEndian;
    Store8Be(cb, z.block - 8, length * 8 % 0x1_0000_0000_0000_0000);
  }

  /** sha_generic up to the final digest, for any compression function: it folds it over the blocks
      of the encoded message. */
  method ShaGeneric<D>(f: (seq<Byte>, D) -> D, init: D, data: seq<Byte>, length: nat, z: Sizes)
    returns (ld: D)
    requires z.Valid() && length <= |data|
    ensures ld == Folded(f, init, Encoded(data[..length], z), z.block)
  {
    hide Folded, Encoded, Tail, WithLength, BigEndian;
    ghost var m := data[..length];
    var cb := new Byte[128];
    var idx;
    ld, idx := WholeBlocks(f, init, data, length, z.block);
    ghost var whole := m[..idx];
    assert whole == data[..idx];
    var r := length % z.block;
    FillTail(cb, data, length, idx, z);
    EncodedBlocks(m, z);
    if r >= z.block - z.pad {
      FoldedMore(f, init, whole, cb[..z.block]);
      ld := f(cb[..z.block], ld);
      whole := whole + cb[..z.block];
      Clear(cb);
      assert cb[..z.block] == Zeros(z.block);
    }
    PutLength(cb, length, z);
    FoldedMore(f, init, whole, cb[..z.block]);
    ld := f(cb[..z.block], ld);
  }

  // ------------------------------------------------------------------ digests

  datatype ShaType = Sha1 | Sha224 | Sha256 | Sha384 | Sha512
  {
    function SizesOf(): (z: Sizes)
      ensures z.Valid()
    {
      if Sha384? || Sha512? then Sizes(128, 16) else Sizes(64, 8)
    }

    /** Bytes of a word, words of the state, and words of it in the digest. */
    function Width(): nat {
      if Sha384? || Sha512? then 8 else 4
    }

    function StateWords(): nat {
      if Sha1? then 5 else 8
    }

    function DigestWords(): nat {
      match this
      case Sha1 => 5
      case Sha224 => 7
      case Sha384 => 6
      case _ => 8
    }

    /** sha_generic_init */
    function Init(): seq<nat> {
      match this
      case Sha1 => [0x67452301, 0xefcdab89, 0x98badcfe, 0x10325476, 0xc3d2e1f0]
      case Sha224 =>
        [0xc1059ed8, 0x367cd507, 0x3070dd17, 0xf70e5939, 0xffc00b31, 0x68581511, 0x64f98fa7, 0xbefa4fa4]
      case Sha256 =>
        [0x6a09e667, 0xbb67ae85, 0x3c6ef372, 0xa54ff53a, 0x510e527f, 0x9b05688c, 0x1f83d9ab, 0x5be0cd19]
      case Sha384 =>
        [0xcbbb9d5dc1059ed8, 0x629a292a367cd507, 0x9159015a3070dd17, 0x152fecd8f70e5939,
         0x67332667ffc00b31, 0x8eb44a8768581511, 0xdb0c2e0d64f98fa7, 0x47b5481dbefa4fa4]
      case Sha512 =>
        [0x6a09e667f3bcc908, 0xbb67ae8584caa73b, 0x3c6ef372fe94f82b, 0xa54ff53a5f1d36f1,
         0x510e527fade682d1, 0x9b05688c2b3e6c1f, 0x1f83d9abfb41bd6b, 0x5be0cd19137e2179]
    }

    predicate IsState(h: seq<nat>) {
      |h| == StateWords() && forall i :: 0 <= i < |h| ==> h[i] < Pow256(Width())
    }
  }

  /** A compression function makes states of states. */
  ghost predicate Compresses(t: ShaType, f: (seq<Byte>, seq<nat>) -> seq<nat>) {
    forall b, h :: t.IsState(h) ==> t.IsState(f(b, h))
  }

  lemma {:induction false} FoldedIsState(t: ShaType, f: (seq<Byte>, seq<nat>) -> seq<nat>, h: seq<nat>,
                                         p: seq<Byte>, block: nat)
    requires Compresses(t, f) && t.IsState(h) && block > 0
    ensures t.IsState(Folded(f, h, p, block))
    decreases |p|
  {
    if |p| >= block {
      FoldedIsState(t, f, h, p[..|p| - block], block);
    }
  }

  /** The words of a digest one after the other, most significant byte first. */
  function Digest(ws: seq<nat>, width: nat): (s: seq<Byte>)
    ensures |s| == |ws| * width
  {
    if ws == [] then [] else Digest(ws[..|ws| - 1], width) + BigEndian(ws[|ws| - 1], width)
  }

  lemma DigestMore(ws: seq<nat>, i: nat, width: nat)
    requires i < |ws|
    ensures Digest(ws[..i + 1], width) == Digest(ws[..i], width) + BigEndian(ws[i], width)
  {
    hide BigEndian;
    assert ws[..i + 1][..i] == ws[..i];
  }

  /** Word `i` of the digest, most significant byte first. */
  lemma {:induction false} DigestAt(ws: seq<nat>, width: nat, i: nat)
    requires i < |ws| && ws[i] < Pow256(width)
    ensures i * width + width <= |Digest(ws, width)|
    ensures Number(Digest(ws, width)[i * width..i * width + width]) == ws[i]
  {
    hide BigEndian, Number, Pow256;
    var n := |ws| - 1;
    var d, w := Digest(ws[..n], width), BigEndian(ws[n], width);
    assert Digest(ws, width) == d + w;
    if i < n {
      DigestAt(ws[..n], width, i);
      assert (d + w)[i * width..i * width + width] == d[i * width..i * width + width];
    } else {
      NumberOfBigEndian(ws[i], width);
      assert (d + w)[n * width..n * width + width] == w;
    }
  }

  /** The bytes `d` at the start of a buffer. */
  predicate Copied(now: seq<Byte>, was: seq<Byte>, d: seq<Byte>) {
    |d| <= |was| && now == d + was[|d|..]
  }

  lemma CopiedMore(now: seq<Byte>, was: seq<Byte>, ws: seq<nat>, i: nat, width: nat, next: seq<Byte>)
    requires i < |ws| && Copied(now, was, Digest(ws[..i], width)) && i * width + width <= |now|
    requires next == now[..i * width] + BigEndian(ws[i], width) + now[i * width + width..]
    ensures Copied(next, was, Digest(ws[..i + 1], width))
  {
    hide BigEndian, Digest;
    DigestMore(ws, i, width);
    var d, e := Digest(ws[..i], width), BigEndian(ws[i], width);
    assert |d| == i * width;
    assert next == (d + e) + was[|d + e|..];
  }

  lemma NoDigest(now: seq<Byte>, ws: seq<nat>, width: nat)
    ensures Copied(now, now, Digest(ws[..0], width))
  {
  }

  /** `outp[i] = bswap4(inp[i])` */
  method CopyWord4(dst: array<Byte>, src: seq<nat>, i: nat, ghost was: seq<Byte>)
    requires i < |src| && src[i] < 0x1_0000_0000 && 4 * i + 4 <= dst.Length
    requires Copied(dst[..], was, Digest(src[..i], 4))
    modifies dst
    ensures Copied(dst[..], was, Digest(src[..i + 1], 4))
  {
    hide *;
    ghost var before := dst[..];
    Bswap4Stores(src[i]);
    StoreBytes(dst, 4 * i, Memory(Bswap4(src[i]), 4));
    CopiedMore(before, was, src, i, 4, dst[..]);
  }

  /** copy_bswap4_array */
  method CopyBswap4(dst: array<Byte>, src: seq<nat>, num: nat)
    requires num <= |src| && 4 * num <= dst.Length
    requires forall i :: 0 <= i < num ==> src[i] < 0x1_0000_0000
    modifies dst
    ensures Copied(dst[..], old(dst[..]), Digest(src[..num], 4))
  {
    hide *;
    NoDigest(dst[..], src, 4);
    for i := 0 to num
      invariant Copied(dst[..], old(dst[..]), Digest(src[..i], 4))
    {
      CopyWord4(dst, src, i, old(dst[..]));
    }
  }

  /** `outp[i] = bswap8(inp[i])` */
  method CopyWord8(dst: array<Byte>, src: seq<nat>, i: nat, ghost was: seq<Byte>)
    requires i < |src| && src[i] < 0x1_0000_0000_0000_0000 && 8 * i + 8 <= dst.Length
    requires Copied(dst[..], was, Digest(src[..i], 8))
    modifies dst
    ensures Copied(dst[..], was, Digest(src[..i + 1], 8))
  {
    hide *;
    ghost var before := dst[..];
    Bswap8Stores(src[i]);
    StoreBytes(dst, 8 * i, Memory(Bswap8(src[i]), 8));
    CopiedMore(before, was, src, i, 8, dst[..]);
  }

  /** copy_bswap8_array */
  method CopyBswap8(dst: array<Byte>, src: seq<nat>, num: nat)
    requires num <= |src| && 8 * num <= dst.Length
    requires forall i :: 0 <= i < num ==> src[i] < 0x1_0000_0000_0000_0000
    modifies dst
    ensures Copied(dst[..], old(dst[..]), Digest(src[..num], 8))
  {
    hide *;
    NoDigest(dst[..], src, 8);
    for i := 0 to num
      invariant Copied(dst[..], old(dst[..]), Digest(src[..i], 8))
    {
      CopyWord8(dst, src, i, old(dst[..]));
    }
  }

  /** sha_generic: the digest of the padded message of FIPS 180-4, for messages below 2^61 bytes. */
  method Sha(t: ShaType, f: (seq<Byte>, seq<nat>) -> seq<nat>, data: seq<Byte>, length: nat,
             digest: array<Byte>)
    requires Compresses(t, f) && length <= |data|
    requires t.DigestWords() * t.Width() <= digest.Length
    modifies digest
    ensures
      length < 0x2000_0000_0000_0000 ==>
      var h := Folded(f, t.Init(), Padded(data[..length], t.SizesOf()), t.SizesOf().block);
      && |h| >= t.DigestWords()
      && Copied(digest[..], old(digest[..]), Digest(h[..t.DigestWords()], t.Width()))
  {
    hide Folded, Encoded, Padded, Digest, BigEndian, Copied;
    var z := t.SizesOf();
    var ld := ShaGeneric(f, t.Init(), data, length, z);
    InitIsState(t);
    FoldedIsState(t, f, t.Init(), Encoded(data[..length], z), z.block);
    if length < 0x2000_0000_0000_0000 {
      EncodedIsPadded(data[..length], z);
    }
    WidthBound(t);
    if t.Sha384? || t.Sha512? {
      CopyBswap8(digest, ld, t.DigestWords());
    } else {
      CopyBswap4(digest, ld, t.DigestWords());
    }
  }

  lemma InitIsState(t: ShaType)
    ensures t.IsState(t.Init())
  {
    Pow256Of4();
    Pow256Of8();
  }

  lemma WidthBound(t: ShaType)
    ensures Pow256(t.Width()) == if t.Width() == 4 then 0x1_0000_0000 else 0x1_0000_0000_0000_0000
  {
    Pow256Of4();
    Pow256Of8();
  }
}
