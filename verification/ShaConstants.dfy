/**
  The constants of FIPS 180-4, section 5.3: where the initial states of the SHA driver come from, and
  how its sizes go together.
*/
module ShaConstants {
  import opened ShaDriver

  /** `h` holds the first bits, as many as `scale` has, of the fraction of the square root of `p`, whose
      whole part is `a`. */
  predicate IsRootFraction(h: nat, scale: nat, a: nat, p: nat) {
    var x := a * scale + h;
    h < scale && x * x <= p * scale * scale < (x + 1) * (x + 1)
  }

  predicate IsPrime(p: nat) {
    p >= 2 && forall d :: 2 <= d < p ==> p % d != 0
  }

  /** The first sixteen primes. */
  function Primes(): seq<nat> {
    [2, 3, 5, 7, 11, 13, 17, 19, 23, 29, 31, 37, 41, 43, 47, 53]
  }

  function Roots(): seq<nat> {
    [1, 1, 2, 2, 3, 3, 4, 4, 4, 5, 5, 6, 6, 6, 6, 7]
  }

  lemma ListedArePrime(p: nat)
    requires p in Primes()
    ensures IsPrime(p)
  {
    hide IsPrime;
    if p < 20 {
      SmallArePrime(p);
    } else if p < 40 {
      MiddleArePrime(p);
    } else {
      LargeArePrime(p);
    }
  }

  lemma SmallArePrime(p: nat)
    requires p in {2, 3, 5, 7, 11, 13, 17, 19}
    ensures IsPrime(p)
  {
  }

  lemma MiddleArePrime(p: nat)
    requires p in {23, 29, 31, 37}
    ensures IsPrime(p)
  {
  }

  lemma LargeArePrime(p: nat)
    requires p in {41, 43, 47, 53}
    ensures IsPrime(p)
  {
  }

  lemma OthersAreNot(p: nat)
    requires p < 54 && p !in Primes()
    ensures !IsPrime(p)
  {
    if p >= 2 {
      var d := if p % 2 == 0 then 2 else if p % 3 == 0 then 3 else if p % 5 == 0 then 5 else 7;
      assert 2 <= d < p && p % d == 0;
    }
  }

  const TWO32: nat := 0x1_0000_0000
  const TWO64: nat := 0x1_0000_0000_0000_0000

  /** SHA-256: the fractions for the first eight primes, 32 bits of each. */
  lemma Sha256Init(i: nat)
    requires i < 8
    ensures IsRootFraction(Sha256.Init()[i], TWO32, Roots()[i], Primes()[i])
  {
  }

  /** SHA-512: 64 bits of the same. */
  lemma Sha512Init(i: nat)
    requires i < 8
    ensures IsRootFraction(Sha512.Init()[i], TWO64, Roots()[i], Primes()[i])
  {
  }

  /** SHA-384: 64 bits for the ninth to sixteenth primes; SHA-224: the low halves of those. */
  lemma Sha384Init(i: nat)
    requires i < 8
    ensures IsRootFraction(Sha384.Init()[i], TWO64, Roots()[8 + i], Primes()[8 + i])
    ensures Sha224.Init()[i] == Sha384.Init()[i] % TWO32
  {
  }

  /** SHA-1: the bytes 01, 23, ... ef in memory order, then back again, then c3d2e1f0, whose bytes are the
      swapped pairs of f0, e1, d2, c3. */
  lemma Sha1Init()
    ensures
      var h := Sha1.Init();
      && |h| == 5
      && Memory(h[0], 4) == [0x01, 0x23, 0x45, 0x67] && Memory(h[1], 4) == [0x89, 0xab, 0xcd, 0xef]
      && Memory(h[2], 4) == [0xfe, 0xdc, 0xba, 0x98] && Memory(h[3], 4) == [0x76, 0x54, 0x32, 0x10]
      && Memory(h[4], 4) == [0xf0, 0xe1, 0xd2, 0xc3]
  {
    hide Memory;
    FourOf(0x67452301, 0x67, 0x45, 0x23, 0x01);
    FourOf(0xefcdab89, 0xef, 0xcd, 0xab, 0x89);
    FourOf(0x98badcfe, 0x98, 0xba, 0xdc, 0xfe);
    FourOf(0x10325476, 0x10, 0x32, 0x54, 0x76);
    FourOf(0xc3d2e1f0, 0xc3, 0xd2, 0xe1, 0xf0);
  }

  lemma FourOf(v: nat, a: nat, b: nat, c: nat, d: nat)
    requires a < 256 && b < 256 && c < 256 && d < 256
    requires v == d + 256 * (c + 256 * (b + 256 * a))
    ensures Memory(v, 4) == [d, c, b, a]
  {
    hide Memory;
    FourInMemory(d, c, b, a);
  }

  /** A block is sixteen words, the length field two; the state is as long as its initial value; and the
      digests have 160, 224, 256, 384 and 512 bits. */
  lemma SizesAgree(t: ShaType)
    ensures t.SizesOf().block == 16 * t.Width() && t.SizesOf().pad == 2 * t.Width()
    ensures |t.Init()| == t.StateWords() >= t.DigestWords()
    ensures
      8 * t.DigestWords() * t.Width() ==
      match t
      case Sha1 => 160
      case Sha224 => 224
      case Sha256 => 256
      case Sha384 => 384
      case Sha512 => 512
  {
  }
}
