/**
  DES and 3DES in CBC mode and DOCSIS-DES (CBC with a CFB tail) over byte buffers, which may be the
  same buffer for input and output.  The round function is a parameter throughout.
*/
module DesModes {
  import opened DesBlock
  import opened DesBytes

  /** One key schedule, or the three of 3DES. */
  datatype Key = Single(ks: Schedule) | Triple(ks1: Schedule, ks2: Schedule, ks3: Schedule)

  function Encrypt(f: Round, k: Key, x: bv64): bv64 {
    match k
    case Single(ks) => Block(f, x, ks, true)
    case Triple(ks1, ks2, ks3) =>
      Block(f, Block(f, Block(f, x, ks1, true), ks2, false), ks3, true)
  }

  function Decrypt(f: Round, k: Key, x: bv64): bv64 {
    match k
    case Single(ks) => Block(f, x, ks, false)
    case Triple(ks1, ks2, ks3) =>
      Block(f, Block(f, Block(f, x, ks3, false), ks2, true), ks1, false)
  }

  lemma DecryptEncrypt(f: Round, k: Key, x: bv64)
    ensures Decrypt(f, k, Encrypt(f, k, x)) == x
    ensures Encrypt(f, k, Decrypt(f, k, x)) == x
  {
    hide Block;
    match k
    case Single(ks) =>
      BlockInverse(f, x, ks, true);
      BlockInverse(f, x, ks, false);
    case Triple(ks1, ks2, ks3) =>
      var a := Block(f, x, ks1, true);
      BlockInverse(f, x, ks1, true);
      BlockInverse(f, a, ks2, false);
      BlockInverse(f, Block(f, a, ks2, false), ks3, true);
      var b := Block(f, x, ks3, false);
      BlockInverse(f, x, ks3, false);
      BlockInverse(f, b, ks2, true);
      BlockInverse(f, Block(f, b, ks2, true), ks1, false);
  }

  /** 3DES with three equal schedules is DES. */
  lemma TripleIsSingle(f: Round, ks: Schedule, x: bv64)
    ensures Encrypt(f, Triple(ks, ks, ks), x) == Encrypt(f, Single(ks), x)
    ensures Decrypt(f, Triple(ks, ks, ks), x) == Decrypt(f, Single(ks), x)
  {
    hide Block;
    BlockInverse(f, x, ks, true);
    BlockInverse(f, x, ks, false);
  }

  /** 3DES enciphers with the first schedule, deciphers with the second and enciphers with the third;
      so the last step alone, or the first, can be undone with its own schedule. */
  lemma TripleOrder(f: Round, ks1: Schedule, ks2: Schedule, ks3: Schedule, x: bv64)
    ensures
      var k := Triple(ks1, ks2, ks3);
      && Decrypt(f, Single(ks3), Encrypt(f, k, x)) == Decrypt(f, Single(ks2), Encrypt(f, Single(ks1), x))
      && Encrypt(f, Single(ks1), Decrypt(f, k, x)) == Encrypt(f, Single(ks2), Decrypt(f, Single(ks3), x))
    ensures Encrypt(f, Triple(ks1, ks1, ks3), x) == Encrypt(f, Single(ks3), x)
    ensures Encrypt(f, Triple(ks1, ks3, ks3), x) == Encrypt(f, Single(ks1), x)
  {
    hide Block;
    BlockInverse(f, Block(f, Block(f, x, ks1, true), ks2, false), ks3, true);
    BlockInverse(f, Block(f, Block(f, x, ks3, false), ks2, true), ks1, false);
    BlockInverse(f, x, ks1, true);
    BlockInverse(f, Block(f, x, ks1, true), ks3, false);
  }

  // ------------------------------------------------------------------ CBC

  function Xor(a: bv64, b: bv64): bv64 {
    a ^ b
  }

  lemma XorXor(a: bv64, b: bv64)
    ensures Xor(Xor(a, b), b) == a
  {
  }

  lemma XorIs(a: bv64, b: bv64)
    ensures Xor(a, b) == a ^ b
  {
  }

  /** What block `n` is chained with: the block before it, or the IV. */
  function Chain(iv: bv64, cipher: seq<bv64>, n: nat): bv64
    requires n <= |cipher|
  {
    if n == 0 then iv else cipher[n - 1]
  }

  /** Section 6.2 of NIST SP 800-38A. */
  function CbcEnc(f: Round, k: Key, iv: bv64, plain: seq<bv64>): (cipher: seq<bv64>)
    ensures |cipher| == |plain|
  {
    if plain == [] then []
    else
      var n := |plain| - 1;
      var c := CbcEnc(f, k, iv, plain[..n]);
      c + [Encrypt(f, k, Xor(plain[n], Chain(iv, c, n)))]
  }

  function CbcDec(f: Round, k: Key, iv: bv64, cipher: seq<bv64>): (plain: seq<bv64>)
    ensures |plain| == |cipher|
  {
    if cipher == [] then []
    else
      var n := |cipher| - 1;
      CbcDec(f, k, iv, cipher[..n]) + [Xor(Decrypt(f, k, cipher[n]), Chain(iv, cipher, n))]
  }

  lemma CbcEncStep(f: Round, k: Key, iv: bv64, plain: seq<bv64>, n: nat)
    requires n < |plain|
    ensures
      var c := CbcEnc(f, k, iv, plain[..n]);
      CbcEnc(f, k, iv, plain[..n + 1]) == c + [Encrypt(f, k, Xor(plain[n], Chain(iv, c, n)))]
  {
    hide Encrypt, Xor, Chain;
    assert plain[..n + 1][..n] == plain[..n];
  }

  lemma CbcDecStep(f: Round, k: Key, iv: bv64, cipher: seq<bv64>, n: nat)
    requires n < |cipher|
    ensures
      CbcDec(f, k, iv, cipher[..n + 1])
      == CbcDec(f, k, iv, cipher[..n]) + [Xor(Decrypt(f, k, cipher[n]), Chain(iv, cipher, n))]
  {
    hide Decrypt, Xor;
    assert cipher[..n + 1][..n] == cipher[..n];
  }

  lemma CbcNothing(f: Round, k: Key, iv: bv64)
    ensures CbcEnc(f, k, iv, []) == [] && CbcDec(f, k, iv, []) == []
  {
  }

  lemma ChainStart(iv: bv64, cipher: seq<bv64>)
    ensures Chain(iv, cipher, 0) == iv
  {
  }

  lemma ChainStep(iv: bv64, cipher: seq<bv64>, w: bv64)
    ensures Chain(iv, cipher + [w], |cipher|) == Chain(iv, cipher, |cipher|)
    ensures Chain(iv, cipher + [w], |cipher| + 1) == w
  {
  }

  lemma TakeAll<T>(s: seq<T>)
    ensures s[..|s|] == s && s[..0] == []
  {
  }

  lemma TakeMore<T>(s: seq<T>, n: nat)
    requires n < |s|
    ensures s[..n + 1] == s[..n] + [s[n]] && s[..n + 1][..n] == s[..n]
  {
  }

  /** The first `n` blocks are restored. */
  lemma {:induction false} CbcRestored(f: Round, k: Key, iv: bv64, plain: seq<bv64>, n: nat)
    requires n <= |plain|
    ensures CbcDec(f, k, iv, CbcEnc(f, k, iv, plain[..n])) == plain[..n]
  {
    hide *;
    if n == 0 {
      TakeAll(plain);
      CbcNothing(f, k, iv);
    } else {
      CbcRestored(f, k, iv, plain, n - 1);
      var c := CbcEnc(f, k, iv, plain[..n - 1]);
      var x := Xor(plain[n - 1], Chain(iv, c, n - 1));
      CbcEncStep(f, k, iv, plain, n - 1);
      var d := c + [Encrypt(f, k, x)];
      TakeAll(d);
      TakeMore(d, n - 1);
      CbcDecStep(f, k, iv, d, n - 1);
      ChainStep(iv, c, Encrypt(f, k, x));
      DecryptEncrypt(f, k, x);
      XorXor(plain[n - 1], Chain(iv, c, n - 1));
      TakeMore(plain, n - 1);
    }
  }

  lemma ChainPrefix(iv: bv64, c: seq<bv64>, d: seq<bv64>, i: nat)
    requires i <= |c| && c <= d
    ensures Chain(iv, c, i) == Chain(iv, d, i)
  {
  }

  lemma {:induction false} CbcAt(f: Round, k: Key, iv: bv64, ws: seq<bv64>, i: nat)
    requires i < |ws|
    ensures
      var c := CbcEnc(f, k, iv, ws);
      c[i] == Encrypt(f, k, Xor(ws[i], Chain(iv, c, i)))
    ensures CbcDec(f, k, iv, ws)[i] == Xor(Decrypt(f, k, ws[i]), Chain(iv, ws, i))
  {
    hide Encrypt, Decrypt, Xor, CbcEnc, CbcDec, Chain;
    var n := |ws| - 1;
    CbcEncStep(f, k, iv, ws, n);
    CbcDecStep(f, k, iv, ws, n);
    TakeAll(ws);
    ChainPrefix(iv, CbcEnc(f, k, iv, ws[..n]), CbcEnc(f, k, iv, ws), i);
    ChainPrefix(iv, ws[..n], ws, i);
    if i < n {
      CbcAt(f, k, iv, ws[..n], i);
    }
  }

  /** Block by block: each is XORed with the cipher block before it, the first with the IV. */
  lemma CbcIs(f: Round, k: Key, iv: bv64, ws: seq<bv64>, i: nat)
    requires i < |ws|
    ensures
      var c := CbcEnc(f, k, iv, ws);
      c[i] == Encrypt(f, k, Xor(ws[i], if i == 0 then iv else c[i - 1]))
    ensures CbcDec(f, k, iv, ws)[i] == Xor(Decrypt(f, k, ws[i]), if i == 0 then iv else ws[i - 1])
  {
    hide Encrypt, Decrypt, Xor, CbcEnc, CbcDec;
    CbcAt(f, k, iv, ws, i);
  }

  lemma CbcRoundTrip(f: Round, k: Key, iv: bv64, plain: seq<bv64>)
    ensures CbcDec(f, k, iv, CbcEnc(f, k, iv, plain)) == plain
  {
    hide *;
    CbcRestored(f, k, iv, plain, |plain|);
    TakeAll(plain);
  }

  /** 3DES-CBC with three equal schedules is DES-CBC, both ways. */
  lemma {:induction false} CbcTripleIsSingle(f: Round, ks: Schedule, iv: bv64, ws: seq<bv64>)
    ensures CbcEnc(f, Triple(ks, ks, ks), iv, ws) == CbcEnc(f, Single(ks), iv, ws)
    ensures CbcDec(f, Triple(ks, ks, ks), iv, ws) == CbcDec(f, Single(ks), iv, ws)
  {
    hide Encrypt, Decrypt, Xor;
    if ws != [] {
      var n := |ws| - 1;
      CbcTripleIsSingle(f, ks, iv, ws[..n]);
      TripleIsSingle(f, ks, Xor(ws[n], Chain(iv, CbcEnc(f, Single(ks), iv, ws[..n]), n)));
      TripleIsSingle(f, ks, ws[n]);
    }
  }

  // ------------------------------------------------------------------ DOCSIS

  function XorBytes(a: seq<bv8>, key: seq<bv8>): (r: seq<bv8>)
    requires |a| <= |key|
    ensures |r| == |a|
  {
    seq(|a|, i requires 0 <= i < |a| => Xor8(a[i], key[i]))
  }

  lemma XorBytesTwice(a: seq<bv8>, key: seq<bv8>)
    requires |a| <= |key|
    ensures XorBytes(XorBytes(a, key), key) == a
  {
    forall i | 0 <= i < |a|
      ensures XorBytes(XorBytes(a, key), key)[i] == a[i]
    {
      XorByteTwice(a[i], key[i]);
    }
  }

  lemma XorByteTwice(a: bv8, b: bv8)
    ensures Xor8(Xor8(a, b), b) == a
  {
  }

  /** Bytes in whole blocks. */
  function Whole(n: nat): (w: nat)
    ensures w <= n < w + 8 && w % 8 == 0
  {
    n / 8 * 8
  }

  /** The key stream of a CFB block. */
  function KeyStream(f: Round, ks: Schedule, iv: bv64): (b: seq<bv8>)
    ensures |b| == 8
  {
    Store(Encrypt(f, Single(ks), iv))
  }

  /** CBC over the whole blocks; the rest XORed with the encryption of the last cipher block, or of
      the IV if there is none. */
  function DocsisEnc(f: Round, ks: Schedule, iv: bv64, plain: seq<bv8>): (cipher: seq<bv8>)
    ensures |cipher| == |plain|
  {
    var w := Whole(|plain|);
    var c := CbcEnc(f, Single(ks), iv, Words(plain[..w]));
    Bytes(c) + XorBytes(plain[w..], KeyStream(f, ks, Chain(iv, c, |c|)))
  }

  function DocsisDec(f: Round, ks: Schedule, iv: bv64, cipher: seq<bv8>): (plain: seq<bv8>)
    ensures |plain| == |cipher|
  {
    var w := Whole(|cipher|);
    var c := Words(cipher[..w]);
    Bytes(CbcDec(f, Single(ks), iv, c)) + XorBytes(cipher[w..], KeyStream(f, ks, Chain(iv, c, |c|)))
  }

  /** DOCSIS-DES decryption undoes encryption for every number of bytes, below one block and not a
      multiple of the block size included. */
  lemma DocsisRoundTrip(f: Round, ks: Schedule, iv: bv64, plain: seq<bv8>)
    ensures DocsisDec(f, ks, iv, DocsisEnc(f, ks, iv, plain)) == plain
  {
    hide CbcEnc, CbcDec, KeyStream, XorBytes, Words, Bytes;
    var w := Whole(|plain|);
    var ws := Words(plain[..w]);
    var c := CbcEnc(f, Single(ks), iv, ws);
    var key := KeyStream(f, ks, Chain(iv, c, |c|));
    var cipher := DocsisEnc(f, ks, iv, plain);
    assert cipher[..w] == Bytes(c);
    assert cipher[w..] == XorBytes(plain[w..], key);
    WordsOfBytes(c);
    CbcRoundTrip(f, Single(ks), iv, ws);
    BytesOfWords(plain[..w]);
    XorBytesTwice(plain[w..], key);
    assert plain == plain[..w] + plain[w..];
  }

  /** The whole blocks are CBC, and each byte of the rest is XORed with its byte of the enciphered last
      cipher block, or of the enciphered IV if the message is below one block. */
  lemma DocsisIs(f: Round, ks: Schedule, iv: bv64, plain: seq<bv8>)
    ensures
      var cipher := DocsisEnc(f, ks, iv, plain);
      var n := |plain| / 8;
      && Words(cipher[..8 * n]) == CbcEnc(f, Single(ks), iv, Words(plain[..8 * n]))
      && forall j :: 8 * n <= j < |plain| ==>
           cipher[j] == Xor8(
             plain[j],
             Store(Block(f, if n == 0 then iv else Words(cipher[..8 * n])[n - 1], ks, true))[j - 8 * n])
  {
    hide CbcEnc, Words, Bytes, Store, Block, Xor8;
    var n := |plain| / 8;
    var c := CbcEnc(f, Single(ks), iv, Words(plain[..8 * n]));
    assert Whole(|plain|) == 8 * n;
    assert DocsisEnc(f, ks, iv, plain)[..8 * n] == Bytes(c);
    WordsOfBytes(c);
  }
}
