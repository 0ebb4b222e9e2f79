/**
  The buffer loops of DES: each method writes the output buffer, which may be the input buffer, and
  is proved equal to the functions of DesModes on what the input held before the call.
*/
module DesInPlace {
  import opened DesBlock
  import opened DesBytes
  import opened DesModes

  method EncryptBlock(f: Round, k: Key, x: bv64) returns (t: bv64)
    ensures t == Encrypt(f, k, x)
  {
    hide Block;
    match k {
      case Single(ks) =>
        t := EncDec1(f, x, ks, true);
      case Triple(ks1, ks2, ks3) =>
        t := EncDec1(f, x, ks1, true);
        t := EncDec1(f, t, ks2, false);
        t := EncDec1(f, t, ks3, true);
    }
  }

  method DecryptBlock(f: Round, k: Key, x: bv64) returns (t: bv64)
    ensures t == Decrypt(f, k, x)
  {
    hide Block;
    match k {
      case Single(ks) =>
        t := EncDec1(f, x, ks, false);
      case Triple(ks1, ks2, ks3) =>
        t := EncDec1(f, x, ks3, false);
        t := EncDec1(f, t, ks2, true);
        t := EncDec1(f, t, ks1, false);
    }
  }

  /** `out[n] = w` through a pointer to 64-bit words. */
  method StoreAt(b: array<bv8>, n: nat, w: bv64)
    requires 8 * n + 8 <= b.Length
    modifies b
    ensures b[..] == old(b[..8 * n]) + Store(w) + old(b[8 * n + 8..])
  {
    hide Store;
    var s := Store(w);
    forall i | 0 <= i < 8 {
      b[8 * n + i] := s[i];
    }
  }

  /** What a loop of one block a turn has made of the output after `n` blocks. */
  predicate Written(now: seq<bv8>, done: seq<bv64>, was: seq<bv8>) {
    8 * |done| <= |was| && now == Bytes(done) + was[8 * |done|..]
  }

  lemma WrittenOneMore(now: seq<bv8>, done: seq<bv64>, was: seq<bv8>, w: bv64, next: seq<bv8>)
    requires Written(now, done, was) && 8 * |done| + 8 <= |was|
    requires next == now[..8 * |done|] + Store(w) + now[8 * |done| + 8..]
    ensures Written(next, done + [w], was)
  {
    hide Store, Bytes;
    BytesStep(done, w);
    assert now[8 * |done| + 8..] == was[8 * |done| + 8..];
  }

  /** The input words not read yet are what they were, in place or not. */
  predicate Unread(now: seq<bv8>, was: seq<bv8>, n: nat, nblocks: nat) {
    n <= nblocks && 8 * nblocks <= |now| == |was| &&
    now[8 * n..8 * nblocks] == was[8 * n..8 * nblocks]
  }

  lemma UnreadWord(now: seq<bv8>, was: seq<bv8>, n: nat, nblocks: nat)
    requires Unread(now, was, n, nblocks) && n < nblocks
    ensures Load(now[8 * n..8 * n + 8]) == Words(was[..8 * nblocks])[n]
  {
    hide Load;
    assert now[8 * n..8 * n + 8] == now[8 * n..8 * nblocks][..8];
    assert was[..8 * nblocks][8 * n..8 * n + 8] == was[8 * n..8 * nblocks][..8];
  }

  lemma UnreadRest(now: seq<bv8>, was: seq<bv8>, n: nat, nblocks: nat, w: seq<bv8>, next: seq<bv8>)
    requires Unread(now, was, n, nblocks) && n < nblocks && |w| == 8
    requires next == now || next == now[..8 * n] + w + now[8 * n + 8..]
    ensures Unread(next, was, n + 1, nblocks)
  {
    assert next[8 * n + 8..8 * nblocks] == now[8 * n..8 * nblocks][8..];
    assert was[8 * n + 8..8 * nblocks] == was[8 * n..8 * nblocks][8..];
  }

  /** `in[n]` in a loop of one block a turn. */
  method LoadNext(input: array<bv8>, n: nat, nblocks: nat, ghost was: seq<bv8>) returns (w: bv64)
    requires Unread(input[..], was, n, nblocks) && n < nblocks
    ensures w == Words(was[..8 * nblocks])[n]
  {
    hide Load;
    UnreadWord(input[..], was, n, nblocks);
    assert input[8 * n..8 * n + 8] == input[..][8 * n..8 * n + 8];
    w := Load(input[8 * n..8 * n + 8]);
  }

  /** `out[n] = w` in such a loop. */
  method StoreNext(input: array<bv8>, output: array<bv8>, n: nat, nblocks: nat, w: bv64,
                   ghost was: seq<bv8>, ghost done: seq<bv64>, ghost out0: seq<bv8>)
    requires Unread(input[..], was, n, nblocks) && n < nblocks && 8 * nblocks <= |out0|
    requires Written(output[..], done, out0) && |done| == n && |out0| == output.Length
    modifies output
    ensures Unread(input[..], was, n + 1, nblocks) && Written(output[..], done + [w], out0)
  {
    hide *;
    ghost var in', out' := input[..], output[..];
    StoreAt(output, n, w);
    StepDone(in', was, n, nblocks, input[..], out', done, out0, w, output[..]);
  }

  /** des_enc_cbc_basic and des3_enc_cbc_basic */
  method CbcEncrypt(f: Round, k: Key, input: array<bv8>, output: array<bv8>, size: nat, ivec: bv64)
    requires size <= input.Length && size <= output.Length
    modifies output
    ensures
      Written(output[..], CbcEnc(f, k, ivec, Words(old(input[..Whole(size)]))), old(output[..]))
  {
    hide *;
    var nblocks := size / 8;
    WholeIs(size);
    ghost var was, out0 := input[..], output[..];
    ghost var plain := Words(was[..8 * nblocks]);
    ghost var done: seq<bv64> := [];
    assert was[..8 * nblocks] == input[..8 * nblocks];
    StartLoop(was, out0, nblocks);
    TakeAll(plain);
    CbcNothing(f, k, ivec);
    ChainStart(ivec, done);
    var iv, n := ivec, 0;
    while n < nblocks
      invariant n <= nblocks && |done| == n && done == CbcEnc(f, k, ivec, plain[..n])
      invariant iv == Chain(ivec, done, n)
      invariant Written(output[..], done, out0)
      invariant Unread(input[..], was, n, nblocks)
    {
      var inBlock := LoadNext(input, n, nblocks, was);
      iv := EncryptBlock(f, k, Xor(inBlock, iv));
      StoreNext(input, output, n, nblocks, iv, was, done, out0);
      CbcEncStep(f, k, ivec, plain, n);
      ChainStep(ivec, done, iv);
      done := done + [iv];
      n := n + 1;
    }
  }

  lemma ChainIs(iv: bv64, cipher: seq<bv64>, n: nat)
    requires n < |cipher|
    ensures Chain(iv, cipher, n + 1) == cipher[n]
  {
  }

  lemma WholeIs(n: nat)
    ensures Whole(n) == n / 8 * 8
  {
  }

  lemma StartLoop(was: seq<bv8>, out0: seq<bv8>, nblocks: nat)
    requires 8 * nblocks <= |was|
    ensures Unread(was, was, 0, nblocks) && Written(out0, [], out0)
  {
  }

  /** One block stored by a loop over blocks. */
  lemma StepDone(in': seq<bv8>, was: seq<bv8>, n: nat, nblocks: nat, in'': seq<bv8>,
                 out': seq<bv8>, done: seq<bv64>, out0: seq<bv8>, w: bv64, out'': seq<bv8>)
    requires Unread(in', was, n, nblocks) && n < nblocks && Written(out', done, out0) && |done| == n
    requires 8 * nblocks <= |out0|
    requires |out'| == |out0|
    requires out'' == out'[..8 * n] + Store(w) + out'[8 * n + 8..]
    requires in'' == in' || (in' == out' && in'' == out'')
    ensures Unread(in'', was, n + 1, nblocks) && Written(out'', done + [w], out0)
  {
    hide Store, Written, Unread;
    WrittenOneMore(out', done, out0, w, out'');
    UnreadLength(in', was, n, nblocks);
    UnreadRest(in', was, n, nblocks, Store(w), in'');
  }

  lemma UnreadLength(now: seq<bv8>, was: seq<bv8>, n: nat, nblocks: nat)
    requires Unread(now, was, n, nblocks)
    ensures 8 * nblocks <= |now|
  {
  }

  /** des_dec_cbc_basic and des3_dec_cbc_basic: the cipher block is kept before it is overwritten. */
  method CbcDecrypt(f: Round, k: Key, input: array<bv8>, output: array<bv8>, size: nat, ivec: bv64)
    requires size <= input.Length && size <= output.Length
    modifies output
    ensures
      Written(output[..], CbcDec(f, k, ivec, Words(old(input[..Whole(size)]))), old(output[..]))
  {
    hide *;
    var nblocks := size / 8;
    WholeIs(size);
    ghost var was, out0 := input[..], output[..];
    ghost var cipher := Words(was[..8 * nblocks]);
    ghost var done: seq<bv64> := [];
    assert was[..8 * nblocks] == input[..8 * nblocks];
    StartLoop(was, out0, nblocks);
    TakeAll(cipher);
    CbcNothing(f, k, ivec);
    ChainStart(ivec, cipher);
    var iv, n := ivec, 0;
    while n < nblocks
      invariant n <= nblocks && |done| == n && done == CbcDec(f, k, ivec, cipher[..n])
      invariant iv == Chain(ivec, cipher, n)
      invariant Written(output[..], done, out0)
      invariant Unread(input[..], was, n, nblocks)
    {
      var inBlock := LoadNext(input, n, nblocks, was);
      var t := DecryptBlock(f, k, inBlock);
      t := Xor(t, iv);
      StoreNext(input, output, n, nblocks, t, was, done, out0);
      iv := inBlock;
      CbcDecStep(f, k, ivec, cipher, n);
      ChainIs(ivec, cipher, n);
      done := done + [t];
      n := n + 1;
    }
  }

  /** In place, CBC decryption restores what CBC encryption overwrote, for DES and 3DES. */
  method CbcThereAndBack(f: Round, k: Key, b: array<bv8>, size: nat, ivec: bv64)
    requires size <= b.Length
    modifies b
    ensures b[..] == old(b[..])
  {
    hide *;
    ghost var was, w := b[..], Whole(size);
    assert was[..w] == b[..w];
    CbcEncrypt(f, k, b, b, size, ivec);
    ghost var mid := b[..];
    assert mid[..w] == b[..w];
    CbcDecrypt(f, k, b, b, size, ivec);
    CbcBack(f, k, ivec, was, mid, b[..], w);
  }

  lemma CbcBack(f: Round, k: Key, iv: bv64, was: seq<bv8>, mid: seq<bv8>, now: seq<bv8>, w: nat)
    requires w % 8 == 0 && w <= |was| == |mid|
    requires Written(mid, CbcEnc(f, k, iv, Words(was[..w])), was)
    requires Written(now, CbcDec(f, k, iv, Words(mid[..w])), mid)
    ensures now == was
  {
    hide CbcEnc, CbcDec, Words, Bytes;
    var ws := Words(was[..w]);
    var c := CbcEnc(f, k, iv, ws);
    assert mid[..w] == Bytes(c);
    WordsOfBytes(c);
    CbcRoundTrip(f, k, iv, ws);
    BytesOfWords(was[..w]);
    assert was == was[..w] + was[w..];
  }

  // ------------------------------------------------------------------ CFB tail

  /** Bytes at..at + |s| of `now` are `s`, the others those of `was`. */
  predicate Patched(now: seq<bv8>, was: seq<bv8>, at: nat, s: seq<bv8>) {
    at + |s| <= |was| && now == was[..at] + s + was[at + |s|..]
  }

  lemma PatchedTwice(now: seq<bv8>, mid: seq<bv8>, was: seq<bv8>, at: nat, s: seq<bv8>, t: seq<bv8>)
    requires Patched(mid, was, at, s) && Patched(now, mid, at + |s|, t)
    ensures Patched(now, was, at, s + t)
  {
  }

  lemma ShiftOne(t: bv64)
    ensures Store(t >> 8) == Store(t)[1..] + [0]
  {
    hide Decompose;
    ShiftByte(t);
  }

  lemma ShiftTwo(t: bv64)
    ensures Store(t >> 16) == Store(t)[2..] + [0, 0]
  {
    hide Decompose;
    ShiftTwoBytes(t);
  }

  /** `*out = *in ^ ((uint8_t) t)` */
  method XorOneByte(input: array<bv8>, output: array<bv8>, at: nat, t: bv64)
    requires at + 1 <= input.Length && at + 1 <= output.Length
    modifies output
    ensures Patched(output[..], old(output[..]), at, XorBytes(old(input[at..at + 1]), Store(t)))
  {
    output[at] := input[at] ^ ((t & 0xff) as bv8);
  }

  function Store16(v: bv16): (b: seq<bv8>)
    ensures |b| == 2
  {
    var q := Decompose16(v);
    [q.b0, q.b1]
  }

  lemma Xor16IsBytewise(b: seq<bv8>, t: bv64)
    requires |b| == 2
    ensures Store16(Xor16(b[0], b[1], t)) == XorBytes(b, Store(t))
  {
    hide Decompose, Decompose16, Xor16, Xor8;
    Xor16Bytes(b[0], b[1], t);
  }

  /** `*out2 = *in2 ^ ((uint16_t) t)` */
  method XorTwoBytes(input: array<bv8>, output: array<bv8>, at: nat, t: bv64)
    requires at + 2 <= input.Length && at + 2 <= output.Length
    modifies output
    ensures Patched(output[..], old(output[..]), at, XorBytes(old(input[at..at + 2]), Store(t)))
  {
    hide Store, Xor16, Store16, XorBytes;
    Xor16IsBytewise(input[at..at + 2], t);
    var s := Store16(Xor16(input[at], input[at + 1], t));
    forall i | 0 <= i < 2 {
      output[at + i] := s[i];
    }
  }

  function Store32(v: bv32): (b: seq<bv8>)
    ensures |b| == 4
  {
    var q := Decompose32(v);
    [q.b0, q.b1, q.b2, q.b3]
  }

  lemma Xor32IsBytewise(b: seq<bv8>, t: bv64)
    requires |b| == 4
    ensures Store32(Xor32(b[0], b[1], b[2], b[3], t)) == XorBytes(b, Store(t))
  {
    hide Decompose, Decompose32, Xor32, Xor8;
    Xor32Bytes(b[0], b[1], b[2], b[3], t);
  }

  /** `*out4 = *in4 ^ ((uint32_t) t)` */
  method XorFourBytes(input: array<bv8>, output: array<bv8>, at: nat, t: bv64)
    requires at + 4 <= input.Length && at + 4 <= output.Length
    modifies output
    ensures Patched(output[..], old(output[..]), at, XorBytes(old(input[at..at + 4]), Store(t)))
  {
    hide Store, Xor32, Store32, XorBytes;
    Xor32IsBytewise(input[at..at + 4], t);
    var s := Store32(Xor32(input[at], input[at + 1], input[at + 2], input[at + 3], t));
    forall i | 0 <= i < 4 {
      output[at + i] := s[i];
    }
  }

  /** The tail code has so far XORed `done` bytes with the key stream, and `t` holds the rest of it. */
  predicate Keyed(now: seq<bv8>, was: seq<bv8>, in0: seq<bv8>, at: nat, done: nat, key: seq<bv8>,
                  t: bv64)
  {
    done <= 8 == |key| && at + done <= |in0| &&
    Store(t)[..8 - done] == key[done..] &&
    Patched(now, was, at, XorBytes(in0[at..at + done], key))
  }

  lemma KeyedStart(now: seq<bv8>, in0: seq<bv8>, at: nat, t: bv64)
    requires at <= |in0| && at <= |now|
    ensures Keyed(now, now, in0, at, 0, Store(t), t)
  {
    hide Store;
  }

  /** XORing the next `m` bytes with the low bytes of `t` and shifting them out. */
  lemma KeyedMore(now: seq<bv8>, was: seq<bv8>, in0: seq<bv8>, at: nat, done: nat, key: seq<bv8>,
                  t: bv64, m: nat, next: seq<bv8>, t': bv64)
    requires Keyed(now, was, in0, at, done, key, t)
    requires done + m <= 8 && at + done + m <= |in0|
    requires Patched(next, now, at + done, XorBytes(in0[at + done..at + done + m], Store(t)))
    requires Store(t')[..8 - m] == Store(t)[m..]
    ensures Keyed(next, was, in0, at, done + m, key, t')
  {
    hide Store, Patched, XorBytes;
    KeyedLast(now, was, in0, at, done, key, t, m, next);
    assert Store(t')[..8 - done - m] == Store(t')[..8 - m][..8 - done - m];
    assert key[done + m..] == key[done..][m..];
  }

  lemma KeyedDone(now: seq<bv8>, was: seq<bv8>, in0: seq<bv8>, at: nat, done: nat, key: seq<bv8>,
                  t: bv64)
    requires Keyed(now, was, in0, at, done, key, t)
    ensures Patched(now, was, at, XorBytes(in0[at..at + done], key))
  {
  }

  lemma KeyedLast(now: seq<bv8>, was: seq<bv8>, in0: seq<bv8>, at: nat, done: nat, key: seq<bv8>,
                  t: bv64, m: nat, next: seq<bv8>)
    requires Keyed(now, was, in0, at, done, key, t)
    requires done + m <= 8 && at + done + m <= |in0|
    requires Patched(next, now, at + done, XorBytes(in0[at + done..at + done + m], Store(t)))
    ensures Patched(next, was, at, XorBytes(in0[at..at + done + m], key))
  {
    hide Store, Patched;
    var a, b := in0[at..at + done], in0[at + done..at + done + m];
    var s, r := XorBytes(a, key), XorBytes(b, Store(t));
    PatchedTwice(next, now, was, at, s, r);
    assert forall i :: 0 <= i < 8 - done ==> Store(t)[i] == Store(t)[..8 - done][i] == key[done..][i];
    assert s + r == XorBytes(in0[at..at + done + m], key);
  }

  /** The input at and after the bytes written so far is as it was, in place or not. */
  lemma KeyedInput(input: array<bv8>, output: array<bv8>, was: seq<bv8>, in0: seq<bv8>, at: nat,
                   done: nat, key: seq<bv8>, t: bv64, m: nat)
    requires Keyed(output[..], was, in0, at, done, key, t) && |in0| == input.Length
    requires if input == output then in0 == was else input[..] == in0
    requires at + done + m <= |in0|
    ensures input[at + done..at + done + m] == in0[at + done..at + done + m]
  {
    hide XorBytes, Store;
  }

  method CfbByte(input: array<bv8>, output: array<bv8>, pos: nat, t: bv64, ghost was: seq<bv8>,
                 ghost in0: seq<bv8>, ghost at: nat, ghost key: seq<bv8>)
    returns (t': bv64)
    requires at <= pos && pos + 1 <= at + 8 && pos + 1 <= input.Length
    requires Keyed(output[..], was, in0, at, pos - at, key, t) && |in0| == input.Length
    requires pos + 1 <= output.Length
    requires if input == output then in0 == was else input[..] == in0
    modifies output
    ensures Keyed(output[..], was, in0, at, pos + 1 - at, key, t')
    ensures if input == output then in0 == was else input[..] == in0
  {
    hide *;
    ghost var now := output[..];
    KeyedInput(input, output, was, in0, at, pos - at, key, t, 1);
    XorOneByte(input, output, pos, t);
    ShiftOne(t);
    t' := t >> 8;
    KeyedMore(now, was, in0, at, pos - at, key, t, 1, output[..], t');
  }

  method CfbTwoBytes(input: array<bv8>, output: array<bv8>, pos: nat, t: bv64, ghost was: seq<bv8>,
                     ghost in0: seq<bv8>, ghost at: nat, ghost key: seq<bv8>)
    returns (t': bv64)
    requires at <= pos && pos + 2 <= at + 8 && pos + 2 <= input.Length
    requires Keyed(output[..], was, in0, at, pos - at, key, t) && |in0| == input.Length
    requires pos + 2 <= output.Length
    requires if input == output then in0 == was else input[..] == in0
    modifies output
    ensures Keyed(output[..], was, in0, at, pos + 2 - at, key, t')
    ensures if input == output then in0 == was else input[..] == in0
  {
    hide *;
    ghost var now := output[..];
    KeyedInput(input, output, was, in0, at, pos - at, key, t, 2);
    XorTwoBytes(input, output, pos, t);
    ShiftTwo(t);
    t' := t >> 16;
    KeyedMore(now, was, in0, at, pos - at, key, t, 2, output[..], t');
  }

  method CfbFourBytes(input: array<bv8>, output: array<bv8>, pos: nat, t: bv64,
                     ghost was: seq<bv8>, ghost in0: seq<bv8>, ghost at: nat, ghost key: seq<bv8>)
    requires at <= pos && pos + 4 <= at + 8 && pos + 4 <= input.Length
    requires Keyed(output[..], was, in0, at, pos - at, key, t) && |in0| == input.Length
    requires pos + 4 <= output.Length
    requires if input == output then in0 == was else input[..] == in0
    modifies output
    ensures Patched(output[..], was, at, XorBytes(in0[at..pos + 4], key))
  {
    hide *;
    ghost var now := output[..];
    KeyedInput(input, output, was, in0, at, pos - at, key, t, 4);
    XorFourBytes(input, output, pos, t);
    KeyedLast(now, was, in0, at, pos - at, key, t, 4, output[..]);
  }

  lemma KeyStreamIs(f: Round, ks: Schedule, iv: bv64, t: bv64)
    requires t == Encrypt(f, Single(ks), iv)
    ensures KeyStream(f, ks, iv) == Store(t)
  {
  }

  /** Up to three bytes, by the two low bits of `size`. */
  method CfbLow(input: array<bv8>, output: array<bv8>, at: nat, size: nat, t0: bv64,
                ghost was: seq<bv8>, ghost in0: seq<bv8>, ghost key: seq<bv8>) returns (t: bv64)
    requires at + size <= input.Length && at + size <= output.Length
    requires Keyed(output[..], was, in0, at, 0, key, t0) && |in0| == input.Length
    requires if input == output then in0 == was else input[..] == in0
    modifies output
    ensures Keyed(output[..], was, in0, at, size % 4, key, t)
    ensures if input == output then in0 == was else input[..] == in0
  {
    hide *;
    t := t0;
    if size % 2 == 1 {
      t := CfbByte(input, output, at, t, was, in0, at, key);
    }
    if size / 2 % 2 == 1 {
      t := CfbTwoBytes(input, output, at + size % 2, t, was, in0, at, key);
    }
    assert size % 4 == size % 2 + size / 2 % 2 * 2;
  }

  /** cfb_one_basic at the byte offset `at` of both buffers: one, two and four bytes by the bits of
      `size`, shifting the key stream, which is as many bytes XORed one by one. */
  method CfbOne(f: Round, ks: Schedule, iv: bv64, input: array<bv8>, output: array<bv8>, at: nat,
                size: nat)
    requires at + size <= input.Length && at + size <= output.Length
    modifies output
    ensures
      Patched(output[..], old(output[..]), at,
              XorBytes(old(input[at..at + size % 8]), KeyStream(f, ks, iv)))
  {
    hide *;
    ghost var in0, was := input[..], output[..];
    assert input[at..at + size % 8] == in0[at..at + size % 8];
    var t := EncryptBlock(f, Single(ks), iv);
    KeyStreamIs(f, ks, iv, t);
    ghost var key := Store(t);
    KeyedStart(was, in0, at, t);
    t := CfbLow(input, output, at, size, t, was, in0, key);
    SizeBits(size);
    if size / 4 % 2 == 1 {
      CfbFourBytes(input, output, at + size % 4, t, was, in0, at, key);
      assert in0[at..at + size % 4 + 4] == in0[at..at + size % 8];
    } else {
      KeyedDone(output[..], was, in0, at, size % 4, key, t);
      assert in0[at..at + size % 4] == in0[at..at + size % 8];
    }
  }

  /** The three low bits of a size. */
  lemma SizeBits(size: nat)
    ensures size % 8 == size % 4 + (if size / 4 % 2 == 1 then 4 else 0) && size % 8 <= size
  {
  }

  // ------------------------------------------------------------------ DOCSIS

  lemma LastBlock(now: seq<bv8>, c: seq<bv64>, was: seq<bv8>, iv: bv64)
    requires Written(now, c, was) && c != []
    ensures 8 * |c| <= |now| && Load(now[8 * |c| - 8..8 * |c|]) == Chain(iv, c, |c|)
  {
    hide Load, Store, Bytes;
    var n := |c| - 1;
    BytesAt(c, n);
    assert now[8 * n..8 * n + 8] == Bytes(c)[8 * n..8 * n + 8];
    LoadStore(c[n]);
  }

  lemma LastWord(b: seq<bv8>, n: nat, iv: bv64)
    requires 0 < n && 8 * n <= |b|
    ensures Load(b[8 * n - 8..8 * n]) == Chain(iv, Words(b[..8 * n]), n)
  {
    hide Load;
    assert b[..8 * n][8 * n - 8..8 * n] == b[8 * n - 8..8 * n];
  }

  lemma WrittenRest(now: seq<bv8>, done: seq<bv64>, was: seq<bv8>, m: nat)
    requires Written(now, done, was) && 8 * |done| + m <= |was|
    ensures |now| == |was| && now[8 * |done|..8 * |done| + m] == was[8 * |done|..8 * |done| + m]
  {
    hide Bytes;
  }

  lemma PatchedBefore(now: seq<bv8>, was: seq<bv8>, at: nat, s: seq<bv8>)
    requires Patched(now, was, at, s)
    ensures |now| == |was| && now[..at] == was[..at]
  {
  }

  lemma NoTail(now: seq<bv8>, at: nat, a: seq<bv8>, key: seq<bv8>)
    requires at <= |now| && a == []
    ensures Patched(now, now, at, XorBytes(a, key))
  {
  }

  /** A tail after the blocks: CBC first, as in encryption. */
  lemma BlocksThenTail(next: seq<bv8>, mid: seq<bv8>, was: seq<bv8>, blocks: seq<bv64>, tail: seq<bv8>)
    requires Written(mid, blocks, was) && Patched(next, mid, 8 * |blocks|, tail)
    ensures Patched(next, was, 0, Bytes(blocks) + tail)
  {
    hide Bytes;
  }

  /** The tail first, as in decryption. */
  lemma TailThenBlocks(next: seq<bv8>, mid: seq<bv8>, was: seq<bv8>, blocks: seq<bv64>, tail: seq<bv8>)
    requires Patched(mid, was, 8 * |blocks|, tail) && Written(next, blocks, mid)
    ensures Patched(next, was, 0, Bytes(blocks) + tail)
  {
    hide Bytes;
  }

  /** The encryption of `plain` from its two parts. */
  lemma DocsisEncParts(f: Round, ks: Schedule, iv: bv64, plain: seq<bv8>, next: seq<bv8>,
                       mid: seq<bv8>, was: seq<bv8>)
    requires
      var w := Whole(|plain|);
      var c := CbcEnc(f, Single(ks), iv, Words(plain[..w]));
      Written(mid, c, was) &&
      Patched(next, mid, w, XorBytes(plain[w..], KeyStream(f, ks, Chain(iv, c, |c|))))
    ensures Patched(next, was, 0, DocsisEnc(f, ks, iv, plain))
  {
    hide Written, Patched, XorBytes, KeyStream, CbcEnc, Bytes, Words, Chain;
    var w := Whole(|plain|);
    var c := CbcEnc(f, Single(ks), iv, Words(plain[..w]));
    BlocksThenTail(next, mid, was, c, XorBytes(plain[w..], KeyStream(f, ks, Chain(iv, c, |c|))));
  }

  lemma DocsisDecParts(f: Round, ks: Schedule, iv: bv64, cipher: seq<bv8>, next: seq<bv8>,
                       mid: seq<bv8>, was: seq<bv8>)
    requires
      var w := Whole(|cipher|);
      var c := Words(cipher[..w]);
      Patched(mid, was, w, XorBytes(cipher[w..], KeyStream(f, ks, Chain(iv, c, |c|)))) &&
      Written(next, CbcDec(f, Single(ks), iv, c), mid)
    ensures Patched(next, was, 0, DocsisDec(f, ks, iv, cipher))
  {
    hide Written, Patched, XorBytes, KeyStream, CbcDec, Bytes, Words, Chain;
    var w := Whole(|cipher|);
    var c := Words(cipher[..w]);
    TailThenBlocks(next, mid, was, CbcDec(f, Single(ks), iv, c),
                   XorBytes(cipher[w..], KeyStream(f, ks, Chain(iv, c, |c|))));
  }

  /** docsis_des_enc_basic: the tail is keyed with the last cipher block, which is read from the
      output. */
  method DocsisEncrypt(f: Round, ks: Schedule, input: array<bv8>, output: array<bv8>, size: nat,
                       ivec: bv64)
    requires size <= input.Length && size <= output.Length
    modifies output
    ensures Patched(output[..], old(output[..]), 0, DocsisEnc(f, ks, ivec, old(input[..size])))
  {
    hide *;
    ghost var plain, out0 := input[..size], output[..];
    var nblocks, partial := size / 8, size % 8;
    ghost var c := CbcEnc(f, Single(ks), ivec, Words(plain[..8 * nblocks]));
    assert plain[..8 * nblocks] == input[..8 * nblocks];
    assert plain[8 * nblocks..] == input[8 * nblocks..size];
    WholeIs(size);
    CbcEncrypt(f, Single(ks), input, output, size, ivec);
    ghost var mid := output[..];
    WrittenRest(mid, c, out0, partial);
    assert input[8 * nblocks..size] == plain[8 * nblocks..];
    if partial != 0 {
      if nblocks != 0 {
        LastBlock(mid, c, out0, ivec);
        CfbOne(f, ks, Load(output[8 * nblocks - 8..8 * nblocks]), input, output, 8 * nblocks, partial);
      } else {
        ChainStart(ivec, c);
        CfbOne(f, ks, ivec, input, output, 0, partial);
      }
    } else {
      NoTail(mid, size, plain[size..], KeyStream(f, ks, Chain(ivec, c, |c|)));
    }
    DocsisEncParts(f, ks, ivec, plain, output[..], mid, out0);
  }

  lemma TailSlices(cipher: seq<bv8>, was: seq<bv8>, w: nat, partial: nat)
    requires 8 <= w && partial < 8 && w + partial <= |was| && cipher == was[..w + partial]
    ensures partial % 8 == partial
    ensures cipher[w - 8..w] == was[w - 8..w] && cipher[w..] == was[w..][..partial % 8]
  {
  }

  /** The tail of a frame with a whole block before it, keyed with that block of the input. */
  method DecryptTail(f: Round, ks: Schedule, input: array<bv8>, output: array<bv8>, nblocks: nat,
                     partial: nat, ghost cipher: seq<bv8>, ghost ivec: bv64)
    requires 0 < nblocks && partial < 8
    requires 8 * nblocks + partial <= input.Length && 8 * nblocks + partial <= output.Length
    requires cipher == input[..8 * nblocks + partial]
    modifies output
    ensures
      var c := Words(cipher[..8 * nblocks]);
      Patched(output[..], old(output[..]), 8 * nblocks,
              XorBytes(cipher[8 * nblocks..], KeyStream(f, ks, Chain(ivec, c, |c|))))
  {
    hide *;
    LastWord(cipher, nblocks, ivec);
    TailSlices(cipher, input[..], 8 * nblocks, partial);
    assert input[..][8 * nblocks - 8..8 * nblocks] == input[8 * nblocks - 8..8 * nblocks];
    assert input[..][8 * nblocks..][..partial % 8] == input[8 * nblocks..8 * nblocks + partial % 8];
    CfbOne(f, ks, Load(input[8 * nblocks - 8..8 * nblocks]), input, output, 8 * nblocks, partial);
  }

  /** docsis_des_dec_basic: the tail is keyed with the last cipher block of the input, so it comes
      first; in place the loop overwrites that block. */
  method DocsisDecrypt(f: Round, ks: Schedule, input: array<bv8>, output: array<bv8>, size: nat,
                       ivec: bv64)
    requires size <= input.Length && size <= output.Length
    modifies output
    ensures Patched(output[..], old(output[..]), 0, DocsisDec(f, ks, ivec, old(input[..size])))
  {
    hide *;
    ghost var cipher, out0 := input[..size], output[..];
    var nblocks, partial := size / 8, size % 8;
    WholeIs(size);
    ghost var c := Words(cipher[..8 * nblocks]);
    ghost var tail := XorBytes(cipher[8 * nblocks..], KeyStream(f, ks, Chain(ivec, c, |c|)));
    if partial != 0 {
      if nblocks == 0 {
        assert cipher == input[0..partial % 8];
        CfbOne(f, ks, ivec, input, output, 0, partial);
        OnlyTail(f, ks, ivec, cipher, output[..], out0);
        return;
      }
      DecryptTail(f, ks, input, output, nblocks, partial, cipher, ivec);
    } else {
      NoTail(out0, size, cipher[8 * nblocks..], KeyStream(f, ks, Chain(ivec, c, |c|)));
    }
    ghost var mid := output[..];
    PatchedBefore(mid, out0, 8 * nblocks, tail);
    assert input[..8 * nblocks] == cipher[..8 * nblocks];
    CbcDecrypt(f, Single(ks), input, output, size, ivec);
    DocsisDecParts(f, ks, ivec, cipher, output[..], mid, out0);
  }

  lemma OnlyTail(f: Round, ks: Schedule, iv: bv64, cipher: seq<bv8>, next: seq<bv8>, was: seq<bv8>)
    requires |cipher| < 8
    requires Patched(next, was, 0, XorBytes(cipher, KeyStream(f, ks, iv)))
    ensures Patched(next, was, 0, DocsisDec(f, ks, iv, cipher))
  {
    hide Patched, KeyStream, XorBytes;
    assert DocsisDec(f, ks, iv, cipher) == XorBytes(cipher, KeyStream(f, ks, iv));
  }

  /** In place, decrypting what was encrypted in place restores every byte of the buffer. */
  method DocsisThereAndBack(f: Round, ks: Schedule, b: array<bv8>, size: nat, ivec: bv64)
    requires size <= b.Length
    modifies b
    ensures b[..] == old(b[..])
  {
    hide *;
    ghost var was := b[..];
    DocsisEncrypt(f, ks, b, b, size, ivec);
    ghost var mid, cipher := b[..], DocsisEnc(f, ks, ivec, was[..size]);
    assert b[..size] == mid[..size];
    assert was[..size] == old(b[..size]);
    PatchedIs(mid, was, cipher, size);
    DocsisDecrypt(f, ks, b, b, size, ivec);
    DocsisRoundTrip(f, ks, ivec, was[..size]);
    PatchedIs(b[..], mid, was[..size], size);
    assert was == was[..size] + was[size..];
  }

  lemma PatchedIs(now: seq<bv8>, was: seq<bv8>, s: seq<bv8>, size: nat)
    requires Patched(now, was, 0, s)
    ensures now == s + was[|s|..] && now[..|s|] == s && now[|s|..] == was[|s|..]
  {
  }
}
