/**
  One DES block: the initial and final permutations as networks of bit swaps, the expansion and
  table look-up of the round function, and the sixteen rounds.

  The round function is a parameter of the rounds, and the eight combined S and P tables are
  parameters of the DES round function: everything here holds for any contents of the tables.
*/
module DesBlock {

  /** A pair of words: what `pl` and `pr` point at. */
  datatype Halves = Halves(l: bv32, r: bv32)

  // ------------------------------------------------------------------ permutations

  // permute_operation(pa, pb, n, m) at the five pairs (n, m) it is called with: swaps the bits of
  // `b` under the mask with those of `a` under the mask shifted left by n.  Results as (a, b).

  function Swap1(a: bv32, b: bv32): Halves {
    var t := (b ^ (a >> 1)) & 0x55555555;
    Halves(a ^ (t << 1), b ^ t)
  }

  function Swap2(a: bv32, b: bv32): Halves {
    var t := (b ^ (a >> 2)) & 0x33333333;
    Halves(a ^ (t << 2), b ^ t)
  }

  function Swap4(a: bv32, b: bv32): Halves {
    var t := (b ^ (a >> 4)) & 0x0f0f0f0f;
    Halves(a ^ (t << 4), b ^ t)
  }

  function Swap8(a: bv32, b: bv32): Halves {
    var t := (b ^ (a >> 8)) & 0x00ff00ff;
    Halves(a ^ (t << 8), b ^ t)
  }

  function Swap16(a: bv32, b: bv32): Halves {
    var t := (b ^ (a >> 16)) & 0x0000ffff;
    Halves(a ^ (t << 16), b ^ t)
  }

  /** ip_z(pl, pr) */
  function Ip(h: Halves): Halves {
    var a := Swap4(h.r, h.l);  // (r, l)
    var b := Swap16(a.r, a.l); // (l, r)
    var c := Swap2(b.r, b.l);  // (r, l)
    var d := Swap8(c.r, c.l);  // (l, r)
    var e := Swap1(d.r, d.l);  // (r, l)
    Halves(e.r, e.l)
  }

  /** fp_z(pl, pr) */
  function Fp(h: Halves): Halves {
    var a := Swap1(h.l, h.r);  // (l, r)
    var b := Swap8(a.r, a.l);  // (r, l)
    var c := Swap2(b.r, b.l);  // (l, r)
    var d := Swap16(c.r, c.l); // (r, l)
    Swap4(d.r, d.l)            // (l, r)
  }

  function Exchange(h: Halves): Halves {
    Halves(h.r, h.l)
  }

  function Not(w: bv32): bv32 {
    !w
  }

  function Complement(h: Halves): Halves {
    Halves(Not(h.l), Not(h.r))
  }

  // Each swap undoes itself.

  lemma Swap1Undo(a: bv32, b: bv32)
    ensures var h := Swap1(a, b); Swap1(h.l, h.r) == Halves(a, b)
  {
  }

  lemma Swap2Undo(a: bv32, b: bv32)
    ensures var h := Swap2(a, b); Swap2(h.l, h.r) == Halves(a, b)
  {
  }

  lemma Swap4Undo(a: bv32, b: bv32)
    ensures var h := Swap4(a, b); Swap4(h.l, h.r) == Halves(a, b)
  {
  }

  lemma Swap8Undo(a: bv32, b: bv32)
    ensures var h := Swap8(a, b); Swap8(h.l, h.r) == Halves(a, b)
  {
  }

  lemma Swap16Undo(a: bv32, b: bv32)
    ensures var h := Swap16(a, b); Swap16(h.l, h.r) == Halves(a, b)
  {
  }

  // Each swap commutes with complementing both words.

  lemma Swap1Not(a: bv32, b: bv32)
    ensures Swap1(Not(a), Not(b)) == Complement(Swap1(a, b))
  {
  }

  lemma Swap2Not(a: bv32, b: bv32)
    ensures Swap2(Not(a), Not(b)) == Complement(Swap2(a, b))
  {
  }

  lemma Swap4Not(a: bv32, b: bv32)
    ensures Swap4(Not(a), Not(b)) == Complement(Swap4(a, b))
  {
  }

  lemma Swap8Not(a: bv32, b: bv32)
    ensures Swap8(Not(a), Not(b)) == Complement(Swap8(a, b))
  {
  }

  lemma Swap16Not(a: bv32, b: bv32)
    ensures Swap16(Not(a), Not(b)) == Complement(Swap16(a, b))
  {
  }

  /** fp_z with its two halves exchanged is the inverse of ip_z, on both sides. */
  lemma FpInvertsIp(h: Halves)
    ensures Fp(Exchange(Ip(h))) == Exchange(h)
    ensures Ip(Exchange(Fp(h))) == Exchange(h)
  {
    hide Swap1, Swap2, Swap4, Swap8, Swap16, Not;
    var a := Swap4(h.r, h.l);
    var b := Swap16(a.r, a.l);
    var c := Swap2(b.r, b.l);
    var d := Swap8(c.r, c.l);
    Swap4Undo(h.r, h.l);
    Swap16Undo(a.r, a.l);
    Swap2Undo(b.r, b.l);
    Swap8Undo(c.r, c.l);
    Swap1Undo(d.r, d.l);
    var a' := Swap1(h.l, h.r);
    var b' := Swap8(a'.r, a'.l);
    var c' := Swap2(b'.r, b'.l);
    var d' := Swap16(c'.r, c'.l);
    Swap1Undo(h.l, h.r);
    Swap8Undo(a'.r, a'.l);
    Swap2Undo(b'.r, b'.l);
    Swap16Undo(c'.r, c'.l);
    Swap4Undo(d'.r, d'.l);
  }

  /** Both permutations commute with complementing the block. */
  lemma PermutationsComplement(h: Halves)
    ensures Ip(Complement(h)) == Complement(Ip(h))
    ensures Fp(Complement(h)) == Complement(Fp(h))
  {
    hide Swap1, Swap2, Swap4, Swap8, Swap16, Not;
    var a := Swap4(h.r, h.l);
    var b := Swap16(a.r, a.l);
    var c := Swap2(b.r, b.l);
    var d := Swap8(c.r, c.l);
    Swap4Not(h.r, h.l);
    Swap16Not(a.r, a.l);
    Swap2Not(b.r, b.l);
    Swap8Not(c.r, c.l);
    Swap1Not(d.r, d.l);
    var a' := Swap1(h.l, h.r);
    var b' := Swap8(a'.r, a'.l);
    var c' := Swap2(b'.r, b'.l);
    var d' := Swap16(c'.r, c'.l);
    Swap1Not(h.l, h.r);
    Swap8Not(a'.r, a'.l);
    Swap2Not(b'.r, b'.l);
    Swap16Not(c'.r, c'.l);
    Swap4Not(d'.r, d'.l);
  }

  // ------------------------------------------------------------------ rounds

  type Round = (bv32, bv64) -> bv32

  type Schedule = ks: seq<bv64> | |ks| == 16 witness seq(16, _ => 0)

  /** `a ^ f(b, k)`: what a round assigns to the half `a`. */
  function Mix(f: Round, a: bv32, b: bv32, k: bv64): bv32 {
    a ^ f(b, k)
  }

  /** One round, with the changed half put on the right for the next one. */
  function Step(f: Round, h: Halves, k: bv64): Halves {
    Halves(h.r, Mix(f, h.l, h.r, k))
  }

  /** The halves after the first `n` rounds with the subkeys `ks`. */
  function Rounds(f: Round, h: Halves, ks: seq<bv64>, n: nat): Halves
    requires n <= |ks|
  {
    if n == 0 then h else Step(f, Rounds(f, h, ks, n - 1), ks[n - 1])
  }

  function Reverse(ks: seq<bv64>): (r: seq<bv64>)
    ensures |r| == |ks| && forall i :: 0 <= i < |ks| ==> r[i] == ks[|ks| - 1 - i]
  {
    seq(|ks|, i requires 0 <= i < |ks| => ks[|ks| - 1 - i])
  }

  lemma XorTwice(a: bv32, b: bv32)
    ensures (a ^ b) ^ b == a
  {
  }

  lemma StepUndo(f: Round, h: Halves, k: bv64)
    ensures Step(f, Exchange(Step(f, h, k)), k) == Exchange(h)
  {
    XorTwice(h.l, f(h.r, k));
  }

  /** Running the rounds with the subkeys in reverse order on the exchanged halves walks back, one
      round at a time. */
  lemma {:induction false} RoundsUndo(f: Round, h: Halves, ks: seq<bv64>, n: nat)
    requires n <= |ks|
    ensures
      Rounds(f, Exchange(Rounds(f, h, ks, |ks|)), Reverse(ks), n)
      == Exchange(Rounds(f, h, ks, |ks| - n))
  {
    hide Step, Exchange;
    if n > 0 {
      RoundsUndo(f, h, ks, n - 1);
      StepUndo(f, Rounds(f, h, ks, |ks| - n), ks[|ks| - n]);
      assert Reverse(ks)[n - 1] == ks[|ks| - n];
    }
  }

  // ------------------------------------------------------------------ the block

  function LowWord(data: bv64): bv32 {
    (data & 0xffff_ffff) as bv32
  }

  function HighWord(data: bv64): bv32 {
    (data >> 32) as bv32
  }

  function FromWords(low: bv32, high: bv32): bv64 {
    (low as bv64) | ((high as bv64) << 32)
  }

  /** Low word first: what `r` and `l` are loaded with. */
  function Split(data: bv64): Halves {
    Halves(LowWord(data), HighWord(data))
  }

  /** What is returned for the halves (r, l): `l` is the low word now. */
  function Join(h: Halves): bv64 {
    FromWords(h.r, h.l)
  }

  lemma SplitJoin(h: Halves)
    ensures Split(Join(h)) == Exchange(h)
  {
  }

  lemma JoinSplit(data: bv64)
    ensures Join(Exchange(Split(data))) == data
  {
  }

  /** The order in which a direction uses the subkeys. */
  function KeyOrder(ks: Schedule, enc: bool): Schedule {
    if enc then ks else Reverse(ks)
  }

  /** enc_dec_1(data, ks, enc) for any round function. */
  function Block(f: Round, data: bv64, ks: Schedule, enc: bool): bv64 {
    var p := Ip(Split(data));
    var q := Rounds(f, Exchange(p), KeyOrder(ks, enc), 16);
    Join(Fp(Exchange(q)))
  }

  /** Each direction inverts the other, for every block, key schedule and round function. */
  lemma BlockInverse(f: Round, data: bv64, ks: Schedule, enc: bool)
    ensures Block(f, Block(f, data, ks, enc), ks, !enc) == data
  {
    hide Ip, Fp, Split, Join, Rounds;
    var keys := KeyOrder(ks, enc);
    assert KeyOrder(ks, !enc) == Reverse(keys);
    var p := Ip(Split(data));
    var q := Rounds(f, Exchange(p), keys, 16);
    var u := Fp(Exchange(q));
    SplitJoin(u);
    FpInvertsIp(Exchange(q));
    assert Ip(Split(Join(u))) == q;
    RoundsUndo(f, Exchange(p), keys, 16);
    RoundsStart(f, Exchange(p), keys);
    FpInvertsIp(Split(data));
    JoinSplit(data);
  }

  lemma RoundsStart(f: Round, h: Halves, ks: seq<bv64>)
    ensures Rounds(f, h, ks, 0) == h
  {
  }

  lemma TwoRounds(f: Round, h: Halves, ks: seq<bv64>, n: nat)
    requires n + 2 <= |ks|
    ensures
      var g := Rounds(f, h, ks, n);
      var l := Mix(f, g.l, g.r, ks[n]);
      Rounds(f, h, ks, n + 2) == Halves(l, Mix(f, g.r, l, ks[n + 1]))
  {
    hide Mix;
    assert Rounds(f, h, ks, n + 1) == Step(f, Rounds(f, h, ks, n), ks[n]);
  }

  lemma TwoRoundsBack(f: Round, h: Halves, ks: Schedule, n: nat)
    requires n + 2 <= 16
    ensures
      var g := Rounds(f, h, Reverse(ks), n);
      var l := Mix(f, g.l, g.r, ks[15 - n]);
      Rounds(f, h, Reverse(ks), n + 2) == Halves(l, Mix(f, g.r, l, ks[14 - n]))
  {
    TwoRounds(f, h, Reverse(ks), n);
  }

  /** The sixteen assignments of the encryption branch of enc_dec_1. */
  method EncryptRounds(f: Round, l0: bv32, r0: bv32, ks: Schedule) returns (l: bv32, r: bv32)
    ensures Halves(l, r) == Rounds(f, Halves(l0, r0), ks, 16)
  {
    hide *;
    ghost var start, keys := Halves(l0, r0), ks;
    RoundsStart(f, start, keys);
    l, r := l0, r0;
    l := Mix(f, l, r, ks[0]);
    r := Mix(f, r, l, ks[1]);
    TwoRounds(f, start, keys, 0);
    assert Halves(l, r) == Rounds(f, start, keys, 2);
    l := Mix(f, l, r, ks[2]);
    r := Mix(f, r, l, ks[3]);
    TwoRounds(f, start, keys, 2);
    assert Halves(l, r) == Rounds(f, start, keys, 4);
    l := Mix(f, l, r, ks[4]);
    r := Mix(f, r, l, ks[5]);
    TwoRounds(f, start, keys, 4);
    assert Halves(l, r) == Rounds(f, start, keys, 6);
    l := Mix(f, l, r, ks[6]);
    r := Mix(f, r, l, ks[7]);
    TwoRounds(f, start, keys, 6);
    assert Halves(l, r) == Rounds(f, start, keys, 8);
    l := Mix(f, l, r, ks[8]);
    r := Mix(f, r, l, ks[9]);
    TwoRounds(f, start, keys, 8);
    assert Halves(l, r) == Rounds(f, start, keys, 10);
    l := Mix(f, l, r, ks[10]);
    r := Mix(f, r, l, ks[11]);
    TwoRounds(f, start, keys, 10);
    assert Halves(l, r) == Rounds(f, start, keys, 12);
    l := Mix(f, l, r, ks[12]);
    r := Mix(f, r, l, ks[13]);
    TwoRounds(f, start, keys, 12);
    assert Halves(l, r) == Rounds(f, start, keys, 14);
    l := Mix(f, l, r, ks[14]);
    r := Mix(f, r, l, ks[15]);
    TwoRounds(f, start, keys, 14);
    assert Halves(l, r) == Rounds(f, start, keys, 16);
  }

  /** The sixteen assignments of the decryption branch. */
  method DecryptRounds(f: Round, l0: bv32, r0: bv32, ks: Schedule) returns (l: bv32, r: bv32)
    ensures Halves(l, r) == Rounds(f, Halves(l0, r0), Reverse(ks), 16)
  {
    hide *;
    ghost var start := Halves(l0, r0);
    RoundsStart(f, start, Reverse(ks));
    l, r := l0, r0;
    l := Mix(f, l, r, ks[15]);
    r := Mix(f, r, l, ks[14]);
    TwoRoundsBack(f, start, ks, 0);
    assert Halves(l, r) == Rounds(f, start, Reverse(ks), 2);
    l := Mix(f, l, r, ks[13]);
    r := Mix(f, r, l, ks[12]);
    TwoRoundsBack(f, start, ks, 2);
    assert Halves(l, r) == Rounds(f, start, Reverse(ks), 4);
    l := Mix(f, l, r, ks[11]);
    r := Mix(f, r, l, ks[10]);
    TwoRoundsBack(f, start, ks, 4);
    assert Halves(l, r) == Rounds(f, start, Reverse(ks), 6);
    l := Mix(f, l, r, ks[9]);
    r := Mix(f, r, l, ks[8]);
    TwoRoundsBack(f, start, ks, 6);
    assert Halves(l, r) == Rounds(f, start, Reverse(ks), 8);
    l := Mix(f, l, r, ks[7]);
    r := Mix(f, r, l, ks[6]);
    TwoRoundsBack(f, start, ks, 8);
    assert Halves(l, r) == Rounds(f, start, Reverse(ks), 10);
    l := Mix(f, l, r, ks[5]);
    r := Mix(f, r, l, ks[4]);
    TwoRoundsBack(f, start, ks, 10);
    assert Halves(l, r) == Rounds(f, start, Reverse(ks), 12);
    l := Mix(f, l, r, ks[3]);
    r := Mix(f, r, l, ks[2]);
    TwoRoundsBack(f, start, ks, 12);
    assert Halves(l, r) == Rounds(f, start, Reverse(ks), 14);
    l := Mix(f, l, r, ks[1]);
    r := Mix(f, r, l, ks[0]);
    TwoRoundsBack(f, start, ks, 14);
    assert Halves(l, r) == Rounds(f, start, Reverse(ks), 16);
  }

  /** enc_dec_1 as in the library: split, permute, both halves updated in turn sixteen times,
      permute back, join. */
  method EncDec1(f: Round, data: bv64, ks: Schedule, enc: bool) returns (out: bv64)
    ensures out == Block(f, data, ks, enc)
  {
    hide Ip, Fp, Rounds, LowWord, HighWord, FromWords;
    var r := LowWord(data);
    var l := HighWord(data);
    var h := Ip(Halves(r, l));
    r, l := h.l, h.r;
    if enc {
      l, r := EncryptRounds(f, l, r, ks);
    } else {
      l, r := DecryptRounds(f, l, r, ks);
    }
    h := Fp(Halves(r, l));
    r, l := h.l, h.r;
    out := FromWords(l, r);
  }

  // ------------------------------------------------------------------ the DES round function

  /** A table of 64 words. */
  type SBox = bv6 -> bv32

  datatype SBoxes = SBoxes(
    s0: SBox, s1: SBox, s2: SBox, s3: SBox, s4: SBox, s5: SBox, s6: SBox, s7: SBox)

  /** e_phase: 32 bits to eight groups of 6 bits, each in a byte of its own. */
  function EPhase(w: bv64): bv64 {
    ((w << 1) & 0x3e) | ((w >> 31) & 1) |
    ((w << 5) & 0x3f00) |
    ((w << 9) & 0x3f0000) |
    ((w << 13) & 0x3f000000) |
    ((w << 17) & 0x3f00000000) |
    ((w << 21) & 0x3f0000000000) |
    ((w << 25) & 0x3f000000000000) |
    ((w << 29) & 0x1f00000000000000) |
    ((w & 1) << 61)
  }

  /** That is the bit selection of FIPS 46-3: eight windows of six bits, each overlapping its
      neighbours by two, round the word. */
  lemma EPhaseWindows(w: bv32)
    ensures
      var e := EPhase(w as bv64);
      && e & 0xff == (((w << 1) | (w >> 31)) & 0x3f) as bv64
      && (e >> 8) & 0xff == ((w >> 3) & 0x3f) as bv64
      && (e >> 16) & 0xff == ((w >> 7) & 0x3f) as bv64
      && (e >> 24) & 0xff == ((w >> 11) & 0x3f) as bv64
      && (e >> 32) & 0xff == ((w >> 15) & 0x3f) as bv64
      && (e >> 40) & 0xff == ((w >> 19) & 0x3f) as bv64
      && (e >> 48) & 0xff == ((w >> 23) & 0x3f) as bv64
      && (e >> 56) & 0xff == (((w >> 27) | (w << 5)) & 0x3f) as bv64
  {
  }

  /** The eight table indices of fRK, a byte each: the expanded half mixed with the subkey. */
  function Expand(w: bv32, k: bv64): bv64 {
    EPhase(w as bv64) ^ k
  }

  /** The combined S-boxes and P permutation of fRK. */
  function Lookup(t: SBoxes, x: bv64): bv32 {
    t.s0((x & 0x3f) as bv6) |
    t.s1(((x >> 8) & 0x3f) as bv6) |
    t.s2(((x >> 16) & 0x3f) as bv6) |
    t.s3(((x >> 24) & 0x3f) as bv6) |
    t.s4(((x >> 32) & 0x3f) as bv6) |
    t.s5(((x >> 40) & 0x3f) as bv6) |
    t.s6(((x >> 48) & 0x3f) as bv6) |
    t.s7(((x >> 56) & 0x3f) as bv6)
  }

  /** fRK */
  function FRk(t: SBoxes, w: bv32, k: bv64): bv32 {
    Lookup(t, Expand(w, k))
  }

  function DesRound(t: SBoxes): Round {
    (w, k) => FRk(t, w, k)
  }

  const MASK: bv64 := 0x3f3f3f3f3f3f3f3f

  /** The subkeys with every bit the round function uses complemented. */
  function ComplementKey(k: bv64): bv64 {
    k ^ MASK
  }

  function ComplementKeys(ks: Schedule): Schedule {
    seq(16, i requires 0 <= i < 16 => ComplementKey(ks[i]))
  }

  function NotBlock(data: bv64): bv64 {
    !data
  }

  /** Complementing half and subkey leaves the input of the tables as it was. */
  lemma ExpandComplement(w: bv32, k: bv64)
    ensures Expand(Not(w), ComplementKey(k)) == Expand(w, k)
  {
  }

  lemma FRkComplement(t: SBoxes, w: bv32, k: bv64)
    ensures DesRound(t)(Not(w), ComplementKey(k)) == DesRound(t)(w, k)
  {
    hide Expand, Lookup, Not, ComplementKey;
    ExpandComplement(w, k);
  }

  lemma MixComplement(t: SBoxes, a: bv32, b: bv32, k: bv64)
    ensures Mix(DesRound(t), Not(a), Not(b), ComplementKey(k)) == Not(Mix(DesRound(t), a, b, k))
  {
    FRkComplement(t, b, k);
    NotXor(a, DesRound(t)(b, k));
  }

  lemma NotXor(a: bv32, b: bv32)
    ensures Not(a) ^ b == Not(a ^ b)
  {
  }

  lemma {:induction false} RoundsComplement(t: SBoxes, h: Halves, ks: seq<bv64>, cs: seq<bv64>, n: nat)
    requires n <= |ks| == |cs| && forall i :: 0 <= i < |ks| ==> cs[i] == ComplementKey(ks[i])
    ensures Rounds(DesRound(t), Complement(h), cs, n) == Complement(Rounds(DesRound(t), h, ks, n))
  {
    hide Mix, Not, ComplementKey;
    if n > 0 {
      RoundsComplement(t, h, ks, cs, n - 1);
      var g := Rounds(DesRound(t), h, ks, n - 1);
      MixComplement(t, g.l, g.r, ks[n - 1]);
    }
  }

  lemma SplitComplement(data: bv64)
    ensures Split(NotBlock(data)) == Complement(Split(data))
  {
    hide LowWord, HighWord;
    WordsOfComplement(data);
  }

  lemma WordsOfComplement(data: bv64)
    ensures LowWord(!data) == !LowWord(data)
    ensures HighWord(!data) == !HighWord(data)
  {
  }

  lemma JoinComplement(h: Halves)
    ensures Join(Complement(h)) == NotBlock(Join(h))
  {
  }

  /** Complementation: complementing the subkeys and the block complements the result, in both
      directions. */
  lemma DesComplementation(t: SBoxes, data: bv64, ks: Schedule, enc: bool)
    ensures
      Block(DesRound(t), NotBlock(data), ComplementKeys(ks), enc)
      == NotBlock(Block(DesRound(t), data, ks, enc))
  {
    hide Ip, Fp, Split, Join, Rounds, Not, NotBlock, ComplementKey;
    SplitComplement(data);
    var s := Split(data);
    PermutationsComplement(s);
    var p := Ip(s);
    var keys, cs := KeyOrder(ks, enc), KeyOrder(ComplementKeys(ks), enc);
    RoundsComplement(t, Exchange(p), keys, cs, 16);
    var q := Rounds(DesRound(t), Exchange(p), keys, 16);
    PermutationsComplement(Exchange(q));
    JoinComplement(Fp(Exchange(q)));
  }

  // ------------------------------------------------------------------ FIPS 46-3

  /** One bit of each byte of a block, that of the last byte first: of bits 24, 16, 8 and 0 of the high
      word and of the low word. */
  function Column(high: bv32, low: bv32): bv32 {
    ((high >> 24) & 1) | ((high >> 15) & 2) | ((high >> 6) & 4) | ((high << 3) & 8) |
    ((low >> 20) & 0x10) | ((low >> 11) & 0x20) | ((low >> 2) & 0x40) | ((low << 7) & 0x80)
  }

  /** The left half that the initial permutation of FIPS 46-3 makes of a block: the columns of its bits
      58, 60, 62 and 64.  Bit 1 of the standard is the most significant bit of the first byte of a block,
      and bit 0 of a half here. */
  predicate IsIpLeft(low: bv32, high: bv32, half: bv32) {
    half ==
    Column(high >> 6, low >> 6) | (Column(high >> 4, low >> 4) << 8) |
    (Column(high >> 2, low >> 2) << 16) | (Column(high, low) << 24)
  }

  /** The right half: the columns of the bits 57, 59, 61 and 63. */
  predicate IsIpRight(low: bv32, high: bv32, half: bv32) {
    half ==
    Column(high >> 7, low >> 7) | (Column(high >> 5, low >> 5) << 8) |
    (Column(high >> 3, low >> 3) << 16) | (Column(high >> 1, low >> 1) << 24)
  }

  // Each swap moves the bits of one mask and leaves the others where they are.

  predicate Moved1(a: bv32, b: bv32, c: bv32, d: bv32) {
    c == (a & 0x55555555) | ((b & 0x55555555) << 1) && d == (b & 0xaaaaaaaa) | ((a & 0xaaaaaaaa) >> 1)
  }

  lemma Swap1Moves(a: bv32, b: bv32)
    ensures Moved1(a, b, Swap1(a, b).l, Swap1(a, b).r)
  {
  }

  predicate Moved2(a: bv32, b: bv32, c: bv32, d: bv32) {
    c == (a & 0x33333333) | ((b & 0x33333333) << 2) && d == (b & 0xcccccccc) | ((a & 0xcccccccc) >> 2)
  }

  lemma Swap2Moves(a: bv32, b: bv32)
    ensures Moved2(a, b, Swap2(a, b).l, Swap2(a, b).r)
  {
  }

  predicate Moved4(a: bv32, b: bv32, c: bv32, d: bv32) {
    c == (a & 0x0f0f0f0f) | ((b & 0x0f0f0f0f) << 4) && d == (b & 0xf0f0f0f0) | ((a & 0xf0f0f0f0) >> 4)
  }

  lemma Swap4Moves(a: bv32, b: bv32)
    ensures Moved4(a, b, Swap4(a, b).l, Swap4(a, b).r)
  {
  }

  predicate Moved8(a: bv32, b: bv32, c: bv32, d: bv32) {
    c == (a & 0x00ff00ff) | ((b & 0x00ff00ff) << 8) && d == (b & 0xff00ff00) | ((a & 0xff00ff00) >> 8)
  }

  lemma Swap8Moves(a: bv32, b: bv32)
    ensures Moved8(a, b, Swap8(a, b).l, Swap8(a, b).r)
  {
  }

  predicate Moved16(a: bv32, b: bv32, c: bv32, d: bv32) {
    c == (a & 0x0000ffff) | ((b & 0x0000ffff) << 16) && d == (b & 0xffff0000) | ((a & 0xffff0000) >> 16)
  }

  lemma Swap16Moves(a: bv32, b: bv32)
    ensures Moved16(a, b, Swap16(a, b).l, Swap16(a, b).r)
  {
  }

  lemma MovesSelectLeft(l: bv32, r: bv32, al: bv32, ar: bv32, bl: bv32, br: bv32, cl: bv32, cr: bv32,
                        dl: bv32, dr: bv32, el: bv32, er: bv32)
    requires Moved4(r, l, al, ar) && Moved16(ar, al, bl, br) && Moved2(br, bl, cl, cr)
    requires Moved8(cr, cl, dl, dr) && Moved1(dr, dl, el, er)
    ensures IsIpLeft(l, r, el)
  {
  }

  lemma MovesSelectRight(l: bv32, r: bv32, al: bv32, ar: bv32, bl: bv32, br: bv32, cl: bv32, cr: bv32,
                         dl: bv32, dr: bv32, el: bv32, er: bv32)
    requires Moved4(r, l, al, ar) && Moved16(ar, al, bl, br) && Moved2(br, bl, cl, cr)
    requires Moved8(cr, cl, dl, dr) && Moved1(dr, dl, el, er)
    ensures IsIpRight(l, r, er)
  {
  }

  /** ip_z selects the bits of the standard, the right half first. */
  lemma IpSelects(h: Halves)
    ensures IsIpRight(h.l, h.r, Ip(h).l) && IsIpLeft(h.l, h.r, Ip(h).r)
  {
    hide Swap1, Swap2, Swap4, Swap8, Swap16, Moved1, Moved2, Moved4, Moved8, Moved16, IsIpLeft, IsIpRight;
    var a := Swap4(h.r, h.l);
    var b := Swap16(a.r, a.l);
    var c := Swap2(b.r, b.l);
    var d := Swap8(c.r, c.l);
    var e := Swap1(d.r, d.l);
    Swap4Moves(h.r, h.l);
    Swap16Moves(a.r, a.l);
    Swap2Moves(b.r, b.l);
    Swap8Moves(c.r, c.l);
    Swap1Moves(d.r, d.l);
    MovesSelectLeft(h.l, h.r, a.l, a.r, b.l, b.r, c.l, c.r, d.l, d.r, e.l, e.r);
    MovesSelectRight(h.l, h.r, a.l, a.r, b.l, b.r, c.l, c.r, d.l, d.r, e.l, e.r);
  }

  /** The halves run through the sixteen rounds of the standard, the subkeys in the order given. */
  predicate Feistel(f: Round, ls: seq<bv32>, rs: seq<bv32>, keys: seq<bv64>) {
    && |ls| == |rs| == 17 && |keys| == 16
    && forall i :: 0 <= i < 16 ==> ls[i + 1] == rs[i] && rs[i + 1] == ls[i] ^ f(rs[i], keys[i])
  }

  lemma {:induction false} RoundsAreFeistel(f: Round, ls: seq<bv32>, rs: seq<bv32>, keys: seq<bv64>, n: nat)
    requires Feistel(f, ls, rs, keys) && n <= 16
    ensures Rounds(f, Halves(ls[0], rs[0]), keys, n) == Halves(ls[n], rs[n])
  {
    if n > 0 {
      RoundsAreFeistel(f, ls, rs, keys, n - 1);
      assert ls[n - 1 + 1] == rs[n - 1];
    }
  }

  lemma WordsAre(data: bv64)
    ensures LowWord(data) == (data & 0xffff_ffff) as bv32 && HighWord(data) == (data >> 32) as bv32
  {
  }

  lemma IpIsOne(low: bv32, high: bv32, a: bv32, b: bv32, c: bv32, d: bv32)
    requires IsIpLeft(low, high, a) && IsIpLeft(low, high, b)
    requires IsIpRight(low, high, c) && IsIpRight(low, high, d)
    ensures a == b && c == d
  {
    hide Column;
  }

  lemma BlockSelects(f: Round, data: bv64, ks: Schedule, enc: bool)
    ensures
      Ip(Split(Block(f, data, ks, enc)))
      == Rounds(f, Exchange(Ip(Split(data))), KeyOrder(ks, enc), 16)
  {
    hide Ip, Fp, Split, Join, Rounds;
    var q := Rounds(f, Exchange(Ip(Split(data))), KeyOrder(ks, enc), 16);
    SplitJoin(Fp(Exchange(q)));
    FpInvertsIp(Exchange(q));
  }

  lemma BlockOfWords(f: Round, data: bv64, ks: Schedule, enc: bool, ls: seq<bv32>, rs: seq<bv32>)
    requires Feistel(f, ls, rs, KeyOrder(ks, enc))
    requires IsIpLeft(LowWord(data), HighWord(data), ls[0])
    requires IsIpRight(LowWord(data), HighWord(data), rs[0])
    ensures
      var out := Block(f, data, ks, enc);
      && IsIpLeft(LowWord(out), HighWord(out), rs[16])
      && IsIpRight(LowWord(out), HighWord(out), ls[16])
  {
    hide Ip, Block, IsIpLeft, IsIpRight, LowWord, HighWord, Rounds;
    var out := Block(f, data, ks, enc);
    IpSelects(Split(data));
    IpIsOne(LowWord(data), HighWord(data), ls[0], Ip(Split(data)).r, rs[0], Ip(Split(data)).l);
    RoundsAreFeistel(f, ls, rs, KeyOrder(ks, enc), 16);
    BlockSelects(f, data, ks, enc);
    IpSelects(Split(out));
  }

  lemma KeyOrderIs(ks: Schedule, enc: bool)
    ensures KeyOrder(ks, enc) == seq(16, i requires 0 <= i < 16 => if enc then ks[i] else ks[15 - i])
  {
  }

  /** enc_dec_1 is the algorithm of FIPS 46-3 for any round function: from the halves that its initial
      permutation selects, through sixteen rounds, with the subkeys in order for enciphering and in
      reverse for deciphering, to a block of which that permutation selects the halves exchanged. */
  lemma BlockIsDes(f: Round, data: bv64, ks: Schedule, enc: bool, ls: seq<bv32>, rs: seq<bv32>)
    requires Feistel(f, ls, rs, seq(16, i requires 0 <= i < 16 => if enc then ks[i] else ks[15 - i]))
    requires IsIpLeft((data & 0xffff_ffff) as bv32, (data >> 32) as bv32, ls[0])
    requires IsIpRight((data & 0xffff_ffff) as bv32, (data >> 32) as bv32, rs[0])
    ensures
      var out := Block(f, data, ks, enc);
      && IsIpLeft((out & 0xffff_ffff) as bv32, (out >> 32) as bv32, rs[16])
      && IsIpRight((out & 0xffff_ffff) as bv32, (out >> 32) as bv32, ls[16])
  {
    hide Block, KeyOrder, IsIpLeft, IsIpRight, LowWord, HighWord;
    WordsAre(data);
    WordsAre(Block(f, data, ks, enc));
    KeyOrderIs(ks, enc);
    BlockOfWords(f, data, ks, enc, ls, rs);
  }

  /** The window `i` of six bits of FIPS 46-3, wrapping round the word by one bit on either side. */
  function Window(w: bv32, i: nat): bv6 {
    match i
    case 0 => (((w << 1) | (w >> 31)) & 0x3f) as bv6
    case 1 => ((w >> 3) & 0x3f) as bv6
    case 2 => ((w >> 7) & 0x3f) as bv6
    case 3 => ((w >> 11) & 0x3f) as bv6
    case 4 => ((w >> 15) & 0x3f) as bv6
    case 5 => ((w >> 19) & 0x3f) as bv6
    case 6 => ((w >> 23) & 0x3f) as bv6
    case _ => (((w >> 27) | (w << 5)) & 0x3f) as bv6
  }

  /** Six bits of byte `i`. */
  function Six(x: bv64, i: nat): bv6 {
    match i
    case 0 => (x & 0x3f) as bv6
    case 1 => ((x >> 8) & 0x3f) as bv6
    case 2 => ((x >> 16) & 0x3f) as bv6
    case 3 => ((x >> 24) & 0x3f) as bv6
    case 4 => ((x >> 32) & 0x3f) as bv6
    case 5 => ((x >> 40) & 0x3f) as bv6
    case 6 => ((x >> 48) & 0x3f) as bv6
    case _ => ((x >> 56) & 0x3f) as bv6
  }

  lemma SixMixed0(w: bv32, k: bv64)
    ensures Six(Expand(w, k), 0) == Window(w, 0) ^ Six(k, 0)
  {
  }

  lemma SixMixed1(w: bv32, k: bv64)
    ensures Six(Expand(w, k), 1) == Window(w, 1) ^ Six(k, 1)
  {
  }

  lemma SixMixed2(w: bv32, k: bv64)
    ensures Six(Expand(w, k), 2) == Window(w, 2) ^ Six(k, 2)
  {
  }

  lemma SixMixed3(w: bv32, k: bv64)
    ensures Six(Expand(w, k), 3) == Window(w, 3) ^ Six(k, 3)
  {
  }

  lemma SixMixed4(w: bv32, k: bv64)
    ensures Six(Expand(w, k), 4) == Window(w, 4) ^ Six(k, 4)
  {
  }

  lemma SixMixed5(w: bv32, k: bv64)
    ensures Six(Expand(w, k), 5) == Window(w, 5) ^ Six(k, 5)
  {
  }

  lemma SixMixed6(w: bv32, k: bv64)
    ensures Six(Expand(w, k), 6) == Window(w, 6) ^ Six(k, 6)
  {
  }

  lemma SixMixed7(w: bv32, k: bv64)
    ensures Six(Expand(w, k), 7) == Window(w, 7) ^ Six(k, 7)
  {
  }

  /** fRK: each window of the half, mixed with its byte of the subkey, looks up a table of its own. */
  lemma RoundIsDes(t: SBoxes, w: bv32, k: bv64)
    ensures
      DesRound(t)(w, k) ==
      t.s0(Window(w, 0) ^ Six(k, 0)) | t.s1(Window(w, 1) ^ Six(k, 1)) |
      t.s2(Window(w, 2) ^ Six(k, 2)) | t.s3(Window(w, 3) ^ Six(k, 3)) |
      t.s4(Window(w, 4) ^ Six(k, 4)) | t.s5(Window(w, 5) ^ Six(k, 5)) |
      t.s6(Window(w, 6) ^ Six(k, 6)) | t.s7(Window(w, 7) ^ Six(k, 7))
  {
    hide Expand, Lookup, Window, Six;
    SixMixed0(w, k);
    SixMixed1(w, k);
    SixMixed2(w, k);
    SixMixed3(w, k);
    SixMixed4(w, k);
    SixMixed5(w, k);
    SixMixed6(w, k);
    SixMixed7(w, k);
    LookupSix(t, Expand(w, k));
  }

  lemma LookupSix(t: SBoxes, x: bv64)
    ensures
      Lookup(t, x) ==
      t.s0(Six(x, 0)) | t.s1(Six(x, 1)) | t.s2(Six(x, 2)) | t.s3(Six(x, 3)) |
      t.s4(Six(x, 4)) | t.s5(Six(x, 5)) | t.s6(Six(x, 6)) | t.s7(Six(x, 7))
  {
  }
}
