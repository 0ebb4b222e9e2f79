/** Little-endian words in byte buffers, as the casts between uint8_t and uint64_t pointers see them. */
module DesBytes {

  /** The bytes of a word, least significant first. */
  datatype Eight = Eight(b0: bv8, b1: bv8, b2: bv8, b3: bv8, b4: bv8, b5: bv8, b6: bv8, b7: bv8)

  function Compose(e: Eight): bv64 {
    (e.b0 as bv64) | ((e.b1 as bv64) << 8) | ((e.b2 as bv64) << 16) | ((e.b3 as bv64) << 24) |
    ((e.b4 as bv64) << 32) | ((e.b5 as bv64) << 40) | ((e.b6 as bv64) << 48) | ((e.b7 as bv64) << 56)
  }

  function Decompose(w: bv64): Eight {
    Eight((w & 0xff) as bv8, ((w >> 8) & 0xff) as bv8, ((w >> 16) & 0xff) as bv8,
          ((w >> 24) & 0xff) as bv8, ((w >> 32) & 0xff) as bv8, ((w >> 40) & 0xff) as bv8,
          ((w >> 48) & 0xff) as bv8, ((w >> 56) & 0xff) as bv8)
  }

  lemma ComposeDecompose(w: bv64)
    ensures Compose(Decompose(w)) == w
  {
  }

  lemma DecomposeCompose(e: Eight)
    ensures Decompose(Compose(e)) == e
  {
  }

  /** A word in memory. */
  function Load(b: seq<bv8>): bv64
    requires |b| == 8
  {
    Compose(Eight(b[0], b[1], b[2], b[3], b[4], b[5], b[6], b[7]))
  }

  function Store(w: bv64): (b: seq<bv8>)
    ensures |b| == 8
  {
    var e := Decompose(w);
    [e.b0, e.b1, e.b2, e.b3, e.b4, e.b5, e.b6, e.b7]
  }

  lemma LoadStore(w: bv64)
    ensures Load(Store(w)) == w
  {
    hide Compose, Decompose;
    ComposeDecompose(w);
  }

  lemma StoreLoad(b: seq<bv8>)
    requires |b| == 8
    ensures Store(Load(b)) == b
  {
    hide Compose, Decompose;
    DecomposeCompose(Eight(b[0], b[1], b[2], b[3], b[4], b[5], b[6], b[7]));
  }

  /** The byte at address `i` holds the bits from 8 * i on. */
  lemma LittleEndian(b: seq<bv8>)
    requires |b| == 8
    ensures
      var w := Load(b);
      && b[0] == (w & 0xff) as bv8 && b[1] == ((w >> 8) & 0xff) as bv8
      && b[2] == ((w >> 16) & 0xff) as bv8 && b[3] == ((w >> 24) & 0xff) as bv8
      && b[4] == ((w >> 32) & 0xff) as bv8 && b[5] == ((w >> 40) & 0xff) as bv8
      && b[6] == ((w >> 48) & 0xff) as bv8 && b[7] == ((w >> 56) & 0xff) as bv8
  {
    hide Compose;
    var e := Eight(b[0], b[1], b[2], b[3], b[4], b[5], b[6], b[7]);
    DecomposeCompose(e);
    assert Decompose(Compose(e)) == e;
  }

  // ------------------------------------------------------------------ buffers

  function Words(b: seq<bv8>): (ws: seq<bv64>)
    ensures |ws| == |b| / 8
    ensures forall i :: 0 <= i < |ws| ==> ws[i] == Load(b[8 * i..8 * i + 8])
  {
    seq(|b| / 8, i requires 0 <= i < |b| / 8 => Load(b[8 * i..8 * i + 8]))
  }

  function Bytes(ws: seq<bv64>): (b: seq<bv8>)
    ensures |b| == 8 * |ws|
  {
    if ws == [] then [] else Bytes(ws[..|ws| - 1]) + Store(ws[|ws| - 1])
  }

  lemma {:induction false} BytesAt(ws: seq<bv64>, i: nat)
    requires i < |ws|
    ensures Bytes(ws)[8 * i..8 * i + 8] == Store(ws[i])
  {
    var n := |ws| - 1;
    if i < n {
      BytesAt(ws[..n], i);
      assert Bytes(ws)[8 * i..8 * i + 8] == Bytes(ws[..n])[8 * i..8 * i + 8];
    }
  }

  lemma WordsOfBytes(ws: seq<bv64>)
    ensures Words(Bytes(ws)) == ws
  {
    hide Load, Store;
    forall i | 0 <= i < |ws|
      ensures Words(Bytes(ws))[i] == ws[i]
    {
      BytesAt(ws, i);
      LoadStore(ws[i]);
    }
  }

  lemma SliceOfPrefix<T>(b: seq<T>, m: nat, i: nat, j: nat)
    requires i <= j <= m <= |b|
    ensures b[..m][i..j] == b[i..j]
  {
  }

  lemma WordsPrefix(b: seq<bv8>, k: nat)
    requires 8 * k <= |b|
    ensures Words(b)[..k] == Words(b[..8 * k])
  {
    hide Load;
    forall i | 0 <= i < k
      ensures Words(b)[i] == Words(b[..8 * k])[i]
    {
      SliceOfPrefix(b, 8 * k, 8 * i, 8 * i + 8);
    }
  }

  lemma BytesStep(ws: seq<bv64>, w: bv64)
    ensures Bytes([]) == [] && Bytes(ws + [w]) == Bytes(ws) + Store(w)
  {
    hide Store;
    assert (ws + [w])[..|ws|] == ws;
  }

  lemma SplitAt<T>(b: seq<T>, m: nat)
    requires m <= |b|
    ensures b == b[..m] + b[m..]
  {
  }

  /** The words of a buffer with one more word. */
  lemma WordsStep(b: seq<bv8>, k: nat)
    requires |b| == 8 * k + 8
    ensures Words(b) == Words(b[..8 * k]) + [Load(b[8 * k..8 * k + 8])]
  {
    hide Load;
    WordsPrefix(b, k);
    SplitAt(Words(b), k);
  }

  lemma {:induction false} BytesOfWords(b: seq<bv8>)
    requires |b| % 8 == 0
    ensures Bytes(Words(b)) == b
  {
    hide Load, Store, Words, Bytes;
    if b == [] {
      BytesStep([], 0);
    } else {
      var k := |b| / 8 - 1;
      var last := b[8 * k..8 * k + 8];
      WordsStep(b, k);
      BytesOfWords(b[..8 * k]);
      BytesStep(Words(b[..8 * k]), Load(last));
      StoreLoad(last);
      SplitAt(b, 8 * k);
    }
  }

  // ------------------------------------------------------------------ shifting out bytes

  lemma ShiftByte(t: bv64)
    ensures var e, s := Decompose(t), Decompose(t >> 8);
      s == Eight(e.b1, e.b2, e.b3, e.b4, e.b5, e.b6, e.b7, 0)
  {
  }

  lemma ShiftTwoBytes(t: bv64)
    ensures var e, s := Decompose(t), Decompose(t >> 16);
      s == Eight(e.b2, e.b3, e.b4, e.b5, e.b6, e.b7, 0, 0)
  {
  }

  function Xor8(a: bv8, b: bv8): bv8 {
    a ^ b
  }

  lemma Xor8Is(a: bv8, b: bv8)
    ensures Xor8(a, b) == a ^ b
  {
  }

  /** The bytes of a 16-bit and of a 32-bit word in memory. */
  datatype Two = Two(b0: bv8, b1: bv8)

  datatype Four = Four(b0: bv8, b1: bv8, b2: bv8, b3: bv8)

  function Decompose16(v: bv16): Two {
    Two((v & 0xff) as bv8, (v >> 8) as bv8)
  }

  function Decompose32(v: bv32): Four {
    Four((v & 0xff) as bv8, ((v >> 8) & 0xff) as bv8, ((v >> 16) & 0xff) as bv8, (v >> 24) as bv8)
  }

  function Xor16(b0: bv8, b1: bv8, t: bv64): bv16 {
    ((b0 as bv16) | ((b1 as bv16) << 8)) ^ ((t & 0xffff) as bv16)
  }

  function Xor32(b0: bv8, b1: bv8, b2: bv8, b3: bv8, t: bv64): bv32 {
    ((b0 as bv32) | ((b1 as bv32) << 8) | ((b2 as bv32) << 16) | ((b3 as bv32) << 24))
    ^ ((t & 0xffff_ffff) as bv32)
  }

  // A wider XOR is one of each byte.

  lemma Xor16Bytes(b0: bv8, b1: bv8, t: bv64)
    ensures var e := Decompose(t);
      Decompose16(Xor16(b0, b1, t)) == Two(Xor8(b0, e.b0), Xor8(b1, e.b1))
  {
  }

  lemma Xor32Bytes(b0: bv8, b1: bv8, b2: bv8, b3: bv8, t: bv64)
    ensures var e := Decompose(t);
      Decompose32(Xor32(b0, b1, b2, b3, t))
      == Four(Xor8(b0, e.b0), Xor8(b1, e.b1), Xor8(b2, e.b2), Xor8(b3, e.b3))
  {
  }
}
