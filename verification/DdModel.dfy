/**
  The copy engine of spdk_dd on values: its configuration, the state of the I/O contexts and of the
  output device, the invariant of a copy in progress, and what each step keeps.
*/
module DdModel {
  import opened Basics

  /** What dd_run knows when it starts the contexts.  `original` is the output device before the
      copy; input and output are different devices. */
  datatype Config = Config(
    unit: nat,      // io_unit_size
    inOffset: nat,  // input_offset, in units
    outOffset: nat, // output_offset, in units
    copySize: nat,
    inBlock: nat,
    outBlock: nat,
    input: seq<Byte>,
    original: seq<Byte>)
  {
    function ReadStart(): nat {
      inOffset * unit
    }

    function ReadEnd(): nat {
      ReadStart() + copySize
    }

    function WriteStart(): nat {
      outOffset * unit
    }

    function WriteEnd(): nat {
      WriteStart() + copySize
    }

    /** SPDK_CEIL_DIV(n, block_size) * block_size */
    function RoundUp(n: nat): nat
      requires outBlock > 0
    {
      (n + outBlock - 1) / outBlock * outBlock
    }

    /** The longest transfer a context can issue. */
    function LongestChunk(): nat {
      if unit < copySize then unit else copySize
    }

    /** That transfer, rounded to whole blocks, fits in the io_unit_size bytes of a buffer. */
    predicate Fits()
      requires outBlock > 0
    {
      RoundUp(LongestChunk()) <= unit
    }

    /** What the checks before the start ensure. */
    predicate Sound() {
      && unit > 0 && inBlock > 0 && outBlock > 0
      && ReadEnd() <= |input|
    }

    predicate Valid() {
      Sound() && Fits()
    }

    /** Every submission of the copy is of whole blocks within its device. */
    predicate Accepts()
      requires unit > 0 && inBlock > 0 && outBlock > 0
    {
      copySize == 0 ||
      (&& ReadStart() % inBlock == 0 && copySize % inBlock == 0 && ReadEnd() <= |input|
       && WriteStart() % outBlock == 0 && WriteStart() + RoundUp(copySize) <= |original|
       && (copySize > unit ==> unit % inBlock == 0 && unit % outBlock == 0))
    }

    /** The copy as the user sees it: the copied bytes replaced, every other byte kept. */
    function Copied(): seq<Byte>
      requires ReadEnd() <= |input| && WriteEnd() <= |original|
    {
      original[..WriteStart()] + input[ReadStart()..ReadEnd()] + original[WriteEnd()..]
    }
  }

  /** Rounding: never down, not at all for whole blocks, and monotone. */
  lemma RoundUpLaws(c: Config, n: nat, m: nat)
    requires c.outBlock > 0
    ensures n <= c.RoundUp(n) && c.RoundUp(n) % c.outBlock == 0
    ensures c.RoundUp(n) == n <==> n % c.outBlock == 0
    ensures n <= m ==> c.RoundUp(n) <= c.RoundUp(m)
  {
    var b := c.outBlock;
    var q := (n + b - 1) / b;
    assert n + b - 1 == q * b + (n + b - 1) % b;
    assert q * b % b == 0 by {
      DivOfMultiple(q, 0, b);
    }
    if n % b == 0 {
      assert n == n / b * b;
      DivOfMultiple(n / b, b - 1, b);
    }
    if n <= m {
      DivMonotone(n + b - 1, m + b - 1, b);
      MulMonotone(q, (m + b - 1) / b, b);
    }
  }

  /** Every chunk, rounded to whole blocks, fits the buffer exactly when the longest one does. */
  lemma FitsIsExact(c: Config)
    requires c.unit > 0 && c.outBlock > 0
    ensures c.Fits() <==>
      forall read: nat :: read <= c.copySize ==> c.RoundUp(ChunkLength(c, read)) <= c.unit
  {
    assert ChunkLength(c, 0) == c.LongestChunk();
    if c.Fits() {
      forall read: nat | read <= c.copySize
        ensures c.RoundUp(ChunkLength(c, read)) <= c.unit
      {
        RoundUpLaws(c, ChunkLength(c, read), c.LongestChunk());
      }
    }
  }

  /** spdk_min(io_unit_size, copy_size - read_offset) */
  function ChunkLength(c: Config, read: nat): nat
    requires read <= c.copySize
  {
    if c.unit < c.copySize - read then c.unit else c.copySize - read
  }

  /** A chunk that is not a whole number of blocks is the last one. */
  lemma RaggedIsLast(c: Config, read: nat)
    requires c.Valid() && read <= c.copySize
    ensures
      var n := ChunkLength(c, read);
      && c.RoundUp(n) <= c.unit
      && (c.RoundUp(n) != n ==> read + n == c.copySize)
  {
    FitsIsExact(c);
    RoundUpLaws(c, ChunkLength(c, read), 0);
  }

  // ------------------------------------------------------------------ refusals

  /** The checks of spdk_bdev_read and spdk_bdev_write: whole blocks, within the device. */
  predicate Transferable(offset: int, length: int, block: nat, size: nat)
    requires block > 0
  {
    offset % block == 0 && length % block == 0 && offset + length <= size
  }

  /** A chunk starts `read` bytes into the copy. */
  predicate IsChunk(c: Config, read: int)
    requires c.unit > 0
  {
    0 <= read < c.copySize && read % c.unit == 0
  }

  predicate ReadFits(c: Config, read: nat)
    requires c.inBlock > 0 && read <= c.copySize
  {
    Transferable(c.ReadStart() + read, ChunkLength(c, read), c.inBlock, |c.input|)
  }

  predicate WriteFits(c: Config, read: nat)
    requires c.outBlock > 0 && read <= c.copySize
  {
    Transferable(c.WriteStart() + read, c.RoundUp(ChunkLength(c, read)), c.outBlock, |c.original|)
  }

  lemma RoundUpShift(c: Config, m: nat, n: nat)
    requires c.outBlock > 0 && m % c.outBlock == 0
    ensures c.RoundUp(m + n) == m + c.RoundUp(n)
  {
    var b := c.outBlock;
    var q, r := (n + b - 1) / b, (n + b - 1) % b;
    assert m == b * (m / b) && n + b - 1 == b * q + r;
    assert m + n + b - 1 == b * (m / b + q) + r;
    DivUnique(m + n + b - 1, b, m / b + q, r);
    assert (m / b + q) * b == m + q * b;
  }

  lemma MultipleOfMultiple(read: nat, unit: nat, block: nat)
    requires unit > 0 && block > 0 && read % unit == 0 && unit % block == 0
    ensures read % block == 0
  {
    var k, u := read / unit, unit / block;
    assert read == unit * k && unit == block * u;
    assert unit * k == block * (u * k);
    DivUnique(read, block, u * k, 0);
  }

  lemma ChunkAligned(c: Config, read: nat, block: nat)
    requires c.unit > 0 && block > 0 && IsChunk(c, read)
    requires c.copySize > c.unit ==> c.unit % block == 0
    ensures read % block == 0
  {
    if c.copySize > c.unit {
      MultipleOfMultiple(read, c.unit, block);
    } else {
      SmallMultiple(read, c.unit);
    }
  }

  /** Each chunk's transfers are accepted if the whole copy's condition holds. */
  lemma AcceptedRead(c: Config, read: nat)
    requires c.unit > 0 && c.inBlock > 0 && c.outBlock > 0 && c.Accepts() && IsChunk(c, read)
    ensures ReadFits(c, read)
  {
    hide Config.RoundUp;
    ChunkAligned(c, read, c.inBlock);
    ModOfSum(c.ReadStart(), read, c.inBlock);
    ModOfSum(c.copySize - read, read, c.inBlock);
  }

  lemma AcceptedWrite(c: Config, read: nat)
    requires c.unit > 0 && c.inBlock > 0 && c.outBlock > 0 && c.Accepts() && IsChunk(c, read)
    ensures WriteFits(c, read)
  {
    hide Config.RoundUp;
    var n := ChunkLength(c, read);
    ChunkAligned(c, read, c.outBlock);
    ModOfSum(c.WriteStart(), read, c.outBlock);
    RoundUpLaws(c, n, c.copySize - read);
    RoundUpShift(c, read, c.copySize - read);
  }

  lemma SmallMultiple(read: nat, unit: nat)
    requires unit > 0 && read % unit == 0 && read < unit
    ensures read == 0
  {
    DivUnique(read, unit, 0, read);
  }

  /** Where the last chunk starts. */
  lemma LastChunk(c: Config) returns (read: nat)
    requires c.unit > 0 && c.copySize > 0
    ensures IsChunk(c, read) && ChunkLength(c, read) == c.copySize - read
    ensures c.copySize <= c.unit ==> read == 0
    ensures c.copySize > c.unit ==> read >= c.unit
  {
    var k := (c.copySize - 1) / c.unit;
    read := c.unit * k;
    assert c.copySize - 1 == read + (c.copySize - 1) % c.unit;
    DivUnique(read, c.unit, k, 0);
    if c.copySize <= c.unit {
      DivUnique(c.copySize - 1, c.unit, 0, c.copySize - 1);
    } else if k == 0 {
      assert false;
    } else {
      MulMonotone(1, k, c.unit);
    }
  }

  lemma FirstChunks(c: Config)
    requires c.unit > 0 && c.copySize > 0
    ensures IsChunk(c, 0) && (c.copySize > c.unit ==> IsChunk(c, c.unit))
  {
    DivUnique(0, c.unit, 0, 0);
    DivUnique(c.unit, c.unit, 1, 0);
  }

  /** No chunk's read or write is refused as invalid if and only if `Accepts`. */
  lemma AcceptsIsExact(c: Config)
    requires c.unit > 0 && c.inBlock > 0 && c.outBlock > 0 && c.ReadEnd() <= |c.input|
    ensures c.Accepts() <==> forall read :: IsChunk(c, read) ==> ReadFits(c, read) && WriteFits(c, read)
  {
    hide ReadFits, WriteFits;
    if c.Accepts() {
      forall read | IsChunk(c, read)
        ensures ReadFits(c, read) && WriteFits(c, read)
      {
        AcceptedRead(c, read);
        AcceptedWrite(c, read);
      }
    }
    if (forall read :: IsChunk(c, read) ==> ReadFits(c, read) && WriteFits(c, read)) && c.copySize > 0 {
      FirstChunks(c);
      var last := LastChunk(c);
      FitsImplyAccepts(c, last);
    }
  }

  lemma FitsImplyAccepts(c: Config, last: nat)
    requires c.unit > 0 && c.inBlock > 0 && c.outBlock > 0 && c.ReadEnd() <= |c.input|
    requires c.copySize > 0 && IsChunk(c, last) && ChunkLength(c, last) == c.copySize - last
    requires c.copySize <= c.unit ==> last == 0
    requires ReadFits(c, 0) && WriteFits(c, 0) && ReadFits(c, last) && WriteFits(c, last)
    requires c.copySize > c.unit ==> WriteFits(c, c.unit)
    ensures c.Accepts()
  {
    if c.copySize > c.unit {
      NoRemainder(c.WriteStart(), c.unit, c.outBlock);
      MultipleOfMultiple(last, c.unit, c.inBlock);
      MultipleOfMultiple(last, c.unit, c.outBlock);
    }
    ModOfSum(c.copySize - last, last, c.inBlock);
    RoundUpShift(c, last, c.copySize - last);
  }

  lemma NoRemainder(a: nat, m: nat, b: nat)
    requires b > 0 && a % b == 0 && (a + m) % b == 0
    ensures m % b == 0
  {
    ModOfSum(m, a, b);
  }

  // ------------------------------------------------------------------ contexts

  datatype Kind = Populate | Read | Write

  /** Idle contexts have no I/O; an issued one may at any time be performed by the device. */
  datatype Phase = Idle | Issued | Performed

  datatype Io = Io(offset: nat, length: nat, kind: Kind, phase: Phase, buf: seq<Byte>)

  /** `clean`: no I/O has failed on the device.  `whole`: no error and no interrupt, so no chunk has
      been given up. */
  datatype Copy = Copy(ios: seq<Io>, out: seq<Byte>, pos: nat, clean: bool, whole: bool)

  predicate InFlight(io: Io) {
    io.phase != Idle
  }

  /** Where in the output device the chunk goes. */
  function Target(c: Config, io: Io): int {
    c.WriteStart() + (io.offset - c.ReadStart())
  }

  predicate Disjoint(a: Io, b: Io) {
    a.offset + a.length <= b.offset || b.offset + b.length <= a.offset
  }

  /** One chunk in flight: where it lies, and that the device took its output transfers. */
  predicate ChunkOk(c: Config, v: Copy, io: Io)
    requires c.Valid()
  {
    && c.ReadStart() <= io.offset && 0 < io.length && io.offset + io.length <= v.pos
    && |io.buf| == c.unit
    && c.RoundUp(io.length) <= c.unit
    && io.length <= c.RoundUp(io.length)
    && (c.RoundUp(io.length) != io.length ==> io.offset + io.length == c.ReadEnd())
    && (io.kind != Read || c.RoundUp(io.length) != io.length ==>
          Target(c, io) + c.RoundUp(io.length) <= |c.original|)
    && (io.kind == Populate ==> c.RoundUp(io.length) != io.length)
  }

  /** The chunk's bytes of the output device are the input's. */
  predicate Stored(c: Config, out: seq<Byte>, io: Io)
    requires c.Valid() && c.ReadStart() <= io.offset && io.offset + io.length <= |c.input|
  {
    && Target(c, io) + io.length <= |out|
    && forall q :: io.offset <= q < io.offset + io.length ==>
         out[c.WriteStart() + (q - c.ReadStart())] == c.input[q]
  }

  /** What the buffer of a chunk holds by now: the old tail of the last block once it is populated,
      the input bytes once they are read. */
  predicate BufferOk(c: Config, io: Io)
    requires c.Valid() && |io.buf| == c.unit && io.length <= c.RoundUp(io.length) <= c.unit
    requires c.ReadStart() <= io.offset && io.offset + io.length <= |c.input|
    requires io.kind != Read || c.RoundUp(io.length) != io.length ==>
      Target(c, io) + c.RoundUp(io.length) <= |c.original|
  {
    && (!(io.kind == Populate && io.phase == Issued) ==>
          forall t :: Target(c, io) + io.length <= t < Target(c, io) + c.RoundUp(io.length) ==>
            io.buf[t - Target(c, io)] == c.original[t])
    && (io.kind == Write || (io.kind == Read && io.phase == Performed) ==>
          forall q :: io.offset <= q < io.offset + io.length ==> io.buf[q - io.offset] == c.input[q])
  }

  predicate Covered(v: Copy, q: int) {
    exists i :: 0 <= i < |v.ios| && InFlight(v.ios[i])
      && v.ios[i].offset <= q < v.ios[i].offset + v.ios[i].length
  }

  /** Chunks in flight lie side by side below `pos`. */
  predicate Tiled(c: Config, v: Copy)
    requires c.Valid()
  {
    && c.ReadStart() <= v.pos <= c.ReadEnd()
    && (forall i :: 0 <= i < |v.ios| && InFlight(v.ios[i]) ==> ChunkOk(c, v, v.ios[i]))
    && (forall i, j :: 0 <= i < j < |v.ios| && InFlight(v.ios[i]) && InFlight(v.ios[j]) ==>
          Disjoint(v.ios[i], v.ios[j]))
  }

  /** Output bytes outside the target range are untouched, those inside are old or final. */
  predicate OutputOk(c: Config, out: seq<Byte>)
    requires c.Valid()
  {
    && |out| == |c.original|
    && (forall q :: 0 <= q < |out| && !(c.WriteStart() <= q < c.WriteEnd()) ==>
          out[q] == c.original[q])
    && (forall q :: 0 <= q < |out| && c.WriteStart() <= q < c.WriteEnd() ==>
          out[q] == c.original[q] || out[q] == c.input[q - c.WriteStart() + c.ReadStart()])
  }

  /** Every byte handed out and no longer in flight has reached the output. */
  predicate Settled(c: Config, v: Copy)
    requires c.Valid() && |v.out| == |c.original|
  {
    forall q :: c.ReadStart() <= q < v.pos && q < |c.input| && !Covered(v, q) ==>
      var t := c.WriteStart() + (q - c.ReadStart());
      t < |v.out| && v.out[t] == c.input[q]
  }

  /** Every buffer in flight holds what it should, and what a finished write put out is there. */
  predicate BuffersOk(c: Config, v: Copy)
    requires c.Valid() && Tiled(c, v) && |v.out| == |c.original|
  {
    forall i :: 0 <= i < |v.ios| && InFlight(v.ios[i]) ==>
      && BufferOk(c, v.ios[i])
      && (v.ios[i].kind == Write && v.ios[i].phase == Performed ==> Stored(c, v.out, v.ios[i]))
  }

  predicate Inv(c: Config, v: Copy)
    requires c.Valid()
  {
    && Tiled(c, v)
    && |v.out| == |c.original|
    && (v.clean ==> OutputOk(c, v.out) && BuffersOk(c, v) && (v.whole ==> Settled(c, v)))
  }

  // ------------------------------------------------------------------ bookkeeping

  /** I/Os in flight. */
  function Flight(ios: seq<Io>): nat {
    if ios == [] then 0
    else Flight(ios[..|ios| - 1]) + if InFlight(ios[|ios| - 1]) then 1 else 0
  }

  /** Completions a context still needs for its chunk. */
  function Left(io: Io): nat {
    if !InFlight(io) then 0
    else match io.kind case Populate => 3 case Read => 2 case Write => 1
  }

  function TotalLeft(ios: seq<Io>): nat {
    if ios == [] then 0 else TotalLeft(ios[..|ios| - 1]) + Left(ios[|ios| - 1])
  }

  function Unperformed(ios: seq<Io>): nat {
    if ios == [] then 0
    else Unperformed(ios[..|ios| - 1]) + if ios[|ios| - 1].phase == Issued then 1 else 0
  }

  /** Completions still to come, at most. */
  function Work(c: Config, v: Copy): nat
    requires v.pos <= c.ReadEnd()
  {
    3 * (c.ReadEnd() - v.pos) + TotalLeft(v.ios)
  }

  lemma {:induction false} CountsUpdate(ios: seq<Io>, i: nat, io: Io)
    requires i < |ios|
    ensures Flight(ios[i := io]) ==
      Flight(ios) - (if InFlight(ios[i]) then 1 else 0) + (if InFlight(io) then 1 else 0)
    ensures TotalLeft(ios[i := io]) == TotalLeft(ios) - Left(ios[i]) + Left(io)
    ensures Unperformed(ios[i := io]) == Unperformed(ios)
      - (if ios[i].phase == Issued then 1 else 0) + (if io.phase == Issued then 1 else 0)
  {
    var n := |ios| - 1;
    if i < n {
      CountsUpdate(ios[..n], i, io);
      assert ios[i := io][..n] == ios[..n][i := io];
    } else {
      assert ios[i := io][..n] == ios[..n];
    }
  }

  lemma {:induction false} FlightZero(ios: seq<Io>)
    ensures Flight(ios) == 0 <==> forall i :: 0 <= i < |ios| ==> !InFlight(ios[i])
  {
    if ios != [] {
      var n := |ios| - 1;
      FlightZero(ios[..n]);
      assert forall i :: 0 <= i < n ==> ios[..n][i] == ios[i];
      assert Flight(ios) == Flight(ios[..n]) + if InFlight(ios[n]) then 1 else 0;
    }
  }
}
