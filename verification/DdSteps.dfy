/** What each step of the copy engine keeps, whatever order the device completes its I/O in. */
module DdSteps {
  import opened Basics
  import opened DdModel

  /** One context changes; the others keep their chunks. */
  predicate SameChunk(a: Io, b: Io) {
    a.offset == b.offset && a.length == b.length && |a.buf| == |b.buf|
  }

  /** A context claims the next chunk. */
  lemma ClaimKeeps(c: Config, v: Copy, i: int, io: Io)
    requires c.Valid() && Inv(c, v) && 0 <= i < |v.ios| && !InFlight(v.ios[i])
    requires v.pos < c.ReadEnd() && |io.buf| == c.unit
    requires io.offset == v.pos && io.length == ChunkLength(c, v.pos - c.ReadStart())
    requires io.phase == Issued
    requires io.kind == if c.RoundUp(io.length) == io.length then Read else Populate
    requires io.kind == Populate ==> Target(c, io) + c.RoundUp(io.length) <= |c.original|
    ensures Inv(c, v.(ios := v.ios[i := io], pos := v.pos + io.length))
  {
    RaggedIsLast(c, v.pos - c.ReadStart());
    RoundUpLaws(c, io.length, 0);
    var w := v.(ios := v.ios[i := io], pos := v.pos + io.length);
    forall k | 0 <= k < |w.ios| && InFlight(w.ios[k])
      ensures ChunkOk(c, w, w.ios[k])
    {
      assert k != i ==> ChunkOk(c, v, v.ios[k]);
    }
    forall q | c.ReadStart() <= q < w.pos
      ensures Covered(w, q) || (q < v.pos && !Covered(v, q))
    {
      if q >= v.pos {
        assert InFlight(w.ios[i]) && w.ios[i].offset <= q < w.ios[i].offset + w.ios[i].length;
      } else {
        StaysCovered(v, w, i, q);
      }
    }
  }

  /** A byte covered before is covered after, if the changed context had no chunk or keeps it. */
  lemma StaysCovered(v: Copy, w: Copy, i: int, q: int)
    requires 0 <= i < |v.ios| && |w.ios| == |v.ios|
    requires forall k :: 0 <= k < |v.ios| && k != i ==> w.ios[k] == v.ios[k]
    requires InFlight(v.ios[i]) && v.ios[i].offset <= q < v.ios[i].offset + v.ios[i].length ==>
      InFlight(w.ios[i]) && SameChunk(v.ios[i], w.ios[i])
    ensures Covered(v, q) ==> Covered(w, q)
  {
    if Covered(v, q) {
      var k :| 0 <= k < |v.ios| && InFlight(v.ios[k])
        && v.ios[k].offset <= q < v.ios[k].offset + v.ios[k].length;
      assert InFlight(w.ios[k]) && w.ios[k].offset <= q < w.ios[k].offset + w.ios[k].length;
    }
  }

  lemma TiledStays(c: Config, v: Copy, w: Copy, i: int)
    requires c.Valid() && Tiled(c, v) && w.pos == v.pos
    requires 0 <= i < |v.ios| && |w.ios| == |v.ios|
    requires forall k :: 0 <= k < |v.ios| && k != i ==> w.ios[k] == v.ios[k]
    requires InFlight(v.ios[i]) && InFlight(w.ios[i])
    requires SameChunk(v.ios[i], w.ios[i]) && ChunkOk(c, v, w.ios[i])
    ensures Tiled(c, w)
  {
    forall k | 0 <= k < |w.ios| && InFlight(w.ios[k])
      ensures ChunkOk(c, w, w.ios[k])
    {
      assert k != i ==> ChunkOk(c, v, v.ios[k]);
    }
  }

  /** A context that keeps its chunk leaves what is settled settled. */
  lemma SettledStays(c: Config, x: Copy, w: Copy, i: int)
    requires c.Valid() && |x.out| == |c.original| && Settled(c, x)
    requires 0 <= i < |x.ios| && |w.ios| == |x.ios|
    requires forall k :: 0 <= k < |x.ios| && k != i ==> w.ios[k] == x.ios[k]
    requires InFlight(w.ios[i]) && SameChunk(x.ios[i], w.ios[i])
    requires w.out == x.out && w.pos == x.pos
    ensures Settled(c, w)
  {
    forall q | c.ReadStart() <= q < w.pos
      ensures Covered(x, q) ==> Covered(w, q)
    {
      StaysCovered(x, w, i, q);
    }
  }

  /** A context moves its chunk on: populate to read, read to write.  A transfer that was not
      performed has failed, and nothing is promised about the data from then on. */
  lemma AdvanceKeeps(c: Config, v: Copy, i: int, kind: Kind)
    requires c.Valid() && Inv(c, v) && 0 <= i < |v.ios| && InFlight(v.ios[i])
    requires (v.ios[i].kind == Populate && kind == Read) || (v.ios[i].kind == Read && kind == Write)
    requires kind == Write ==>
      Target(c, v.ios[i]) + c.RoundUp(v.ios[i].length) <= |c.original|
    ensures
      var io := v.ios[i].(kind := kind, phase := Issued);
      Inv(c, v.(ios := v.ios[i := io], clean := v.clean && v.ios[i].phase == Performed))
  {
    hide Settled, OutputOk;
    var io := v.ios[i].(kind := kind, phase := Issued);
    var w := v.(ios := v.ios[i := io], clean := v.clean && v.ios[i].phase == Performed);
    assert ChunkOk(c, v, v.ios[i]);
    forall k | 0 <= k < |w.ios| && InFlight(w.ios[k])
      ensures ChunkOk(c, w, w.ios[k])
    {
      assert ChunkOk(c, v, v.ios[k]);
    }
    if w.clean && w.whole {
      SettledStays(c, v, w, i);
    }
  }

  /** A context lets go of its chunk: the write is done, or the chunk is given up. */
  lemma ReleaseKeeps(c: Config, v: Copy, i: int, whole: bool)
    requires c.Valid() && Inv(c, v) && 0 <= i < |v.ios| && InFlight(v.ios[i])
    requires whole ==> v.whole && v.ios[i].kind == Write
    ensures Inv(c, v.(ios := v.ios[i := v.ios[i].(phase := Idle)], whole := whole,
                      clean := v.clean && v.ios[i].phase == Performed))
  {
    var w := v.(ios := v.ios[i := v.ios[i].(phase := Idle)], whole := whole,
                clean := v.clean && v.ios[i].phase == Performed);
    assert ChunkOk(c, v, v.ios[i]);
    forall k | 0 <= k < |w.ios| && InFlight(w.ios[k])
      ensures ChunkOk(c, w, w.ios[k])
    {
      assert ChunkOk(c, v, v.ios[k]);
    }
    if w.clean && whole {
      assert Stored(c, v.out, v.ios[i]);
      forall q | c.ReadStart() <= q < w.pos
        ensures v.ios[i].offset <= q < v.ios[i].offset + v.ios[i].length
          || (Covered(v, q) ==> Covered(w, q))
      {
        if !(v.ios[i].offset <= q < v.ios[i].offset + v.ios[i].length) {
          StaysCovered(v, w, i, q);
        }
      }
    }
  }

  /** An error or an interrupt only withdraws the promise that nothing has been given up. */
  lemma StopKeeps(c: Config, v: Copy)
    requires c.Valid() && Inv(c, v)
    ensures Inv(c, v.(whole := false))
  {
    forall i | 0 <= i < |v.ios| && InFlight(v.ios[i])
      ensures ChunkOk(c, v.(whole := false), v.ios[i])
    {
      assert ChunkOk(c, v, v.ios[i]);
    }
  }

  /** A refused populate loses its chunk: the position moves on without it. */
  lemma LoseKeeps(c: Config, v: Copy, n: nat)
    requires c.Valid() && Inv(c, v) && v.pos + n <= c.ReadEnd()
    ensures Inv(c, v.(pos := v.pos + n, whole := false))
  {
    var w := v.(pos := v.pos + n, whole := false);
    forall i | 0 <= i < |w.ios| && InFlight(w.ios[i])
      ensures ChunkOk(c, w, w.ios[i])
    {
      assert ChunkOk(c, v, v.ios[i]);
    }
  }

  // ------------------------------------------------------------------ the device

  /** What the buffer of an I/O becomes when the device performs a populate or a read. */
  function Filled(c: Config, v: Copy, io: Io): seq<Byte>
    requires c.Valid() && ChunkOk(c, v, io) && |v.out| == |c.original| && v.pos <= c.ReadEnd()
    requires io.kind != Write
  {
    match io.kind
    case Populate =>
      var n := c.RoundUp(io.length);
      v.out[Target(c, io)..Target(c, io) + n] + io.buf[n..]
    case Read =>
      c.input[io.offset..io.offset + io.length] + io.buf[io.length..]
  }

  lemma FillKeeps(c: Config, v: Copy, i: int)
    requires c.Valid() && Inv(c, v) && 0 <= i < |v.ios| && v.ios[i].phase == Issued
    requires v.ios[i].kind != Write
    ensures ChunkOk(c, v, v.ios[i])
    ensures
      var io := v.ios[i].(phase := Performed, buf := Filled(c, v, v.ios[i]));
      Inv(c, v.(ios := v.ios[i := io]))
  {
    hide Settled, OutputOk, Disjoint, Covered;
    var was := v.ios[i];
    assert ChunkOk(c, v, was);
    var io := was.(phase := Performed, buf := Filled(c, v, was));
    var w := v.(ios := v.ios[i := io]);
    TiledStays(c, v, w, i);
    if v.clean {
      assert BufferOk(c, was);
      TailOutside(c, v, was);
      if v.whole {
        SettledStays(c, v, w, i);
      }
    }
  }

  /** The rest of the last block lies past the end of the copy, in bytes that keep their old value. */
  lemma TailOutside(c: Config, v: Copy, io: Io)
    requires c.Valid() && Inv(c, v) && v.clean && ChunkOk(c, v, io)
    ensures forall t :: Target(c, io) + io.length <= t < |v.out| && t < Target(c, io) + c.RoundUp(io.length) ==>
      v.out[t] == c.original[t] && t >= c.WriteEnd()
  {
    if c.RoundUp(io.length) != io.length {
      assert Target(c, io) + io.length == c.WriteEnd();
    }
  }

  /** The output device when it has performed the write of `io`. */
  function Written(c: Config, v: Copy, io: Io): (out: seq<Byte>)
    requires c.Valid() && ChunkOk(c, v, io) && |v.out| == |c.original| && io.kind == Write
    ensures |out| == |v.out|
  {
    var n := c.RoundUp(io.length);
    v.out[..Target(c, io)] + io.buf[..n] + v.out[Target(c, io) + n..]
  }

  /** The write changes its own chunk to its final value and nothing else: the read-modify-write of a
      ragged last unit puts back every byte past the end. */
  lemma WrittenBytes(c: Config, v: Copy, io: Io)
    requires c.Valid() && Inv(c, v) && v.clean && ChunkOk(c, v, io) && io.kind == Write
    requires BufferOk(c, io)
    ensures forall t :: 0 <= t < |v.out| ==>
      Written(c, v, io)[t] ==
      if Target(c, io) <= t < Target(c, io) + io.length
      then c.input[t - c.WriteStart() + c.ReadStart()] else v.out[t]
  {
    TailOutside(c, v, io);
    var w := Written(c, v, io);
    var n := c.RoundUp(io.length);
    forall t | 0 <= t < |v.out|
      ensures w[t] ==
        if Target(c, io) <= t < Target(c, io) + io.length
        then c.input[t - c.WriteStart() + c.ReadStart()] else v.out[t]
    {
      if Target(c, io) <= t < Target(c, io) + n {
        assert w[t] == io.buf[t - Target(c, io)];
        if t < Target(c, io) + io.length {
          var q := t - Target(c, io) + io.offset;
          assert io.buf[q - io.offset] == c.input[q];
        }
      }
    }
  }

  /** The other chunks' bytes survive the write. */
  lemma WrittenKeepsStored(c: Config, v: Copy, io: Io, other: Io)
    requires c.Valid() && Inv(c, v) && v.clean && ChunkOk(c, v, io) && io.kind == Write
    requires BufferOk(c, io) && ChunkOk(c, v, other) && Disjoint(io, other) && Stored(c, v.out, other)
    ensures Stored(c, Written(c, v, io), other)
  {
    WrittenBytes(c, v, io);
  }

  /** Settled bytes survive the write, and its own bytes are stored. */
  lemma WrittenKeepsOutput(c: Config, v: Copy, io: Io)
    requires c.Valid() && Inv(c, v) && v.clean && ChunkOk(c, v, io) && io.kind == Write
    requires BufferOk(c, io)
    ensures OutputOk(c, Written(c, v, io))
    ensures Stored(c, Written(c, v, io), io)
    ensures v.whole ==> Settled(c, v.(out := Written(c, v, io)))
  {
    WrittenBytes(c, v, io);
    if v.whole {
      var w := v.(out := Written(c, v, io));
      forall q | c.ReadStart() <= q < w.pos && !Covered(w, q)
        ensures
          var t := c.WriteStart() + (q - c.ReadStart());
          t < |w.out| && w.out[t] == c.input[q]
      {
        assert !Covered(v, q);
      }
    }
  }

  lemma PerformedChunk(c: Config, v: Copy, io: Io)
    requires c.Valid() && ChunkOk(c, v, io)
    ensures ChunkOk(c, v, io.(phase := Performed))
    ensures io.kind == Write && v.pos <= c.ReadEnd() && BufferOk(c, io) ==>
      BufferOk(c, io.(phase := Performed))
    ensures v.pos <= c.ReadEnd() ==>
      forall out :: Stored(c, out, io) ==> Stored(c, out, io.(phase := Performed))
  {
  }

  lemma IssuedChunk(c: Config, v: Copy, i: int)
    requires c.Valid() && Inv(c, v) && 0 <= i < |v.ios| && InFlight(v.ios[i])
    ensures ChunkOk(c, v, v.ios[i]) && |v.out| == |c.original| && v.pos <= c.ReadEnd()
    ensures v.clean ==> BufferOk(c, v.ios[i])
  {
  }

  lemma OtherChunk(c: Config, v: Copy, i: int, k: int)
    requires c.Valid() && Inv(c, v) && v.clean && 0 <= i < |v.ios| && InFlight(v.ios[i])
    requires 0 <= k < |v.ios| && InFlight(v.ios[k]) && k != i
    ensures Disjoint(v.ios[i], v.ios[k])
    ensures ChunkOk(c, v, v.ios[k]) && |v.out| == |c.original| && v.pos <= c.ReadEnd()
    ensures v.ios[k].kind == Write && v.ios[k].phase == Performed ==> Stored(c, v.out, v.ios[k])
  {
    hide Settled, OutputOk;
  }

  /** A chunk in flight after the write of context `i`, that one or another. */
  lemma ChunkAfterWrite(c: Config, v: Copy, i: int, k: int, io: Io)
    requires c.Valid() && Inv(c, v) && v.clean && 0 <= i < |v.ios| && v.ios[i].phase == Issued
    requires v.ios[i].kind == Write && 0 <= k < |v.ios| && InFlight(v.ios[k])
    requires io == if k == i then v.ios[i].(phase := Performed) else v.ios[k]
    ensures ChunkOk(c, v, v.ios[i]) && ChunkOk(c, v, io) && BufferOk(c, io)
    ensures io.kind == Write && io.phase == Performed ==> Stored(c, Written(c, v, v.ios[i]), io)
  {
    hide Inv, ChunkOk, BufferOk, Stored, Settled, OutputOk, Written, Covered;
    IssuedChunk(c, v, i);
    IssuedChunk(c, v, k);
    if k == i {
      PerformedChunk(c, v, v.ios[i]);
      WrittenKeepsOutput(c, v, v.ios[i]);
    } else if io.kind == Write && io.phase == Performed {
      OtherChunk(c, v, i, k);
      WrittenKeepsStored(c, v, v.ios[i], v.ios[k]);
    }
  }

  lemma WriteKeepsBuffers(c: Config, v: Copy, i: int, w: Copy)
    requires c.Valid() && Inv(c, v) && v.clean && 0 <= i < |v.ios| && v.ios[i].phase == Issued
    requires v.ios[i].kind == Write && ChunkOk(c, v, v.ios[i])
    requires
      w == v.(ios := v.ios[i := v.ios[i].(phase := Performed)], out := Written(c, v, v.ios[i]))
    requires Tiled(c, w) && |w.out| == |c.original|
    ensures BuffersOk(c, w)
  {
    hide Written, Tiled, Inv;
    IssuedChunk(c, v, i);
    forall k | 0 <= k < |w.ios| && InFlight(w.ios[k])
      ensures ChunkOk(c, v, w.ios[k]) && v.pos <= c.ReadEnd()
      ensures BufferOk(c, w.ios[k])
      ensures w.ios[k].kind == Write && w.ios[k].phase == Performed ==> Stored(c, w.out, w.ios[k])
    {
      ChunkAfterWrite(c, v, i, k, w.ios[k]);
    }
  }

  lemma WriteKeeps(c: Config, v: Copy, i: int)
    requires c.Valid() && Inv(c, v) && 0 <= i < |v.ios| && v.ios[i].phase == Issued
    requires v.ios[i].kind == Write
    ensures ChunkOk(c, v, v.ios[i])
    ensures
      var io := v.ios[i].(phase := Performed);
      Inv(c, v.(ios := v.ios[i := io], out := Written(c, v, v.ios[i])))
  {
    hide Settled, OutputOk, Written, BuffersOk, Tiled, ChunkOk, BufferOk;
    var was := v.ios[i];
    IssuedChunk(c, v, i);
    var w := v.(ios := v.ios[i := was.(phase := Performed)], out := Written(c, v, was));
    var x := v.(out := Written(c, v, was));
    PerformedChunk(c, v, was);
    TiledStays(c, v, w, i);
    if v.clean {
      WrittenKeepsOutput(c, v, was);
      WriteKeepsBuffers(c, v, i, w);
      if v.whole {
        SettledStays(c, x, w, i);
      }
    }
  }

  // ------------------------------------------------------------------ the end

  /** With every chunk handed out, none in flight and none given up, the copy is exact. */
  lemma FinishedIsExact(c: Config, v: Copy)
    requires c.Valid() && Inv(c, v) && v.clean && v.whole
    requires v.pos == c.ReadEnd() && Flight(v.ios) == 0
    requires c.WriteStart() <= |c.original|
    ensures c.WriteEnd() <= |c.original|
    ensures v.out == c.Copied()
  {
    FlightZero(v.ios);
    assert forall q :: !Covered(v, q);
    if c.copySize > 0 {
      var q := c.ReadEnd() - 1;
      assert c.ReadStart() <= q < v.pos && !Covered(v, q);
    }
    forall t | 0 <= t < |v.out|
      ensures v.out[t] == c.Copied()[t]
    {
      if c.WriteStart() <= t < c.WriteEnd() {
        var q := t - c.WriteStart() + c.ReadStart();
        assert !Covered(v, q);
        assert v.out[c.WriteStart() + (q - c.ReadStart())] == c.input[q];
      }
    }
  }
}
