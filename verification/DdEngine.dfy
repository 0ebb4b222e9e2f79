/**
  The copy engine of spdk_dd between two block devices: `queue_depth` I/O contexts that cycle
  through populate, read and write on one reactor.

  A callback is one atomic step.  The device may perform an issued I/O at any moment before the
  completion callback runs, completions come in any order, and an I/O that has failed on the device
  completes like any other: the callbacks do not look at their `success` argument.
*/
module DdEngine {
  import opened Basics
  import opened DdModel
  import opened DdSteps
  import opened DdGrid

  const EINVAL := 22
  const ENOMEM := 12

  class Engine {
    const c: Config
    const ios: array<Io>
    const output: array<Byte>
    var pos: nat          // g_job.input.pos
    var outstanding: nat  // g_job.outstanding
    var error: int        // g_error
    var interrupt: bool   // g_interrupt
    var exits: nat        // calls of spdk_app_stop so far
    var exitCode: int     // argument of the last one

    ghost var clean: bool // no I/O has failed on the device

    ghost function View(): Copy
      reads this, ios, output
    {
      Copy(ios[..], output[..], pos, clean, error == 0 && !interrupt)
    }

    constructor (config: Config, queueDepth: nat)
      requires config.Valid()
      ensures Books(0) && Parked(0, -1) && Smooth()
      ensures c == config && ios.Length == queueDepth && output.Length == |config.original|
      ensures forall k :: 0 <= k < ios.Length ==> !InFlight(ios[k])
      ensures pos == c.ReadStart() && outstanding == 0 && exits == 0
      ensures error == 0 && !interrupt && clean
      ensures fresh(ios) && fresh(output) && ios as object != output
    {
      c := config;
      var buf := seq(config.unit, _ => 0 as Byte);
      ios := new Io[queueDepth](_ => Io(0, 0, Populate, Idle, buf));
      output := new Byte[|config.original|](k requires 0 <= k < |config.original| => config.original[k]);
      pos, outstanding, error, interrupt := config.ReadStart(), 0, 0, false;
      exits, exitCode := 0, 0;
      clean := true;
      new;
      assert output[..] == config.original;
      StartOnGrid(c);
      FlightZero(ios[..]);
      assert forall k :: 0 <= k < ios.Length ==> !InFlight(ios[..][k]);
    }

    /** `handling` chunks are with a callback: not idle, not with the device. */
    ghost predicate Books(handling: nat)
      reads this, ios, output
    {
      && c.Valid()
      && output.Length == |c.original|
      && c.ReadStart() <= pos <= c.ReadEnd()
      && (forall k :: 0 <= k < ios.Length ==> |ios[k].buf| == c.unit)
      && Inv(c, View())
      && outstanding + handling == Flight(ios[..])
    }

    /** A context with nothing to do, among the first `n` and other than `skip`, has been told that
        everything is handed out, or that the copy is being stopped. */
    ghost predicate Parked(n: int, skip: int)
      reads this, ios
    {
      error == 0 && !interrupt ==>
        forall k :: 0 <= k < n && k < ios.Length && k != skip && !InFlight(ios[k]) ==>
          pos == c.ReadEnd()
    }

    /** Chunks in flight are the copy's units; if none of their transfers is invalid the only error is a
        want of memory; and as long as nothing is given up, none handed to a device so far was.  The
        next transfer of context `skip` is being handed over. */
    ghost predicate SmoothBut(skip: int)
      reads `pos, `error, `interrupt, ios
    {
      && c.Valid()
      && OnGrid(c, pos)
      && (forall k :: 0 <= k < ios.Length && InFlight(ios[k]) ==> GridChunk(c, ios[k]))
      && error in {0, -ENOMEM, -EINVAL} && (c.Accepts() ==> error != -EINVAL)
      && Taken(c, ios[..], pos, error == 0 && !interrupt, skip)
    }

    ghost predicate Smooth()
      reads `pos, `error, `interrupt, ios
    {
      SmoothBut(-1)
    }

    /** The other contexts are left alone and nothing is forgotten. */
    twostate predicate Local(i: int)
      reads this, ios, output
    {
      && (forall k :: 0 <= k < ios.Length && k != i ==> ios[k] == old(ios[k]))
      && output[..] == old(output[..])
      && interrupt == old(interrupt)
      && (old(error) != 0 ==> error == old(error))
      && (clean ==> old(clean))
      && pos >= old(pos)
    }

    /** Each callback that leaves nothing outstanding signals the exit once, with the error code so
        far; no other does. */
    twostate predicate ExitsOnce()
      reads this
    {
      && exits == old(exits) + (if outstanding == 0 then 1 else 0)
      && (outstanding == 0 ==> exitCode == error)
    }

    /** dd_exit */
    method Exit(rc: int)
      modifies this`exits, this`exitCode
      ensures exits == old(exits) + 1 && exitCode == rc
    {
      exits, exitCode := exits + 1, rc;
    }

    /** spdk_bdev_read and spdk_bdev_write as far as the engine can see: refused when not
        transferable, possibly refused for want of memory, else queued. */
    static method Submit(offset: int, length: int, block: nat, size: nat) returns (rc: int)
      requires block > 0
      ensures rc == 0 ==> Transferable(offset, length, block, size)
      ensures rc == 0 || rc == -ENOMEM || (rc == -EINVAL && !Transferable(offset, length, block, size))
    {
      if !Transferable(offset, length, block, size) {
        return -EINVAL;
      }
      if * {
        return -ENOMEM;
      }
      return 0;
    }

    /** The chunk of context `i` is given up. */
    method Drop(i: int)
      requires SmoothBut(i)
      requires Books(1) && 0 <= i < ios.Length && InFlight(ios[i])
      requires error != 0 || interrupt
      modifies this`clean, ios
      ensures Smooth()
      ensures Books(0) && !InFlight(ios[i]) && Local(i)
      ensures TotalLeft(ios[..]) < old(TotalLeft(ios[..]))
    {
      hide Inv, Flight, TotalLeft, Unperformed;
      ReleaseKeeps(c, View(), i, false);
      var io := ios[i].(phase := Idle);
      CountsUpdate(ios[..], i, io);
      ghost var before := ios[..];
      clean := clean && ios[i].phase == Performed;
      ios[i] := io;
      assert ios[..] == before[i := io];
    }

    /** The submission of context `i` was refused: the chunk is given up and the error kept. */
    method Refused(i: int, rc: int)
      requires SmoothBut(i)
      requires Books(1) && 0 <= i < ios.Length && InFlight(ios[i])
      requires rc == -ENOMEM || (rc == -EINVAL && !c.Accepts())
      requires error == 0
      modifies this`error, this`exits, this`exitCode, this`clean, ios
      ensures Smooth()
      ensures Books(0) && !InFlight(ios[i]) && Local(i) && ExitsOnce()
      ensures error != 0 && pos == old(pos) && outstanding == old(outstanding)
      ensures TotalLeft(ios[..]) < old(TotalLeft(ios[..]))
    {
      StopKeeps(c, View());
      error := rc;
      Drop(i);
      if outstanding == 0 {
        Exit(rc);
      }
    }

    /** The chunk of context `i` moves on to its next transfer. */
    method Advance(i: int, kind: Kind)
      requires SmoothBut(i)
      requires Books(1) && 0 <= i < ios.Length && InFlight(ios[i])
      requires (ios[i].kind == Populate && kind == Read) || (ios[i].kind == Read && kind == Write)
      requires kind == Write ==>
        Target(c, ios[i]) + c.RoundUp(ios[i].length) <= |c.original|
      requires error == 0 && !interrupt ==> SoFarTaken(c, ios[i].(kind := kind))
      modifies this`outstanding, this`clean, ios
      ensures Smooth()
      ensures Books(0) && Local(i) && outstanding == old(outstanding) + 1
      ensures InFlight(ios[i]) && ios[i].kind == kind
      ensures TotalLeft(ios[..]) == old(TotalLeft(ios[..])) - 1
    {
      hide Inv, Flight, TotalLeft, Unperformed;
      AdvanceKeeps(c, View(), i, kind);
      var io := ios[i].(kind := kind, phase := Issued);
      TakenUpdate(c, ios[..], pos, error == 0 && !interrupt, i, i, io);
      CountsUpdate(ios[..], i, io);
      ghost var before := ios[..];
      clean := clean && ios[i].phase == Performed;
      ios[i] := io;
      outstanding := outstanding + 1;
      assert ios[..] == before[i := io];
    }

    /** A chunk whose read was taken, and whose write is; and the same one transfer earlier. */
    lemma WriteTaken(i: int)
      requires Smooth() && 0 <= i < ios.Length && InFlight(ios[i]) && ios[i].kind == Read
      requires Transferable(Target(c, ios[i]), c.RoundUp(ios[i].length), c.outBlock, |c.original|)
      ensures SmoothBut(i)
      ensures error == 0 && !interrupt ==> SoFarTaken(c, ios[i].(kind := Write))
    {
      hide Transferable, OnGrid;
      assert error == 0 && !interrupt ==> SoFarTaken(c, ios[..][i]);
    }

    lemma ReadTaken(i: int)
      requires SmoothBut(i) && 0 <= i < ios.Length && InFlight(ios[i])
      requires Transferable(ios[i].offset, ios[i].length, c.inBlock, |c.input|)
      ensures SoFarTaken(c, ios[i].(kind := Read))
    {
      hide Transferable, OnGrid, Taken;
    }

    lemma FetchTaken(i: int)
      requires SmoothBut(i) && 0 <= i < ios.Length && InFlight(ios[i]) && ios[i].kind == Populate
      ensures Smooth()
    {
      hide OnGrid;
      TakenNow(c, ios[..], pos, error == 0 && !interrupt, i);
    }

    lemma SmoothAnyway(i: int)
      requires Smooth()
      ensures SmoothBut(i)
    {
      hide OnGrid, GridChunk;
    }

    /** dd_target_write, for a chunk whose read has completed. */
    method TargetWrite(i: int)
      requires Smooth()
      requires Books(1) && 0 <= i < ios.Length && InFlight(ios[i]) && ios[i].kind == Read
      modifies this`outstanding, this`error, this`exits, this`exitCode, this`clean, ios
      ensures Smooth()
      ensures Books(0) && Local(i) && ExitsOnce() && pos == old(pos)
      ensures InFlight(ios[i]) || error != 0 || interrupt
      ensures TotalLeft(ios[..]) < old(TotalLeft(ios[..]))
    {
      hide Flight, TotalLeft, Unperformed, BuffersOk, Settled, OutputOk, Taken, SoFarTaken, OnGrid,
        GridChunk, Transferable;
      SmoothAnyway(i);
      var length := c.RoundUp(ios[i].length);
      var writeOffset := c.WriteStart() + (ios[i].offset - c.ReadStart());
      if error != 0 || interrupt {
        Drop(i);
        if outstanding == 0 {
          Exit(error);
        }
        return;
      }
      ChunkFits(c, ios[i]);
      var rc := Submit(writeOffset, length, c.outBlock, output.Length);
      if rc != 0 {
        Refused(i, rc);
        return;
      }
      WriteTaken(i);
      TransferableWithin(writeOffset, length, c.outBlock, output.Length);
      Advance(i, Write);
    }

    /** dd_target_read, for a chunk that was just claimed or whose populate has completed. */
    method TargetRead(i: int)
      requires SmoothBut(i)
      requires Books(1) && 0 <= i < ios.Length && InFlight(ios[i])
      requires ios[i].kind == Populate || (ios[i].kind == Read && ios[i].phase == Issued)
      modifies this`outstanding, this`error, this`exits, this`exitCode, this`clean, ios
      ensures Smooth()
      ensures Books(0) && Local(i) && ExitsOnce() && pos == old(pos)
      ensures outstanding >= old(outstanding)
      ensures outstanding == old(outstanding) ==> error != 0 || interrupt
      ensures InFlight(ios[i]) || error != 0 || interrupt
      ensures old(ios[i].kind) == Populate ==> TotalLeft(ios[..]) < old(TotalLeft(ios[..]))
      ensures TotalLeft(ios[..]) <= old(TotalLeft(ios[..]))
    {
      hide Flight, TotalLeft, Unperformed, BuffersOk, Settled, OutputOk, Taken, SoFarTaken, OnGrid,
        GridChunk, Transferable;
      if error != 0 || interrupt {
        Drop(i);
        if outstanding == 0 {
          Exit(error);
        }
        return;
      }
      ChunkFits(c, ios[i]);
      var rc := Submit(ios[i].offset, ios[i].length, c.inBlock, |c.input|);
      if rc != 0 {
        Refused(i, rc);
        return;
      }
      ReadTaken(i);
      if ios[i].kind == Populate {
        Advance(i, Read);
      } else {
        TakenNow(c, ios[..], pos, error == 0 && !interrupt, i);
        outstanding := outstanding + 1;
      }
    }

    /** dd_target_populate_buffer: an idle context claims the next chunk.  A chunk of whole blocks is
        read at once; for a ragged one the blocks it goes to are fetched first. */
    method PopulateBuffer(i: int, ghost n: int)
      requires Smooth()
      requires Books(0) && 0 <= i < ios.Length && !InFlight(ios[i])
      requires Parked(n, i)
      modifies this`pos, this`outstanding, this`error, this`exits, this`exitCode, this`clean, ios
      ensures Smooth()
      ensures Books(0) && Local(i) && ExitsOnce()
      ensures outstanding >= old(outstanding)
      ensures old(pos == c.ReadEnd() || error != 0 || interrupt) ==> outstanding == old(outstanding)
      ensures outstanding == old(outstanding) && error == 0 ==> pos == old(pos)
      ensures Parked(n, -1)
      ensures Work(c, View()) <= old(Work(c, View()))
    {
      hide Inv, Flight, TotalLeft, Unperformed, OnGrid, GridChunk, Taken;
      var n := ChunkLength(c, pos - c.ReadStart());
      if n == 0 || error != 0 || interrupt {
        if outstanding == 0 {
          Exit(error);
        }
        return;
      }
      if n % c.outBlock == 0 {
        ClaimAndRead(i);
      } else {
        ClaimAndFetch(i);
      }
    }

    /** A ragged chunk: the blocks it will be written to are fetched first. */
    method ClaimAndFetch(i: int)
      requires Smooth()
      requires Books(0) && 0 <= i < ios.Length && !InFlight(ios[i])
      requires pos < c.ReadEnd() && error == 0 && !interrupt
      requires ChunkLength(c, pos - c.ReadStart()) % c.outBlock != 0
      modifies this`pos, this`outstanding, this`error, this`exits, this`exitCode, this`clean, ios
      ensures Smooth()
      ensures Books(0) && Local(i) && ExitsOnce()
      ensures InFlight(ios[i]) || error != 0
      ensures outstanding >= old(outstanding)
      ensures outstanding == old(outstanding) ==> error != 0
      ensures Work(c, View()) <= old(Work(c, View()))
    {
      hide Inv, Flight, TotalLeft, Unperformed, OnGrid, GridChunk, Taken, Transferable;
      var readOffset := pos - c.ReadStart();
      var n := ChunkLength(c, readOffset);
      NextFits(c, pos);
      var rc := Submit(c.WriteStart() + readOffset, c.RoundUp(n), c.outBlock, output.Length);
      if rc != 0 {
        Lost(n, rc);
        return;
      }
      TransferableWithin(c.WriteStart() + readOffset, c.RoundUp(n), c.outBlock, output.Length);
      Claim(i, Populate);
      FetchTaken(i);
      outstanding := outstanding + 1;
    }

    /** The populate was refused: the position has moved on, and the chunk is lost. */
    method Lost(n: nat, rc: int)
      requires Smooth()
      requires Books(0) && pos < c.ReadEnd() && n == ChunkLength(c, pos - c.ReadStart())
      requires error == 0 && !interrupt && (rc == -ENOMEM || (rc == -EINVAL && !c.Accepts()))
      modifies this`pos, this`error, this`exits, this`exitCode
      ensures Smooth()
      ensures Books(0) && ExitsOnce() && pos == old(pos) + n && error == rc
      ensures Work(c, View()) <= old(Work(c, View()))
    {
      hide Inv, Flight, TotalLeft, Unperformed, OnGrid, GridChunk, Taken;
      LoseKeeps(c, View(), n);
      NextOnGrid(c, pos);
      pos := pos + n;
      error := rc;
      TakenStopped(c, ios[..], pos, -1);
      if outstanding == 0 {
        Exit(rc);
      }
    }

    /** A chunk of whole blocks goes straight to its read. */
    method ClaimAndRead(i: int)
      requires Smooth()
      requires Books(0) && 0 <= i < ios.Length && !InFlight(ios[i])
      requires pos < c.ReadEnd() && error == 0 && !interrupt
      requires ChunkLength(c, pos - c.ReadStart()) % c.outBlock == 0
      modifies this`pos, this`outstanding, this`error, this`exits, this`exitCode, this`clean, ios
      ensures Smooth()
      ensures Books(0) && Local(i) && ExitsOnce()
      ensures InFlight(ios[i]) || error != 0
      ensures outstanding >= old(outstanding)
      ensures outstanding == old(outstanding) ==> error != 0
      ensures Work(c, View()) <= old(Work(c, View()))
    {
      hide Inv, Flight, TotalLeft, Unperformed;
      Claim(i, Read);
      TargetRead(i);
    }

    /** Context `i` takes the next chunk. */
    method Claim(i: int, kind: Kind)
      requires Smooth()
      requires Books(0) && 0 <= i < ios.Length && !InFlight(ios[i])
      requires pos < c.ReadEnd()
      requires
        var n := ChunkLength(c, pos - c.ReadStart());
        && kind == (if n % c.outBlock == 0 then Read else Populate)
        && (kind == Populate ==>
              c.WriteStart() + (pos - c.ReadStart()) + c.RoundUp(n) <= |c.original|)
      modifies this`pos, ios
      ensures SmoothBut(i)
      ensures Books(1) && Local(i)
      ensures InFlight(ios[i]) && ios[i].kind == kind && ios[i].phase == Issued
      ensures Work(c, View()) <= old(Work(c, View()))
      ensures pos > old(pos)
    {
      hide Inv, Flight, TotalLeft, Unperformed, Taken, OnGrid, IsChunk;
      var n := ChunkLength(c, pos - c.ReadStart());
      var io := Io(pos, n, kind, Issued, ios[i].buf);
      RoundUpLaws(c, n, n);
      NextOnGrid(c, pos);
      ClaimKeeps(c, View(), i, io);
      TakenClaim(c, ios[..], pos, error == 0 && !interrupt, i, io);
      CountsUpdate(ios[..], i, io);
      ghost var before := ios[..];
      pos := pos + n;
      ios[i] := io;
      assert ios[..] == before[i := io];
    }

    // ------------------------------------------------------------------ completions

    /** The completion callback of context `i`: _dd_target_populate_buffer_done, _dd_read_bdev_done
        or _dd_write_bdev_done. */
    method Complete(i: int)
      requires Smooth()
      requires Books(0) && Parked(ios.Length, -1) && 0 <= i < ios.Length && InFlight(ios[i])
      modifies this`pos, this`outstanding, this`error, this`exits, this`exitCode, this`clean, ios
      ensures Smooth()
      ensures Books(0) && Parked(ios.Length, -1) && Local(i) && ExitsOnce()
      ensures Work(c, View()) < old(Work(c, View()))
    {
      hide Inv, TotalLeft, Unperformed;
      FlightAt(ios[..], i);
      outstanding := outstanding - 1;
      match ios[i].kind {
        case Populate =>
          TargetRead(i);
        case Read =>
          TargetWrite(i);
        case Write =>
          Release(i);
          PopulateBuffer(i, ios.Length);
      }
    }

    /** The write of context `i` is over. */
    method Release(i: int)
      requires Smooth()
      requires Books(1) && 0 <= i < ios.Length && InFlight(ios[i]) && ios[i].kind == Write
      modifies this`clean, ios
      ensures Smooth()
      ensures Books(0) && Local(i) && !InFlight(ios[i])
      ensures Work(c, View()) < old(Work(c, View()))
    {
      hide Inv, Flight, TotalLeft, Unperformed;
      ReleaseKeeps(c, View(), i, error == 0 && !interrupt);
      var io := ios[i].(phase := Idle);
      TakenUpdate(c, ios[..], pos, error == 0 && !interrupt, -1, i, io);
      CountsUpdate(ios[..], i, io);
      ghost var before := ios[..];
      clean := clean && ios[i].phase == Performed;
      ios[i] := io;
      assert ios[..] == before[i := io];
    }

    /** An I/O that the device has carried out. */
    lemma TakenPerformed(i: int, io: Io)
      requires Smooth() && 0 <= i < ios.Length && ios[i].phase == Issued
      requires io == ios[i].(phase := Performed, buf := io.buf)
      ensures Taken(c, ios[..][i := io], pos, error == 0 && !interrupt, -1)
    {
      hide OnGrid, GridChunk;
      TakenUpdate(c, ios[..], pos, error == 0 && !interrupt, -1, i, io);
    }

    /** The device carries out an issued I/O. */
    method Perform(i: int)
      requires Smooth()
      requires Books(0) && Parked(ios.Length, -1) && 0 <= i < ios.Length && ios[i].phase == Issued
      modifies ios, output
      ensures Smooth()
      ensures Books(0) && Parked(ios.Length, -1)
      ensures Flight(ios[..]) == old(Flight(ios[..])) && Work(c, View()) == old(Work(c, View()))
      ensures Unperformed(ios[..]) < old(Unperformed(ios[..]))
    {
      if ios[i].kind == Write {
        PerformWrite(i);
      } else {
        PerformFill(i);
      }
    }

    method PerformFill(i: int)
      requires Smooth()
      requires Books(0) && Parked(ios.Length, -1) && 0 <= i < ios.Length && ios[i].phase == Issued
      requires ios[i].kind != Write && ios as object != output
      modifies ios
      ensures Smooth()
      ensures Books(0) && Parked(ios.Length, -1)
      ensures Flight(ios[..]) == old(Flight(ios[..])) && Work(c, View()) == old(Work(c, View()))
      ensures Unperformed(ios[..]) < old(Unperformed(ios[..]))
    {
      hide Inv, Flight, TotalLeft, Unperformed, Taken, OnGrid;
      FillKeeps(c, View(), i);
      var n := if ios[i].kind == Populate then c.RoundUp(ios[i].length) else ios[i].length;
      var data :=
        if ios[i].kind == Populate
        then output[c.WriteStart() + (ios[i].offset - c.ReadStart())..][..n]
        else c.input[ios[i].offset..ios[i].offset + n];
      var io := ios[i].(phase := Performed, buf := data + ios[i].buf[n..]);
      assert io.buf == Filled(c, View(), ios[i]);
      TakenPerformed(i, io);
      CountsUpdate(ios[..], i, io);
      ghost var before := ios[..];
      ios[i] := io;
      assert ios[..] == before[i := io];
    }

    method PerformWrite(i: int)
      requires Smooth()
      requires Books(0) && Parked(ios.Length, -1) && 0 <= i < ios.Length && ios[i].phase == Issued
      requires ios[i].kind == Write
      modifies ios, output
      ensures Smooth()
      ensures Books(0) && Parked(ios.Length, -1)
      ensures Flight(ios[..]) == old(Flight(ios[..])) && Work(c, View()) == old(Work(c, View()))
      ensures Unperformed(ios[..]) < old(Unperformed(ios[..]))
    {
      hide Inv, Flight, TotalLeft, Unperformed, Taken, OnGrid;
      WriteKeeps(c, View(), i);
      var io := ios[i].(phase := Performed);
      TakenPerformed(i, io);
      CountsUpdate(ios[..], i, io);
      ghost var before := View();
      var target := c.WriteStart() + (io.offset - c.ReadStart());
      var n := c.RoundUp(io.length);
      forall t | target <= t < target + n {
        output[t] := io.buf[t - target];
      }
      assert output[..] == Written(c, before, before.ios[i]);
      ios[i] := io;
      assert ios[..] == before.ios[i := io];
    }

    /** The last loop of dd_run: every context starts out.  If nothing could be started, each call
        signals the exit. */
    method Start()
      requires Smooth()
      requires Books(0) && outstanding == 0 && exits == 0 && pos == c.ReadStart()
      requires error == 0 && !interrupt
      requires forall k :: 0 <= k < ios.Length ==> !InFlight(ios[k])
      modifies this`pos, this`outstanding, this`error, this`exits, this`exitCode, this`clean, ios
      ensures Smooth()
      ensures Books(0) && Parked(ios.Length, -1)
      ensures exits == if outstanding == 0 then ios.Length else 0
      ensures outstanding == 0 && exits > 0 ==> exitCode == error
      ensures outstanding == 0 && exits > 0 ==> c.copySize == 0 || error != 0
      ensures output[..] == old(output[..]) && interrupt == old(interrupt)
      ensures clean ==> old(clean)
    {
      hide Inv, Flight, TotalLeft, Unperformed, OnGrid, GridChunk, Taken;
      for i := 0 to ios.Length
        invariant Books(0) && Parked(i, -1) && Smooth()
        invariant forall k :: i <= k < ios.Length ==> !InFlight(ios[k])
        invariant exits == if outstanding == 0 then i else 0
        invariant outstanding == 0 && exits > 0 ==> exitCode == error
        invariant outstanding == 0 && error == 0 ==> pos == c.ReadStart()
        invariant output[..] == old(output[..]) && interrupt == old(interrupt)
        invariant clean ==> old(clean)
      {
        FlightZero(ios[..]);
        assert outstanding == 0 && i > 0 ==> !InFlight(ios[..][0]);
        PopulateBuffer(i, i + 1);
      }
      FlightZero(ios[..]);
      assert outstanding == 0 && ios.Length > 0 ==> !InFlight(ios[..][0]);
    }

    /** dd_finish */
    method Interrupt()
      requires Smooth()
      requires Books(0)
      modifies this`interrupt
      ensures Smooth()
      ensures Books(0) && interrupt && Parked(ios.Length, -1)
      ensures Work(c, View()) == old(Work(c, View()))
    {
      StopKeeps(c, View());
      interrupt := true;
    }
  }

  lemma FlightAt(ios: seq<Io>, i: int)
    requires 0 <= i < |ios| && InFlight(ios[i])
    ensures Flight(ios) > 0
  {
    FlightZero(ios);
  }

  /** The outcome of a copy: the output device, how often and with what code the exit was signalled,
      whether the copy was interrupted and whether any I/O was started; `overrun` if it came to a
      transfer longer than the buffer, at which the model stops. */
  datatype Outcome = Outcome(out: seq<Byte>, exits: nat, code: int, interrupted: bool, started: bool,
                             overrun: bool)

  /** Transfers, completions and an interrupt in any order, until nothing is outstanding. */
  method Drive(e: Engine)
    requires e.Books(0) && e.Parked(e.ios.Length, -1) && e.Smooth() && e.ios as object != e.output
    requires e.outstanding > 0 && e.exits == 0
    modifies e, e.ios, e.output
    ensures e.Books(0) && e.Parked(e.ios.Length, -1) && e.Smooth()
    ensures e.outstanding == 0 && e.exits == 1 && e.exitCode == e.error
  {
    hide Flight, TotalLeft, Unperformed, Inv, OnGrid, GridChunk, Taken;
    while e.outstanding > 0
      invariant e.Books(0) && e.Parked(e.ios.Length, -1) && e.Smooth()
      invariant e.exits == if e.outstanding > 0 then 0 else 1
      invariant e.outstanding == 0 ==> e.exitCode == e.error
      decreases Work(e.c, e.View()), Unperformed(e.ios[..]), !e.interrupt
    {
      FlightZero(e.ios[..]);
      var stop: bool, early: bool := *, *;
      if stop && !e.interrupt {
        e.Interrupt();
      } else {
        var i :| 0 <= i < e.ios.Length && InFlight(e.ios[..][i]);
        if e.ios[i].phase == Issued && !early {
          e.Perform(i);
        } else {
          e.Complete(i);
        }
      }
    }
  }

  /** The first chunk is as long as any. */
  lemma FirstIsLongest(c: Config)
    requires c.Sound() && !c.Fits()
    ensures c.copySize > 0 && ChunkLength(c, 0) == c.LongestChunk()
    ensures c.LongestChunk() % c.outBlock != 0
    ensures c.Accepts() ==>
      Transferable(c.WriteStart(), c.RoundUp(c.LongestChunk()), c.outBlock, |c.original|)
  {
    RoundUpLaws(c, c.LongestChunk(), 0);
    RoundUpLaws(c, 0, 0);
    if c.Accepts() {
      FirstChunks(c);
      AcceptedWrite(c, 0);
    }
  }

  /** A copy whose rounded chunks do not all fit the buffers: the first context is about to fetch more
      blocks than its buffer holds, unless the request for them is refused; each context then signals
      the exit with that error. */
  method FirstFetch(c: Config, queueDepth: nat) returns (r: Outcome)
    requires c.Sound() && !c.Fits()
    ensures queueDepth == 0 ==> !r.overrun
    ensures
      var taken := Transferable(c.WriteStart(), c.RoundUp(ChunkLength(c, 0)), c.outBlock, |c.original|);
      && (r.overrun ==> taken)
      && (taken && queueDepth > 0 && !r.overrun ==> r.code == -ENOMEM)
    ensures !r.overrun ==>
      && r.out == c.original && r.exits == queueDepth && !r.interrupted && !r.started
      && (if queueDepth == 0 then r.code == 0 else r.code == -ENOMEM || (r.code == -EINVAL && !c.Accepts()))
  {
    hide Transferable;
    r := Outcome(c.original, 0, 0, false, false, false);
    if queueDepth > 0 {
      FirstIsLongest(c);
      var rc := Engine.Submit(c.WriteStart(), c.RoundUp(ChunkLength(c, 0)), c.outBlock, |c.original|);
      if rc == 0 {
        r := r.(overrun := true);
      } else {
        r := r.(exits := queueDepth, code := rc);
      }
    }
  }

  /** A whole run: it ends; the exit is signalled once if anything was started, and else once per
      context; and a run that ends with code 0, without an interrupt and without a failed transfer
      has made an exact copy.  In any run without a failed transfer every output byte is the old
      one or, inside the target range, the final one.  A run whose transfers are all valid ends with
      code 0 unless the device lacked memory, and only such a run does, uninterrupted.  Transfers
      overrun the buffers only if the longest chunk, rounded, does not fit; then a run does nothing
      else, or fails. */
  method CopyDevice(c: Config, queueDepth: nat) returns (r: Outcome, ghost clean: bool)
    requires c.Sound() && c.WriteStart() <= |c.original|
    ensures !r.overrun ==> r.exits == if r.started then 1 else queueDepth
    ensures !r.overrun && !r.started && queueDepth > 0 ==> c.copySize == 0 || r.code != 0
    ensures clean && !r.overrun && r.code == 0 && !r.interrupted && queueDepth > 0 ==>
      c.WriteEnd() <= |c.original| && r.out == c.Copied()
    ensures clean && !r.overrun && c.Fits() ==> OutputOk(c, r.out)
    ensures !r.overrun && r.exits > 0 ==>
      r.code == 0 || r.code == -ENOMEM || (r.code == -EINVAL && !c.Accepts())
    ensures !r.overrun && r.code == 0 && !r.interrupted && queueDepth > 0 ==> c.Accepts()
    ensures r.overrun ==> !c.Fits() && queueDepth > 0
    ensures !c.Fits() && !r.overrun ==> r.out == c.original && (queueDepth > 0 ==> r.code != 0)
  {
    hide Inv, OnGrid, GridChunk, Taken;
    if !c.Fits() {
      r := FirstFetch(c, queueDepth);
      clean := true;
      return;
    }
    var e := new Engine(c, queueDepth);
    e.Start();
    var started := e.outstanding > 0;
    if started {
      Drive(e);
    }
    CopyEnd(e, queueDepth);
    r := Outcome(e.output[..], e.exits, e.exitCode, e.interrupt, started, false);
    clean := e.clean;
  }

  /** What the engine has made of the output when nothing is outstanding. */
  lemma CopyEnd(e: Engine, queueDepth: nat)
    requires e.Books(0) && e.Parked(e.ios.Length, -1) && e.Smooth() && e.outstanding == 0
    requires e.ios.Length == queueDepth && e.c.WriteStart() <= |e.c.original|
    ensures e.clean ==> OutputOk(e.c, e.output[..])
    ensures e.clean && e.error == 0 && !e.interrupt && queueDepth > 0 ==>
      e.c.WriteEnd() <= |e.c.original| && e.output[..] == e.c.Copied()
    ensures e.error == 0 && !e.interrupt && queueDepth > 0 ==> e.c.Accepts()
  {
    hide OnGrid, GridChunk, Taken;
    if e.error == 0 && !e.interrupt && queueDepth > 0 {
      FlightZero(e.ios[..]);
      assert !InFlight(e.ios[..][0]);
      AllTaken(e.c, e.ios[..]);
      if e.clean {
        FinishedIsExact(e.c, e.View());
      }
    }
  }
}
