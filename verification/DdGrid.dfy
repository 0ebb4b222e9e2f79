/**
  The chunks of a copy lie on a grid of units; and which of them have had all their transfers taken by
  the devices.
*/
module DdGrid {
  import opened Basics
  import opened DdModel

  /** A position between two chunks, or at the end. */
  predicate OnGrid(c: Config, p: int)
    requires c.unit > 0
  {
    p == c.ReadEnd() || IsChunk(c, p - c.ReadStart())
  }

  predicate GridChunk(c: Config, io: Io)
    requires c.unit > 0
  {
    && IsChunk(c, io.offset - c.ReadStart())
    && io.length == ChunkLength(c, io.offset - c.ReadStart())
  }

  lemma TransferableWithin(offset: int, length: int, block: nat, size: nat)
    requires block > 0 && Transferable(offset, length, block, size)
    ensures offset + length <= size
  {
  }

  lemma StartOnGrid(c: Config)
    requires c.unit > 0
    ensures OnGrid(c, c.ReadStart())
  {
    DivUnique(0, c.unit, 0, 0);
  }

  lemma NextOnGrid(c: Config, p: int)
    requires c.unit > 0 && OnGrid(c, p) && p < c.ReadEnd()
    ensures IsChunk(c, p - c.ReadStart())
    ensures OnGrid(c, p + ChunkLength(c, p - c.ReadStart()))
  {
    var read := p - c.ReadStart();
    DivUnique(c.unit, c.unit, 1, 0);
    ModOfSum(read, c.unit, c.unit);
  }

  /** The transfers of a chunk are accepted, if those of the whole copy are. */
  lemma ChunkFits(c: Config, io: Io)
    requires c.Valid() && GridChunk(c, io)
    ensures c.Accepts() ==>
      && Transferable(io.offset, io.length, c.inBlock, |c.input|)
      && Transferable(Target(c, io), c.RoundUp(io.length), c.outBlock, |c.original|)
  {
    if c.Accepts() {
      AcceptedRead(c, io.offset - c.ReadStart());
      AcceptedWrite(c, io.offset - c.ReadStart());
    }
  }

  /** The blocks that the next chunk goes to can be fetched. */
  lemma NextFits(c: Config, p: int)
    requires c.Valid() && OnGrid(c, p) && p < c.ReadEnd()
    ensures
      var read := p - c.ReadStart();
      c.Accepts() ==>
      Transferable(c.WriteStart() + read, c.RoundUp(ChunkLength(c, read)), c.outBlock, |c.original|)
  {
    if c.Accepts() {
      NextOnGrid(c, p);
      AcceptedWrite(c, p - c.ReadStart());
    }
  }

  // ------------------------------------------------------------------ what the devices have taken

  /** No transfer of the chunk is invalid. */
  predicate ChunkTaken(c: Config, offset: int)
    requires c.Sound()
  {
    var read := offset - c.ReadStart();
    IsChunk(c, read) ==> ReadFits(c, read) && WriteFits(c, read)
  }

  /** The transfers of a chunk in flight up to the present one were taken. */
  predicate SoFarTaken(c: Config, io: Io)
    requires c.Sound()
  {
    var read := io.offset - c.ReadStart();
    && IsChunk(c, read)
    && (io.kind != Populate ==> ReadFits(c, read))
    && (io.kind == Write ==> WriteFits(c, read))
  }

  /** As long as nothing is given up: all transfers of the chunks handed out were taken, but for those
      still to come of a chunk in flight.  The one of context `skip` is with a callback. */
  predicate Taken(c: Config, ios: seq<Io>, pos: int, whole: bool, skip: int)
    requires c.Sound()
  {
    whole ==>
      && (forall k :: 0 <= k < |ios| && InFlight(ios[k]) && k != skip ==> SoFarTaken(c, ios[k]))
      && (forall p :: c.ReadStart() <= p < pos ==> ChunkTaken(c, p) || UnderWay(ios, p))
  }

  /** A chunk with this offset is in flight. */
  predicate UnderWay(ios: seq<Io>, p: int) {
    exists k :: 0 <= k < |ios| && InFlight(ios[k]) && ios[k].offset == p
  }

  /** Context `i` goes on with its chunk, or lets go of one that was taken. */
  lemma TakenUpdate(c: Config, ios: seq<Io>, pos: int, whole: bool, skip: int, i: int, io: Io)
    requires c.Sound() && Taken(c, ios, pos, whole, skip) && (skip == -1 || skip == i)
    requires 0 <= i < |ios| && InFlight(ios[i])
    requires whole ==>
      if InFlight(io) then io.offset == ios[i].offset && SoFarTaken(c, io)
      else ChunkTaken(c, ios[i].offset)
    ensures Taken(c, ios[i := io], pos, whole, -1)
  {
    hide ChunkTaken, SoFarTaken;
    var now := ios[i := io];
    if whole {
      forall p | c.ReadStart() <= p < pos
        ensures ChunkTaken(c, p) || UnderWay(now, p)
      {
        if !ChunkTaken(c, p) {
          var k :| 0 <= k < |ios| && InFlight(ios[k]) && ios[k].offset == p;
          assert now[k].offset == p && InFlight(now[k]);
        }
      }
    }
  }

  /** The chunk at hand has its present transfer taken. */
  lemma TakenNow(c: Config, ios: seq<Io>, pos: int, whole: bool, i: int)
    requires c.Sound() && Taken(c, ios, pos, whole, i) && 0 <= i < |ios|
    requires whole ==> SoFarTaken(c, ios[i])
    ensures Taken(c, ios, pos, whole, -1)
  {
  }

  /** Once something is given up, nothing more is said. */
  lemma TakenStopped(c: Config, ios: seq<Io>, pos: int, skip: int)
    requires c.Sound()
    ensures Taken(c, ios, pos, false, skip)
  {
  }

  /** Context `i` claims the next chunk. */
  lemma TakenClaim(c: Config, ios: seq<Io>, pos: int, whole: bool, i: int, io: Io)
    requires c.Sound() && Taken(c, ios, pos, whole, -1) && 0 <= i < |ios| && !InFlight(ios[i])
    requires OnGrid(c, pos) && c.ReadStart() <= pos < c.ReadEnd()
    requires InFlight(io) && io.offset == pos && io.length == ChunkLength(c, pos - c.ReadStart())
    ensures Taken(c, ios[i := io], pos + io.length, whole, i)
  {
    hide ChunkTaken, SoFarTaken, OnGrid;
    var now := ios[i := io];
    if whole {
      forall p | c.ReadStart() <= p < pos + io.length
        ensures ChunkTaken(c, p) || UnderWay(now, p)
      {
        if p == pos {
          assert now[i].offset == p;
        } else if p > pos {
          InsideChunk(c, pos, p);
        } else if !ChunkTaken(c, p) {
          var k :| 0 <= k < |ios| && InFlight(ios[k]) && ios[k].offset == p;
          assert now[k].offset == p && InFlight(now[k]);
        }
      }
    }
  }

  /** No other chunk starts inside a chunk. */
  lemma InsideChunk(c: Config, pos: int, p: int)
    requires c.Sound() && OnGrid(c, pos) && c.ReadStart() <= pos < c.ReadEnd()
    requires pos < p < pos + ChunkLength(c, pos - c.ReadStart())
    ensures ChunkTaken(c, p)
  {
    var read, d := pos - c.ReadStart(), p - pos;
    assert (d + read) % c.unit == d by {
      ModOfSum(d, read, c.unit);
      DivUnique(d, c.unit, 0, d);
    }
  }

  /** Everything handed out and nothing in flight: no transfer of the copy is invalid. */
  lemma AllTaken(c: Config, ios: seq<Io>)
    requires c.Sound() && Taken(c, ios, c.ReadEnd(), true, -1)
    requires forall k :: 0 <= k < |ios| ==> !InFlight(ios[k])
    ensures c.Accepts()
  {
    forall read | IsChunk(c, read)
      ensures ReadFits(c, read) && WriteFits(c, read)
    {
      assert ChunkTaken(c, c.ReadStart() + read);
    }
    AcceptsIsExact(c);
  }
}
