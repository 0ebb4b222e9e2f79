/** The checks dd_run makes for a copy between two block devices before it starts the contexts. */
module DdPlan {
  import opened Basics
  import opened DdModel

  datatype Options = Options(
    unit: nat,       // --bs
    count: nat,      // --count, 0 for all
    skip: nat,       // --skip
    seek: nat,       // --seek
    queueDepth: nat) // --qd

  datatype Plan = NoSpace | Invalid | Go(config: Config, queueDepth: nat)

  /** dd_open_bdev: no more contexts than units from `skip` on, one to spare, nor than units asked
      for.  The subtraction is unsigned. */
  function ClampDepth(o: Options, depth: nat, total: nat, skip: nat): nat
    requires o.unit > 0
  {
    var room := (total / o.unit - skip + 1) % 0x1_0000_0000_0000_0000;
    var d := if depth < room then depth else room;
    if o.count != 0 && o.count < d then o.count else d
  }

  /** dd_run up to the first populate. */
  function MakePlan(o: Options, inBlock: nat, outBlock: nat, input: seq<Byte>, output: seq<Byte>): Plan
    requires o.unit > 0
  {
    var writeSize := o.count * o.unit;
    var pos := o.skip * o.unit;
    var target := o.seek * o.unit;
    var depth := ClampDepth(o, o.queueDepth, |input|, o.skip);
    if pos > |input| then NoSpace
    else if o.count != 0 && writeSize + pos > |input| then NoSpace
    else
      var copySize := if o.count != 0 then writeSize else |input| - pos;
      var depth2 := ClampDepth(o, depth, |output|, o.seek);
      if target > |output| then NoSpace
      else if o.count != 0 && writeSize + target > |output| then NoSpace
      else if outBlock > o.unit || inBlock > o.unit then Invalid
      else Go(Config(o.unit, o.skip, o.seek, copySize, inBlock, outBlock, input, output), depth2)
  }

  /** Exactly the copies that go ahead: both offsets lie on their devices, a count given fits both, and
      the unit is at least one block of each. */
  lemma PlanGoesIff(o: Options, inBlock: nat, outBlock: nat, input: seq<Byte>, output: seq<Byte>)
    requires o.unit > 0
    ensures
      var plan := MakePlan(o, inBlock, outBlock, input, output);
      var room := && o.skip * o.unit <= |input| && o.seek * o.unit <= |output|
                  && (o.count > 0 ==> && (o.skip + o.count) * o.unit <= |input|
                                      && (o.seek + o.count) * o.unit <= |output|);
      && (plan.NoSpace? <==> !room)
      && (plan.Go? <==> room && inBlock <= o.unit && outBlock <= o.unit)
  {
    assert (o.skip + o.count) * o.unit == o.skip * o.unit + o.count * o.unit;
    assert (o.seek + o.count) * o.unit == o.seek * o.unit + o.count * o.unit;
  }

  /** The number of contexts: what was asked for, but not more than units from the offset on to the end
      of either device, one to spare, and not more than units asked for. */
  lemma DepthIs(o: Options, inBlock: nat, outBlock: nat, input: seq<Byte>, output: seq<Byte>)
    requires o.unit > 0 && |input| < 0xFFFF_FFFF_FFFF_FFFF && |output| < 0xFFFF_FFFF_FFFF_FFFF
    requires MakePlan(o, inBlock, outBlock, input, output).Go?
    ensures
      var depth := MakePlan(o, inBlock, outBlock, input, output).queueDepth;
      var limits := {o.queueDepth, |input| / o.unit - o.skip + 1, |output| / o.unit - o.seek + 1} +
                    if o.count > 0 then {o.count} else {};
      depth in limits && forall n :: n in limits ==> depth <= n
  {
    RoomIs(o.unit, |input|, o.skip);
    RoomIs(o.unit, |output|, o.seek);
  }

  lemma RoomIs(unit: nat, total: nat, skip: nat)
    requires unit > 0 && skip * unit <= total < 0xFFFF_FFFF_FFFF_FFFF
    ensures 0 <= total / unit - skip
    ensures (total / unit - skip + 1) % 0x1_0000_0000_0000_0000 == total / unit - skip + 1
  {
    DivMonotone(skip * unit, total, unit);
    DivOfMultiple(skip, 0, unit);
    DivAtMost(total, unit);
  }

  /** A plan that goes ahead stays within the input, starts within the output, ends within it if a
      count was given, and keeps at least one context if one was asked for. */
  lemma PlanIsSound(o: Options, inBlock: nat, outBlock: nat, input: seq<Byte>, output: seq<Byte>)
    requires o.unit > 0 && |input| < 0xFFFF_FFFF_FFFF_FFFF && |output| < 0xFFFF_FFFF_FFFF_FFFF
    requires MakePlan(o, inBlock, outBlock, input, output).Go?
    ensures
      var Go(c, depth) := MakePlan(o, inBlock, outBlock, input, output);
      && c.ReadEnd() <= |input| && c.WriteStart() <= |output|
      && (o.count != 0 ==> c.copySize == o.count * o.unit && c.WriteEnd() <= |output|)
      && (o.count == 0 ==> c.ReadEnd() == |input|)
      && (o.queueDepth > 0 ==> 0 < depth <= o.queueDepth)
  {
    RoomAtLeastOne(o.unit, |input|, o.skip);
    RoomAtLeastOne(o.unit, |output|, o.seek);
  }

  lemma RoomAtLeastOne(unit: nat, total: nat, skip: nat)
    requires unit > 0 && skip * unit <= total < 0xFFFF_FFFF_FFFF_FFFF
    ensures 1 <= (total / unit - skip + 1) % 0x1_0000_0000_0000_0000
  {
    DivMonotone(skip * unit, total, unit);
    DivOfMultiple(skip, 0, unit);
    DivAtMost(total, unit);
  }

  /** The checks leave one case open: a unit that is no whole number of output blocks.  The first
      transfer is then a fetch of more bytes than the buffer holds, and the device takes it. */
  lemma ChecksDoNotImplyFit()
    ensures
      var zeros := seq(1536, _ => 0 as Byte);
      var plan := MakePlan(Options(768, 2, 0, 0, 2), 512, 512, zeros, zeros);
      && plan.Go? && !plan.config.Fits() && !plan.config.Accepts()
      && (var c := plan.config;
          var n := ChunkLength(c, 0);
          && n % c.outBlock != 0 && c.unit < c.RoundUp(n)
          && Transferable(c.WriteStart(), c.RoundUp(n), c.outBlock, |c.original|))
  {
  }

  /** When the unit is a whole number of output blocks the buffers always suffice. */
  lemma WholeBlocksFit(c: Config)
    requires c.unit > 0 && c.outBlock > 0 && c.unit % c.outBlock == 0
    ensures c.Fits()
  {
    RoundUpLaws(c, c.LongestChunk(), c.unit);
    RoundUpLaws(c, c.unit, 0);
  }
}
