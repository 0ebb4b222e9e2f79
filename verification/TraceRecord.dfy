/**
  The trace recorder: a poller that appends what is new in one core's ring to a file, and the
  refinement of the producer's log by that file over every interleaving of recording and polling.
*/
module TraceRecord {
  import opened TraceRing

  function Min(a: nat, b: nat): nat {
    if a < b then a else b
  }

  lemma MinIs(a: nat, b: nat)
    ensures Min(a, b) == if a < b then a else b
  {
  }

  lemma EntriesOf(h: History)
    requires h.Valid()
    ensures h.entries.Length > 0 && h.nextEntry == |h.log|
    ensures IsPow2(h.entries.Length) && Mirrors(h.entries[..], h.log)
  {
  }

  /** How many entries a poll appends that finds `next` entries ever recorded, `seen` before. */
  function Taken(firstTsc: nat, seen: nat, next: nat, n: nat): nat
    requires seen < next
  {
    if firstTsc == 0 then Min(next, n) else Min(next - seen, n)
  }

  lemma TakenIs(firstTsc: nat, seen: nat, next: nat, n: nat)
    requires seen < next && n > 0
    ensures
      Taken(firstTsc, seen, next, n) == if firstTsc == 0 then Min(next, n) else Min(next - seen, n)
    ensures 0 < Taken(firstTsc, seen, next, n) <= next
  {
  }

  /** A poll appends exactly what is new, as far as the ring still has it, if and only if its test
      for the first poll is right or the whole ring is new anyway. */
  lemma TakenIsWhatIsNew(firstTsc: nat, seen: nat, next: nat, n: nat)
    requires seen < next && n > 0
    ensures
      Taken(firstTsc, seen, next, n) == Min(next - seen, n)
      <==> (firstTsc != 0 || seen == 0 || next - seen >= n)
  {
  }

  /** from, from + 1, ..., `k` of them. */
  function Numbers(from: nat, k: nat): (s: seq<nat>)
    ensures |s| == k && forall i :: 0 <= i < k ==> s[i] == from + i
  {
    seq(k, i requires 0 <= i < k => from + i)
  }

  /** A recorder with its ghosts: the log numbers of the entries in the file, and how many entries
      were reported as missed. */
  datatype Account = Account(file: seq<Entry>, rec: nat, first: nat, last: nat, num: nat,
                             taken: seq<nat>, missed: nat)

  predicate Increasing(s: seq<nat>) {
    forall i, j :: 0 <= i < j < |s| ==> s[i] < s[j]
  }

  /** The file is what the log numbers in `taken` say, in the order of the log without repetition,
      up to the last entry seen, and the counters describe it; what is not in the file was lost
      before the first poll or reported as missed. */
  predicate Follows(a: Account, log: seq<Entry>) {
    && a.rec <= |log|
    && |a.taken| == |a.file| == a.num
    && Increasing(a.taken)
    && (forall i :: 0 <= i < |a.file| ==> a.taken[i] < a.rec && a.file[i] == log[a.taken[i]])
    && (a.rec == 0 <==> a.file == [])
    && (a.rec == 0 <==> a.first == 0)
    && (a.rec == 0 ==> a.missed == 0)
    && (a.rec > 0 ==>
          && a.taken[|a.taken| - 1] == a.rec - 1
          && a.first == a.file[0].tsc
          && a.last == a.file[|a.file| - 1].tsc
          && a.rec == a.taken[0] + |a.file| + a.missed)
  }

  /** What a poll makes of a recorder when the ring of `n` entries has the end of the log. */
  function Polled(a: Account, log: seq<Entry>, n: nat): Account
    requires n > 0
  {
    if |log| <= a.rec then a
    else
      var k := Taken(a.first, a.rec, |log|, n);
      TakenIs(a.first, a.rec, |log|, n);
      Account(a.file + log[|log| - k..], |log|,
              if a.first == 0 then log[|log| - k].tsc else a.first,
              log[|log| - 1].tsc, a.num + k, a.taken + Numbers(|log| - k, k),
              if a.first == 0 then a.missed else a.missed + (|log| - a.rec - k))
  }

  /** Time stamps are never 0: a poll tells from a zero that nothing was recorded before. */
  predicate Stamped(log: seq<Entry>) {
    forall i :: 0 <= i < |log| ==> log[i].tsc != 0
  }

  lemma PollKeeps(a: Account, log: seq<Entry>, n: nat)
    requires Follows(a, log) && Stamped(log) && n > 0
    ensures Follows(Polled(a, log, n), log)
  {
    if a.rec < |log| {
      hide Taken;
      TakenIs(a.first, a.rec, |log|, n);
      var b, k := Polled(a, log, n), Taken(a.first, a.rec, |log|, n);
      assert Increasing(b.taken);
    }
  }

  lemma EmitFollows(a: Account, log: seq<Entry>, x: Entry)
    requires Follows(a, log)
    ensures Follows(a, log + [x])
  {
  }

  lemma {:induction false} IncreasingBounds(s: seq<nat>, i: nat)
    requires Increasing(s) && i < |s|
    ensures s[i] >= s[0] + i && s[i] + (|s| - 1 - i) <= s[|s| - 1]
  {
    if i > 0 {
      IncreasingBounds(s[..|s| - 1], i - 1);
      assert s[i - 1] < s[i];
      if i < |s| - 1 {
        IncreasingBounds(s[..|s| - 1], i);
        assert s[|s| - 2] < s[|s| - 1];
      }
    } else if |s| > 1 {
      IncreasingBounds(s[..|s| - 1], 0);
      assert s[|s| - 2] < s[|s| - 1];
    }
  }

  /** Nothing was missed exactly if the file is one contiguous piece of the log, ending at the last
      entry seen (entries being told apart by their time stamps). */
  lemma ContiguousIffNothingMissed(a: Account, log: seq<Entry>)
    requires Follows(a, log)
    ensures a.missed == 0 ==> |a.file| <= a.rec && a.file == log[a.rec - |a.file|..a.rec]
    ensures
      (forall i, j :: 0 <= i < j < |log| ==> log[i].tsc < log[j].tsc) ==>
      |a.file| <= a.rec &&
      (a.missed == 0 <==> a.file == log[a.rec - |a.file|..a.rec])
  {
    if a.rec > 0 {
      var f := |a.file|;
      if a.missed == 0 {
        forall i | 0 <= i < f
          ensures a.file[i] == log[a.rec - f..a.rec][i]
        {
          IncreasingBounds(a.taken, i);
        }
      } else if forall i, j :: 0 <= i < j < |log| ==> log[i].tsc < log[j].tsc {
        assert a.file[0] == log[a.taken[0]] && a.taken[0] < a.rec - f;
        assert log[a.rec - f..a.rec][0] == log[a.rec - f];
      }
    }
  }

  class Recorder {
    var file: seq<Entry>
    var recNextEntry: nat
    var firstEntryTsc: nat
    var lastEntryTsc: nat
    var numEntries: nat
    /** The log numbers of the entries in the file, and the number of entries reported as missed. */
    ghost var taken: seq<nat>
    ghost var missed: nat

    constructor ()
      ensures file == [] && taken == [] && missed == 0
      ensures recNextEntry == firstEntryTsc == lastEntryTsc == numEntries == 0
    {
      file, taken, missed := [], [], 0;
      recNextEntry, firstEntryTsc, lastEntryTsc, numEntries := 0, 0, 0, 0;
    }

    ghost function View(): Account
      reads this
    {
      Account(file, recNextEntry, firstEntryTsc, lastEntryTsc, numEntries, taken, missed)
    }

    /** circular_buffer_padding_backward */
    method PaddingBackward(h: History, start: nat, end: nat) returns (rc: int)
      requires start <= h.entries.Length && end <= h.entries.Length
      modifies this`file
      ensures end <= start ==> rc == -1 && file == old(file)
      ensures end > start ==> rc == 0 && file == old(file) + h.entries[..][start..end]
    {
      if end <= start {
        return -1;
      }
      file := file + h.entries[start..end];
      rc := 0;
    }

    /** circular_buffer_padding_across */
    method PaddingAcross(h: History, start: nat, end: nat) returns (rc: int)
      requires start <= h.entries.Length && end <= h.entries.Length
      modifies this`file
      ensures end > start ==> rc == -1 && file == old(file)
      ensures end <= start ==> 
        rc == 0 && file == old(file) + (h.entries[..][start..] + h.entries[..][..end])
    {
      if end > start {
        return -1;
      }
      file := file + h.entries[start..h.entries.Length];
      if end == 0 {
        return 0;
      }
      file := file + h.entries[0..end];
      rc := 0;
    }

    /** circular_buffer_padding_all */
    method PaddingAll(h: History, end: nat) returns (rc: int)
      requires end <= h.entries.Length
      modifies this`file
      ensures rc == 0 && file == old(file) + (h.entries[..][end..] + h.entries[..][..end])
    {
      rc := PaddingAcross(h, end, end);
    }

    /** lcore_trace_last_entry_idx */
    method LastEntryIdx(h: History, cirNext: nat) returns (i: nat)
      requires h.Valid() && h.nextEntry > 0 && cirNext == h.nextEntry % h.entries.Length
      ensures i < h.entries.Length && h.entries[i] == h.log[|h.log| - 1]
    {
      ghost var n := h.entries.Length;
      ModAdd(h.nextEntry - 1, 1, n);
      assert h.entries[..][(|h.log| - 1) % n] == h.log[|h.log| - 1];
      if cirNext == 0 {
        i := h.entries.Length - 1;
      } else {
        i := cirNext - 1;
      }
    }

    /** lcore_trace_record, when nothing has been recorded yet: everything the ring still has. */
    method AppendFirst(h: History, shmNextEntry: nat, shmCirNext: nat) returns (rc: int)
      requires h.Valid() && shmNextEntry == h.nextEntry > 0
      requires shmCirNext == shmNextEntry % h.entries.Length
      modifies this`file, this`numEntries, this`firstEntryTsc
      ensures rc == 0
      ensures
        var k := Min(shmNextEntry, h.entries.Length);
        && file == old(file) + h.log[|h.log| - k..]
        && numEntries == old(numEntries) + k
        && firstEntryTsc == h.log[|h.log| - k].tsc
    {
      hide *;
      EntriesOf(h);
      var n := h.entries.Length;
      ghost var k := Min(shmNextEntry, n);
      MinIs(shmNextEntry, n);
      RingSlice(h.entries[..], h.log, k);
      if shmNextEntry < n {
        firstEntryTsc := h.entries[0].tsc;
        numEntries := numEntries + shmCirNext;
        rc := PaddingBackward(h, 0, shmCirNext);
      } else {
        ModAdd(shmNextEntry - n, n, n);
        firstEntryTsc := h.entries[shmCirNext].tsc;
        numEntries := numEntries + n;
        rc := PaddingAll(h, shmCirNext);
      }
    }

    /** lcore_trace_record, later: by how far the producer is ahead. */
    method AppendNew(h: History, shmNextEntry: nat, shmCirNext: nat) returns (rc: int)
      requires h.Valid() && shmNextEntry == h.nextEntry > recNextEntry
      requires shmCirNext == shmNextEntry % h.entries.Length
      modifies this`file, this`numEntries, this`missed
      ensures rc == 0
      ensures
        var k := Min(shmNextEntry - recNextEntry, h.entries.Length);
        && file == old(file) + h.log[|h.log| - k..]
        && numEntries == old(numEntries) + k
        && missed == old(missed) + (shmNextEntry - recNextEntry - k)
    {
      hide *;
      EntriesOf(h);
      var n := h.entries.Length;
      ghost var k := Min(shmNextEntry - recNextEntry, n);
      MinIs(shmNextEntry - recNextEntry, n);
      RingSlice(h.entries[..], h.log, k);
      if shmNextEntry - recNextEntry > n {
        ModAdd(shmNextEntry - n, n, n);
        missed := missed + (shmNextEntry - recNextEntry - n);
        numEntries := numEntries + n;
        rc := PaddingAll(h, shmCirNext);
      } else if shmNextEntry - recNextEntry == n {
        ModAdd(shmNextEntry - n, n, n);
        numEntries := numEntries + n;
        rc := PaddingAll(h, shmCirNext);
      } else {
        rc := AppendPart(h, shmNextEntry, shmCirNext);
      }
    }

    /** Part of the circular buffer is new, in one piece or across its end. */
    method AppendPart(h: History, shmNextEntry: nat, shmCirNext: nat) returns (rc: int)
      requires h.Valid() && shmNextEntry == h.nextEntry
      requires 0 < shmNextEntry - recNextEntry < h.entries.Length
      requires shmCirNext == shmNextEntry % h.entries.Length
      modifies this`file, this`numEntries
      ensures rc == 0
      ensures
        var k := shmNextEntry - recNextEntry;
        && file == old(file) + h.log[|h.log| - k..]
        && numEntries == old(numEntries) + k
    {
      hide *;
      EntriesOf(h);
      var n := h.entries.Length;
      MaskAt(recNextEntry, n);
      ghost var k := shmNextEntry - recNextEntry;
      RingSlice(h.entries[..], h.log, k);
      ModAdd(recNextEntry, k, n);
      var recCirNext := And(recNextEntry, n - 1);
      if shmCirNext > recCirNext {
        numEntries := numEntries + (shmCirNext - recCirNext);
        rc := PaddingBackward(h, recCirNext, shmCirNext);
      } else {
        numEntries := numEntries + (n - recCirNext + shmCirNext);
        rc := PaddingAcross(h, recCirNext, shmCirNext);
      }
    }

    /** lcore_trace_record: a poll appends the last entries of the log, all the new ones that the ring
        still has; no call of the padding functions is the wrong one. */
    method Poll(h: History) returns (rc: int)
      requires h.Valid()
      modifies this
      ensures rc == if h.nextEntry < old(recNextEntry) then -1 else 0
      ensures View() == Polled(old(View()), h.log, h.entries.Length)
    {
      hide Mirrors, And, IsPow2, Min, Taken;
      EntriesOf(h);
      var shmNextEntry := h.nextEntry;
      if shmNextEntry == recNextEntry {
        return 0;
      } else if shmNextEntry < recNextEntry {
        return -1;
      }
      ghost var k := Taken(firstEntryTsc, recNextEntry, shmNextEntry, h.entries.Length);
      TakenIs(firstEntryTsc, recNextEntry, shmNextEntry, h.entries.Length);
      MaskAt(shmNextEntry, h.entries.Length);
      var shmCirNext := And(shmNextEntry, h.entries.Length - 1);
      if firstEntryTsc == 0 {
        rc := AppendFirst(h, shmNextEntry, shmCirNext);
      } else {
        rc := AppendNew(h, shmNextEntry, shmCirNext);
      }
      if rc != 0 {
        return rc;
      }
      taken := taken + Numbers(shmNextEntry - k, k);
      var lastIdx := LastEntryIdx(h, shmCirNext);
      lastEntryTsc := h.entries[lastIdx].tsc;
      recNextEntry := shmNextEntry;
    }
  }

  // ------------------------------------------------------------------ whole runs

  datatype Event = Emit(x: Entry) | Poll

  /** What the producer has recorded. */
  function Emitted(events: seq<Event>): seq<Entry> {
    if events == [] then []
    else
      var k := |events| - 1;
      if events[k].Emit? then Emitted(events[..k]) + [events[k].x] else Emitted(events[..k])
  }

  /** How many entries there were at the last poll. */
  function Seen(events: seq<Event>): nat {
    if events == [] then 0
    else
      var k := |events| - 1;
      if events[k].Poll? then |Emitted(events)| else Seen(events[..k])
  }

  /** How many entries were overwritten between two polls, the first of which saw some. */
  function Overrun(events: seq<Event>, n: nat): nat {
    if events == [] then 0
    else
      var k := |events| - 1;
      var before, after := Seen(events[..k]), |Emitted(events)|;
      Overrun(events[..k], n) +
      (if events[k].Poll? && before > 0 && after - before > n then after - before - n else 0)
  }

  /** An empty recorder. */
  const EMPTY := Account([], 0, 0, 0, 0, [], 0)

  /** The recorder after a run. */
  function Recorded(events: seq<Event>, n: nat): Account
    requires n > 0
  {
    if events == [] then EMPTY
    else
      var a := Recorded(events[..|events| - 1], n);
      if events[|events| - 1].Poll? then Polled(a, Emitted(events), n) else a
  }

  lemma StampedPrefix(events: seq<Event>)
    requires events != [] && Stamped(Emitted(events))
    ensures Stamped(Emitted(events[..|events| - 1]))
  {
    var k := |events| - 1;
    var a, b := Emitted(events[..k]), Emitted(events);
    assert forall i :: 0 <= i < |a| ==> a[i] == b[i];
  }

  /** For every interleaving of recording and polling the file refines the log, the recorder has seen
      the log up to the last poll, and has missed exactly what was overrun between polls. */
  lemma {:induction false} RunFollows(events: seq<Event>, n: nat)
    requires n > 0 && Stamped(Emitted(events))
    ensures Follows(Recorded(events, n), Emitted(events))
    ensures Recorded(events, n).rec == Seen(events)
    ensures Recorded(events, n).missed == Overrun(events, n)
  {
    hide Follows, Stamped;
    if events == [] {
      EmptyFollows();
    } else {
      var k := |events| - 1;
      StampedPrefix(events);
      RunFollows(events[..k], n);
      var a, log := Recorded(events[..k], n), Emitted(events[..k]);
      FollowsFirst(a, log);
      if events[k].Poll? {
        PollKeeps(a, log, n);
      } else {
        EmitFollows(a, log, events[k].x);
      }
    }
  }

  lemma EmptyFollows()
    ensures Follows(EMPTY, [])
  {
  }

  lemma FollowsFirst(a: Account, log: seq<Entry>)
    requires Follows(a, log)
    ensures a.rec <= |log| && (a.rec == 0 <==> a.first == 0)
  {
  }

  /** With no gap above the size of the ring, the file is one contiguous piece of the log that ends
      at the last entry seen. */
  lemma NoGapIsContiguous(events: seq<Event>, n: nat)
    requires n > 0 && Stamped(Emitted(events)) && Overrun(events, n) == 0
    ensures
      var a, log := Recorded(events, n), Emitted(events);
      |a.file| <= a.rec == Seen(events) <= |log| && a.file == log[a.rec - |a.file|..a.rec]
  {
    hide Recorded, Emitted, Overrun, Seen;
    RunFollows(events, n);
    ContiguousIffNothingMissed(Recorded(events, n), Emitted(events));
  }

  lemma OneMore(events: seq<Event>, e: Event, n: nat)
    requires n > 0
    ensures
      var log, a := Emitted(events), Recorded(events, n);
      && Emitted(events + [e]) == (if e.Emit? then log + [e.x] else log)
      && Recorded(events + [e], n) == (if e.Poll? then Polled(a, log, n) else a)
  {
    hide Polled;
    assert (events + [e])[..|events|] == events;
  }

  /** If the clock reads 0 at the first entry, the second poll takes itself for the first and appends
      what is already in the file. */
  lemma ZeroStampRepeats(x: Entry, y: Entry)
    requires x.tsc == 0
    ensures Recorded([Emit(x), Poll, Emit(y), Poll], 4).file == [x, x, y]
  {
    hide Emitted, Recorded;
    EmptyRun();
    OneMore([], Emit(x), 4);
    OneMore([Emit(x)], Poll, 4);
    OneMore([Emit(x), Poll], Emit(y), 4);
    OneMore([Emit(x), Poll, Emit(y)], Poll, 4);
    assert [] + [Emit(x)] == [Emit(x)];
    assert [Emit(x)] + [Poll] == [Emit(x), Poll];
    assert [Emit(x), Poll] + [Emit(y)] == [Emit(x), Poll, Emit(y)];
    assert [Emit(x), Poll, Emit(y)] + [Poll] == [Emit(x), Poll, Emit(y), Poll];
    assert [] + [x] == [x] && [x] + [y] == [x, y] && [x] + [x, y] == [x, x, y];
  }

  lemma EmptyRun()
    ensures Emitted([]) == [] && Recorded([], 4) == EMPTY
  {
  }

  /** A core's ring and its recorder, through any sequence of events. */
  method Run(n: nat, events: seq<Event>) returns (h: History, r: Recorder, rc: int)
    requires IsPow2(n) && n > 0 && Stamped(Emitted(events))
    ensures h.Valid() && h.log == Emitted(events) && h.entries.Length == n
    ensures rc == 0 && r.View() == Recorded(events, n)
  {
    hide IsPow2, Polled, Follows, Stamped, Mirrors;
    h := new History(n);
    r := new Recorder();
    rc := 0;
    for i := 0 to |events|
      invariant h.Valid() && h.entries.Length == n && fresh(h) && fresh(h.entries) && fresh(r)
      invariant h.log == Emitted(events[..i]) && r.View() == Recorded(events[..i], n)
      invariant rc == 0
    {
      StepOf(events, i, n);
      match events[i] {
        case Emit(x) =>
          h.Record(x.tsc, 0, x.tpointId, x.pollerId, x.size, x.objectId, x.arg1);
        case Poll =>
          rc := r.Poll(h);
      }
    }
    assert events[..|events|] == events;
  }

  lemma {:induction false} StampedAt(events: seq<Event>, i: nat)
    requires Stamped(Emitted(events)) && i <= |events|
    ensures Stamped(Emitted(events[..i]))
    decreases |events|
  {
    hide Stamped;
    if i < |events| {
      StampedPrefix(events);
      StampedAt(events[..|events| - 1], i);
      assert events[..|events| - 1][..i] == events[..i];
    } else {
      assert events[..i] == events;
    }
  }

  lemma StepOf(events: seq<Event>, i: nat, n: nat)
    requires n > 0 && i < |events| && Stamped(Emitted(events))
    ensures
      var log, a := Emitted(events[..i]), Recorded(events[..i], n);
      && (events[i].Emit? ==>
            && events[i].x.tsc != 0
            && Emitted(events[..i + 1]) == log + [events[i].x]
            && Recorded(events[..i + 1], n) == a)
      && (events[i].Poll? ==>
            && a.rec <= |log|
            && Emitted(events[..i + 1]) == log
            && Recorded(events[..i + 1], n) == Polled(a, log, n))
  {
    hide Polled, Follows;
    StampedAt(events, i);
    StampedAt(events, i + 1);
    RunFollows(events[..i], n);
    FollowsFirst(Recorded(events[..i], n), Emitted(events[..i]));
    assert events[..i + 1][..i] == events[..i];
    if events[i].Emit? {
      var log := Emitted(events[..i + 1]);
      assert log[|log| - 1] == events[i].x;
    }
  }
}
