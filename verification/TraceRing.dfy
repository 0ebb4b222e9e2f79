/**
  The per-core trace buffer: a ring of a power-of-two number of entries that the producer fills and
  overwrites, with the whole history of what was ever put in it kept as a ghost.
*/
module TraceRing {
  import opened Basics

  datatype Entry = Entry(tsc: nat, tpointId: nat, pollerId: nat, size: nat, objectId: nat, arg1: nat)

  // ------------------------------------------------------------------ masks

  function Pow2(k: nat): (p: nat)
    ensures p > 0
  {
    if k == 0 then 1 else 2 * Pow2(k - 1)
  }

  ghost predicate IsPow2(n: nat) {
    exists k: nat :: n == Pow2(k)
  }

  /** `a & b` on unsigned integers. */
  function And(a: nat, b: nat): nat {
    if a == 0 || b == 0 then 0
    else 2 * And(a / 2, b / 2) + (if a % 2 == 1 && b % 2 == 1 then 1 else 0)
  }

  lemma HalfModulo(x: nat, p: nat)
    requires p > 0
    ensures x % (2 * p) == 2 * (x / 2 % p) + x % 2
  {
    var q, r := x / 2 / p, x / 2 % p;
    assert x / 2 == p * q + r;
    assert x == 2 * p * q + (2 * r + x % 2);
    DivUnique(x, 2 * p, q, 2 * r + x % 2);
  }

  lemma AndOfOdd(x: nat, p: nat)
    requires p > 0
    ensures And(x, 2 * p - 1) == 2 * And(x / 2, p - 1) + x % 2
  {
    assert (2 * p - 1) / 2 == p - 1;
  }

  lemma {:induction false} AndLowBits(x: nat, k: nat)
    ensures And(x, Pow2(k) - 1) == x % Pow2(k)
  {
    hide And;
    if k == 0 {
      AndZero(x);
    } else {
      var p := Pow2(k - 1);
      AndLowBits(x / 2, k - 1);
      HalfModulo(x, p);
      AndOfOdd(x, p);
    }
  }

  lemma AndZero(x: nat)
    ensures And(x, 0) == 0
  {
  }

  lemma {:induction false} AndSelf(x: nat)
    ensures And(x, x) == x
  {
    if x > 0 {
      AndSelf(x / 2);
    }
  }

  lemma {:induction false} NoLowerBits(n: nat)
    requires n > 0 && And(n, n - 1) == 0
    ensures IsPow2(n)
  {
    if n == 1 {
      assert Pow2(0) == 1;
    } else if n % 2 == 0 {
      assert (n - 1) / 2 == n / 2 - 1;
      NoLowerBits(n / 2);
      var k: nat :| n / 2 == Pow2(k);
      assert Pow2(k + 1) == n;
    } else {
      assert (n - 1) / 2 == n / 2;
      AndSelf(n / 2);
    }
  }

  /** The check on the number of entries, `n & (n - 1)`, accepts exactly the powers of two, and these
      are exactly the sizes at which masking an index with `n - 1` reduces it modulo the size. */
  lemma MaskIsModulo(n: nat)
    requires n > 0
    ensures And(n, n - 1) == 0 <==> IsPow2(n)
    ensures (forall x: nat :: And(x, n - 1) == x % n) <==> IsPow2(n)
  {
    if IsPow2(n) {
      var k: nat :| n == Pow2(k);
      forall x: nat
        ensures And(x, n - 1) == x % n
      {
        AndLowBits(x, k);
      }
    }
    if And(n, n - 1) == 0 {
      NoLowerBits(n);
    }
    if forall x: nat :: And(x, n - 1) == x % n {
      assert And(n, n - 1) == n % n;
    }
  }

  lemma MaskAt(x: nat, n: nat)
    requires IsPow2(n) && n > 0
    ensures And(x, n - 1) == x % n
  {
    MaskIsModulo(n);
  }

  // ------------------------------------------------------------------ the ring

  /** The ring holds the latest `|e|` entries of the log, each at its number modulo the size. */
  predicate Mirrors(e: seq<Entry>, log: seq<Entry>) {
    |e| > 0 &&
    forall i :: 0 <= i < |log| && |log| - |e| <= i ==> e[i % |e|] == log[i]
  }

  lemma ModAdd(a: nat, j: nat, n: nat)
    requires 0 < n && j <= n
    ensures (a + j) % n == if a % n + j < n then a % n + j else a % n + j - n
  {
    var q, r := a / n, a % n;
    if r + j < n {
      DivUnique(a + j, n, q, r + j);
    } else if r + j - n < n {
      assert n * (q + 1) == n * q + n;
      DivUnique(a + j, n, q + 1, r + j - n);
    }
  }

  lemma EmitKeeps(e: seq<Entry>, log: seq<Entry>, x: Entry)
    requires Mirrors(e, log)
    ensures Mirrors(e[|log| % |e| := x], log + [x])
  {
    var n, next := |e|, log + [x];
    forall i | 0 <= i < |next| && |next| - n <= i
      ensures e[|log| % n := x][i % n] == next[i]
    {
      if i < |log| {
        ModAdd(i, |log| - i, n);
      }
    }
  }

  /** The last `c` entries of the log, read out of the ring as one piece or as two. */
  lemma RingSlice(e: seq<Entry>, log: seq<Entry>, c: nat)
    requires Mirrors(e, log) && 0 < c <= |e| && c <= |log|
    ensures
      var s, t := (|log| - c) % |e|, |log| % |e|;
      log[|log| - c..] == if s < t then e[s..t] else e[s..] + e[..t]
  {
    var n, a := |e|, |log| - c;
    var s, t := a % n, |log| % n;
    ModAdd(a, c, n);
    var piece := if s < t then e[s..t] else e[s..] + e[..t];
    assert |piece| == c;
    forall j | 0 <= j < c
      ensures log[a + j] == piece[j]
    {
      ModAdd(a, j, n);
      assert e[(a + j) % n] == log[a + j];
    }
  }

  class History {
    const entries: array<Entry>
    var nextEntry: nat
    /** Everything ever recorded. */
    ghost var log: seq<Entry>

    ghost predicate Valid()
      reads this, entries
    {
      entries.Length > 0 && IsPow2(entries.Length) && nextEntry == |log| && Mirrors(entries[..], log)
    }

    /** spdk_trace_init for one core: the buffer is zeroed. */
    constructor (numEntries: nat)
      requires IsPow2(numEntries) && numEntries > 0
      ensures Valid() && log == [] && entries.Length == numEntries && fresh(entries)
      ensures forall i :: 0 <= i < numEntries ==> entries[i].tsc == 0
    {
      entries := new Entry[numEntries](_ => Entry(0, 0, 0, 0, 0, 0));
      nextEntry := 0;
      log := [];
    }

    /** _spdk_trace_record; `ticks` is the clock, read when no time stamp is passed. */
    method Record(tsc: nat, ticks: nat, tpointId: nat, pollerId: nat, size: nat, objectId: nat,
                  arg1: nat)
      requires Valid()
      modifies this`nextEntry, this`log, entries
      ensures Valid()
      ensures
        log == old(log) + [Entry(if tsc == 0 then ticks else tsc, tpointId, pollerId, size, objectId, arg1)]
    {
      var stamp := tsc;
      if tsc == 0 {
        stamp := ticks;
      }
      var x := Entry(stamp, tpointId, pollerId, size, objectId, arg1);
      MaskIsModulo(entries.Length);
      ghost var before := entries[..];
      EmitKeeps(before, log, x);
      var nextCircularEntry := And(nextEntry, entries.Length - 1);
      entries[nextCircularEntry] := x;
      assert entries[..] == before[nextCircularEntry := x];
      nextEntry := nextEntry + 1;
      log := log + [x];
    }
  }
}
