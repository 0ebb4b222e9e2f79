/**
  The trace reader: every core's ring is put in time order and all are merged in one ordered map,
  which is reported from the moment on at which every core has data.
*/
module TraceRead {
  import opened Basics
  import opened TraceRing
  import opened TraceRecord

  const MAX_LCORE: nat := 128

  /** entry_key */
  datatype Key = Key(lcore: nat, tsc: nat)

  datatype Item = Item(key: Key, entry: Entry)

  /** compare_entry_key */
  predicate Less(a: Key, b: Key) {
    if a.tsc == b.tsc then a.lcore < b.lcore else a.tsc < b.tsc
  }

  predicate Sorted(m: seq<Item>) {
    forall i, j :: 0 <= i < j < |m| ==> Less(m[i].key, m[j].key)
  }

  /** `map[key] = entry` on the ordered map, seen as the sequence of its items in iteration order. */
  function Put(m: seq<Item>, key: Key, entry: Entry): seq<Item> {
    if m == [] then [Item(key, entry)]
    else if m[0].key == key then [Item(key, entry)] + m[1..]
    else if Less(key, m[0].key) then [Item(key, entry)] + m
    else [m[0]] + Put(m[1..], key, entry)
  }

  lemma {:induction false} PutHas(m: seq<Item>, key: Key, entry: Entry, p: Item)
    requires Sorted(m)
    ensures p in Put(m, key, entry) <==> p == Item(key, entry) || (p in m && p.key != key)
  {
    if m != [] {
      assert m == [m[0]] + m[1..];
      if m[0].key == key {
      } else if Less(key, m[0].key) {
        assert forall i :: 0 <= i < |m| ==> m[i].key != key;
      } else {
        PutHas(m[1..], key, entry, p);
      }
    }
  }

  lemma {:induction false} PutSorted(m: seq<Item>, key: Key, entry: Entry)
    requires Sorted(m)
    ensures Sorted(Put(m, key, entry))
  {
    if m == [] || m[0].key == key || Less(key, m[0].key) {
    } else {
      PutSorted(m[1..], key, entry);
      var r := Put(m[1..], key, entry);
      forall j | 0 <= j < |r|
        ensures Less(m[0].key, r[j].key)
      {
        PutHas(m[1..], key, entry, r[j]);
      }
    }
  }

  // ------------------------------------------------------------------ one ring

  predicate Rising(s: seq<Entry>) {
    forall i, j :: 0 <= i < j < |s| ==> s[i].tsc < s[j].tsc
  }

  /** The number of entries without the ones at the end that were never written. */
  function Filled(e: seq<Entry>): (m: nat)
    requires e != [] && e[0].tsc != 0
    ensures 0 < m <= |e| && e[m - 1].tsc != 0 && forall i :: m <= i < |e| ==> e[i].tsc == 0
  {
    if e[|e| - 1].tsc == 0 then Filled(e[..|e| - 1]) else |e|
  }

  /** The index of the first smallest and of the first largest time stamp. */
  function Eldest(e: seq<Entry>): (f: nat)
    requires e != []
    ensures f < |e|
    ensures forall i :: 0 <= i < |e| ==> e[f].tsc <= e[i].tsc
    ensures forall i :: 0 <= i < f ==> e[f].tsc < e[i].tsc
  {
    if |e| == 1 then 0
    else
      var k := |e| - 1;
      var f := Eldest(e[..k]);
      if e[k].tsc < e[f].tsc then k else f
  }

  function Latest(e: seq<Entry>): (l: nat)
    requires e != []
    ensures l < |e|
    ensures forall i :: 0 <= i < |e| ==> e[i].tsc <= e[l].tsc
    ensures forall i :: 0 <= i < l ==> e[i].tsc < e[l].tsc
  {
    if |e| == 1 then 0
    else
      var k := |e| - 1;
      var l := Latest(e[..k]);
      if e[k].tsc > e[l].tsc then k else l
  }

  function First(e: seq<Entry>): (f: nat)
    requires e != [] && e[0].tsc != 0
    ensures f < Filled(e)
  {
    if Filled(e) == |e| then Eldest(e) else 0
  }

  function Last(e: seq<Entry>): (l: nat)
    requires e != [] && e[0].tsc != 0
    ensures l < Filled(e)
  {
    if Filled(e) == |e| then Latest(e) else Filled(e) - 1
  }

  /** The walk from index f to index l around the first m entries. */
  function Walk(e: seq<Entry>, m: nat, f: nat, l: nat): (w: seq<Entry>)
    requires f < m && l < m && m <= |e|
    ensures w != []
  {
    if f <= l then e[f..l + 1] else e[f..m] + e[..l + 1]
  }

  lemma WalkAt(e: seq<Entry>, m: nat, f: nat, l: nat)
    requires f < m && l < m && m <= |e|
    ensures
      var w := Walk(e, m, f, l);
      && |w| == (if f <= l then l - f + 1 else m - f + l + 1)
      && forall d :: 0 <= d < |w| ==> w[d] == e[if f + d < m then f + d else f + d - m]
  {
    var w := Walk(e, m, f, l);
    forall d | 0 <= d < |w|
      ensures w[d] == e[if f + d < m then f + d else f + d - m]
    {
      if f <= l {
        assert w == e[f..l + 1];
      } else if d < m - f {
        assert w[d] == e[f..m][d];
      } else {
        assert w[d] == e[..l + 1][d - (m - f)];
      }
    }
  }

  /** The entries populate_events visits, in order. */
  function Visited(e: seq<Entry>): (w: seq<Entry>)
    requires e != [] && e[0].tsc != 0
    ensures w != []
  {
    Walk(e, Filled(e), First(e), Last(e))
  }

  /** The ring is full of the entries `w`, which start at index `k`. */
  predicate Rotated(e: seq<Entry>, w: seq<Entry>, k: nat) {
    |w| == |e| && k < |e| && e == w[|e| - k..] + w[..|e| - k]
  }

  /** The entries `w` are followed by entries that were never written. */
  predicate Padded(e: seq<Entry>, w: seq<Entry>) {
    |w| < |e| && e[..|w|] == w && forall i :: |w| <= i < |e| ==> e[i].tsc == 0
  }

  ghost predicate Holds(e: seq<Entry>, w: seq<Entry>) {
    && w != [] && Stamped(w) && Rising(w)
    && (Padded(e, w) || exists k :: Rotated(e, w, k))
  }

  lemma RotatedAt(e: seq<Entry>, w: seq<Entry>, k: nat, i: nat)
    requires Rotated(e, w, k) && i < |e|
    ensures e[i] == w[if i < k then |e| - k + i else i - k]
  {
    if i < k {
      assert e[i] == w[|e| - k..][i];
    } else {
      assert e[i] == w[..|e| - k][i - k];
    }
  }

  lemma EldestIs(e: seq<Entry>, k: nat)
    requires k < |e| && forall i :: 0 <= i < |e| && i != k ==> e[k].tsc < e[i].tsc
    ensures Eldest(e) == k
  {
    assert e[Eldest(e)].tsc <= e[k].tsc;
  }

  lemma LatestIs(e: seq<Entry>, k: nat)
    requires k < |e| && forall i :: 0 <= i < |e| && i != k ==> e[i].tsc < e[k].tsc
    ensures Latest(e) == k
  {
    assert e[k].tsc <= e[Latest(e)].tsc;
  }

  lemma RotatedEnds(e: seq<Entry>, w: seq<Entry>, k: nat)
    requires w != [] && Stamped(w) && Rising(w) && Rotated(e, w, k)
    ensures e[0].tsc != 0 && Filled(e) == |e|
    ensures First(e) == k && Last(e) == (if k == 0 then |e| - 1 else k - 1)
  {
    hide Rotated, Eldest, Latest;
    var top := if k == 0 then |e| - 1 else k - 1;
    RotatedLength(e, w, k);
    RotatedAt(e, w, k, 0);
    RotatedAt(e, w, k, |e| - 1);
    RotatedAt(e, w, k, k);
    RotatedAt(e, w, k, top);
    forall i | 0 <= i < |e|
      ensures i != k ==> e[k].tsc < e[i].tsc
      ensures i != top ==> e[i].tsc < e[top].tsc
    {
      RotatedAt(e, w, k, i);
    }
    EldestIs(e, k);
    LatestIs(e, top);
  }

  lemma RotatedLength(e: seq<Entry>, w: seq<Entry>, k: nat)
    requires Rotated(e, w, k)
    ensures |w| == |e| && k < |e|
  {
  }

  lemma RotatedPieces(e: seq<Entry>, w: seq<Entry>, k: nat)
    requires Rotated(e, w, k)
    ensures w == e[k..] + e[..k]
  {
    assert e[k..] == w[..|e| - k] && e[..k] == w[|e| - k..];
  }

  /** Once around the whole ring. */
  lemma WalkAround(e: seq<Entry>, k: nat)
    requires k < |e|
    ensures Walk(e, |e|, k, if k == 0 then |e| - 1 else k - 1) == e[k..] + e[..k]
  {
  }

  lemma RotatedVisited(e: seq<Entry>, w: seq<Entry>, k: nat)
    requires w != [] && Stamped(w) && Rising(w) && Rotated(e, w, k)
    ensures e[0].tsc != 0 && Visited(e) == w && |w| == Filled(e)
  {
    hide Stamped, Rising, First, Last, Filled, Walk;
    RotatedEnds(e, w, k);
    RotatedPieces(e, w, k);
    WalkAround(e, k);
  }

  lemma PaddedVisited(e: seq<Entry>, w: seq<Entry>)
    requires w != [] && Stamped(w) && Padded(e, w)
    ensures e[0].tsc != 0 && Visited(e) == w && |w| == Filled(e)
  {
    hide Filled;
    assert e[0] == e[..|w|][0] && e[|w| - 1] == e[..|w|][|w| - 1];
    assert w[0].tsc != 0 && w[|w| - 1].tsc != 0;
    assert Filled(e) == |w|;
  }

  lemma HoldsVisited(e: seq<Entry>, w: seq<Entry>)
    requires Holds(e, w)
    ensures e != [] && e[0].tsc != 0 && Visited(e) == w && |w| == Filled(e)
  {
    hide Stamped, Rising, Visited, Filled;
    if Padded(e, w) {
      PaddedVisited(e, w);
    } else {
      var k :| Rotated(e, w, k);
      RotatedVisited(e, w, k);
    }
  }

  lemma VisitedAll(e: seq<Entry>)
    requires e != [] && e[0].tsc != 0 && Stamped(Visited(e))
    requires |Visited(e)| == Filled(e) && Rising(Visited(e))
    ensures Holds(e, Visited(e))
  {
    hide Filled, Eldest, Latest, Stamped, Rising, Rotated, Padded, Walk;
    var w, m, f, l := Visited(e), Filled(e), First(e), Last(e);
    WalkLength(e, m, f, l);
    if m == |e| {
      WalkAround(e, f);
      SwapPieces(e, w, f);
    } else {
      WalkStraight(e, m);
      StartIsPadded(e, w);
    }
  }

  lemma WalkLength(e: seq<Entry>, m: nat, f: nat, l: nat)
    requires f < m && l < m && m <= |e|
    ensures |Walk(e, m, f, l)| == if f <= l then l - f + 1 else m - f + l + 1
  {
  }

  lemma WalkStraight(e: seq<Entry>, m: nat)
    requires 0 < m <= |e|
    ensures Walk(e, m, 0, m - 1) == e[..m]
  {
  }

  lemma StartIsPadded(e: seq<Entry>, w: seq<Entry>)
    requires |w| < |e| && w == e[..|w|]
    requires forall i :: |w| <= i < |e| ==> e[i].tsc == 0
    ensures Padded(e, w)
  {
  }

  /** The walk visits every filled entry once, stamped and in increasing order of time stamps, if and
      only if the ring holds a strictly increasing sequence of stamped entries, rotated, or unrotated
      and followed by entries that were never written. */
  lemma VisitedIffHolds(e: seq<Entry>)
    requires e != [] && e[0].tsc != 0
    ensures
      |Visited(e)| == Filled(e) && Stamped(Visited(e)) && Rising(Visited(e))
      <==> exists w :: Holds(e, w)
  {
    hide Visited, Filled, Rising, Stamped;
    if exists w :: Holds(e, w) {
      var w :| Holds(e, w);
      HoldsVisited(e, w);
      HoldsRising(e, w);
    }
    if |Visited(e)| == Filled(e) && Stamped(Visited(e)) && Rising(Visited(e)) {
      VisitedAll(e);
    }
  }

  lemma HoldsRising(e: seq<Entry>, w: seq<Entry>)
    requires Holds(e, w)
    ensures Stamped(w) && Rising(w)
  {
  }

  /** What the producer leaves in its ring can be read: the latest entries of the log. */
  lemma RingHolds(e: seq<Entry>, log: seq<Entry>)
    requires e != [] && Mirrors(e, log) && log != [] && Stamped(log) && Rising(log)
    requires forall i :: |log| <= i < |e| ==> e[i].tsc == 0
    ensures Holds(e, log[|log| - Min(|log|, |e|)..])
  {
    hide Mirrors, Rotated, Padded;
    var n := |e|;
    var w := log[|log| - Min(|log|, n)..];
    if |log| < n {
      UnwrappedIsPadded(e, log);
      assert w == log;
    } else {
      RingSlice(e, log, n);
      ModAdd(|log| - n, n, n);
      SwapPieces(e, w, |log| % n);
    }
  }

  lemma SwapPieces(e: seq<Entry>, w: seq<Entry>, k: nat)
    requires k < |e| && w == e[k..] + e[..k]
    ensures Rotated(e, w, k)
  {
    assert w[|e| - k..] == e[..k] && w[..|e| - k] == e[k..];
  }

  lemma UnwrappedIsPadded(e: seq<Entry>, log: seq<Entry>)
    requires Mirrors(e, log) && |log| < |e|
    requires forall i :: |log| <= i < |e| ==> e[i].tsc == 0
    ensures Padded(e, log)
  {
    forall i | 0 <= i < |log|
      ensures e[i] == log[i]
    {
      DivUnique(i, |e|, 0, i);
    }
  }

  /** What the recorder has written to its file can be read, in the order of the file. */
  lemma FileHolds(a: Account, log: seq<Entry>)
    requires Follows(a, log) && a.rec > 0 && Stamped(log) && Rising(log)
    ensures Holds(a.file, a.file) && Visited(a.file) == a.file
  {
    hide Visited;
    var e := a.file;
    assert Rising(e);
    assert Rotated(e, e, 0);
    HoldsVisited(e, e);
  }

  // ------------------------------------------------------------------ all rings

  /** `g_entry_map[entry_key(lcore, x.tsc)] = &x` for the entries of `w` in order. */
  function PutAll(m: seq<Item>, lcore: nat, w: seq<Entry>): seq<Item> {
    if w == [] then m
    else
      var x := w[|w| - 1];
      Put(PutAll(m, lcore, w[..|w| - 1]), Key(lcore, x.tsc), x)
  }

  /** The caller's test for a core that recorded anything. */
  predicate Active(e: seq<Entry>) {
    e != [] && e[0].tsc != 0
  }

  datatype Catalog = Catalog(map_: seq<Item>, first: nat)

  function Max(a: nat, b: nat): nat {
    if a > b then a else b
  }

  /** The map and g_first_tsc after one core. */
  function Catalogued(c: Catalog, lcore: nat, e: seq<Entry>): Catalog {
    if Active(e) then Catalog(PutAll(c.map_, lcore, Visited(e)), Max(Visited(e)[0].tsc, c.first)) else c
  }

  /** ... after the first `n` cores. */
  function Gathered(rings: seq<seq<Entry>>, n: nat): Catalog
    requires n <= |rings|
  {
    if n == 0 then Catalog([], 0) else Catalogued(Gathered(rings, n - 1), n - 1, rings[n - 1])
  }

  /** What the last loop reports. */
  function Since(m: seq<Item>, first: nat): seq<Item> {
    if m == [] then []
    else
      var p := m[|m| - 1];
      Since(m[..|m| - 1], first) + (if p.key.tsc < first then [] else [p])
  }

  lemma PutOneMore(m: seq<Item>, lcore: nat, w: seq<Entry>, i: nat)
    requires i < |w|
    ensures PutAll(m, lcore, w[..i + 1]) == Put(PutAll(m, lcore, w[..i]), Key(lcore, w[i].tsc), w[i])
  {
    assert w[..i + 1][..i] == w[..i];
  }

  class Reader {
    var entryMap: seq<Item>
    var firstTsc: nat

    constructor ()
      ensures entryMap == [] && firstTsc == 0
    {
      entryMap, firstTsc := [], 0;
    }

    function View(): Catalog
      reads this
    {
      Catalog(entryMap, firstTsc)
    }

    /** populate_events; the caller has checked that the first entry was written. */
    method PopulateEvents(lcore: nat, e: seq<Entry>)
      requires Active(e)
      modifies this
      ensures View() == Catalogued(old(View()), lcore, e)
    {
      hide PutAll, Walk, Filled, Eldest, Latest;
      WalkAt(e, Filled(e), First(e), Last(e));
      var filled := CountFilled(e);
      var first, last := 0, filled - 1;
      if |e| == filled {
        first, last := EldestAndLatest(e);
      }
      if e[first].tsc > firstTsc {
        firstTsc := e[first].tsc;
      }
      Circle(lcore, e, filled, first, last);
    }

    method CountFilled(e: seq<Entry>) returns (filled: nat)
      requires Active(e)
      ensures filled == Filled(e)
    {
      filled := |e|;
      while e[filled - 1].tsc == 0
        invariant 0 < filled <= |e|
        invariant Filled(e[..filled]) == Filled(e)
        decreases filled
      {
        assert e[..filled][..filled - 1] == e[..filled - 1];
        filled := filled - 1;
      }
    }

    method EldestAndLatest(e: seq<Entry>) returns (first: nat, last: nat)
      requires e != []
      ensures first == Eldest(e) && last == Latest(e)
    {
      first, last := 0, 0;
      for i := 1 to |e|
        invariant first == Eldest(e[..i]) && last == Latest(e[..i])
      {
        assert e[..i + 1][..i] == e[..i];
        if e[i].tsc < e[first].tsc {
          first := i;
        }
        if e[i].tsc > e[last].tsc {
          last := i;
        }
      }
      assert e[..|e|] == e;
    }

    /** The loop around the ring. */
    method Circle(lcore: nat, e: seq<Entry>, filled: nat, first: nat, last: nat)
      requires first < filled && last < filled && filled <= |e|
      modifies this`entryMap
      ensures entryMap == PutAll(old(entryMap), lcore, Walk(e, filled, first, last))
    {
      hide Put, Walk;
      ghost var walk, done := Walk(e, filled, first, last), 0;
      WalkAt(e, filled, first, last);
      var i := first;
      while true
        invariant done < |walk| && i < filled
        invariant i == if first + done < filled then first + done else first + done - filled
        invariant entryMap == PutAll(old(entryMap), lcore, walk[..done])
        decreases |walk| - done
      {
        assert walk[done] == e[i];
        PutOneMore(old(entryMap), lcore, walk, done);
        entryMap := Put(entryMap, Key(lcore, e[i].tsc), e[i]);
        if i == last {
          assert walk[..done + 1] == walk;
          break;
        }
        done := done + 1;
        i := i + 1;
        if i == filled {
          i := 0;
        }
      }
    }

    /** The end of main: every core, or with the option -c only one; then the entries that are not
        older than g_first_tsc, in the order of the map. */
    method Report(lcore: nat, rings: seq<seq<Entry>>) returns (events: seq<Item>)
      requires lcore <= MAX_LCORE == |rings| && View() == Catalog([], 0)
      modifies this
      ensures lcore == MAX_LCORE ==> View() == Gathered(rings, |rings|)
      ensures lcore < MAX_LCORE ==> View() == Catalogued(Catalog([], 0), lcore, rings[lcore])
      ensures events == Since(entryMap, firstTsc)
      ensures forall i, j :: 0 <= i < j < |events| ==>
        events[i].key.tsc < events[j].key.tsc ||
        (events[i].key.tsc == events[j].key.tsc && events[i].key.lcore < events[j].key.lcore)
    {
      hide Visited, PutAll;
      if lcore == MAX_LCORE {
        for i := 0 to |rings|
          invariant View() == Gathered(rings, i)
        {
          if |rings[i]| == 0 || rings[i][0].tsc == 0 {
            continue;
          }
          PopulateEvents(i, rings[i]);
        }
      } else if |rings[lcore]| > 0 && rings[lcore][0].tsc != 0 {
        PopulateEvents(lcore, rings[lcore]);
      }
      events := [];
      for j := 0 to |entryMap|
        invariant events == Since(entryMap[..j], firstTsc)
      {
        assert entryMap[..j + 1][..j] == entryMap[..j];
        if entryMap[j].key.tsc < firstTsc {
          continue;
        }
        events := events + [entryMap[j]];
      }
      assert entryMap[..|entryMap|] == entryMap;
      MapSorted(lcore, rings);
      SinceSorted(entryMap, firstTsc);
      SortedFields(events);
    }

    lemma MapSorted(lcore: nat, rings: seq<seq<Entry>>)
      requires lcore <= MAX_LCORE == |rings|
      requires lcore == MAX_LCORE ==> View() == Gathered(rings, |rings|)
      requires lcore < MAX_LCORE ==> View() == Catalogued(Catalog([], 0), lcore, rings[lcore])
      ensures Sorted(entryMap)
    {
      hide Visited, PutAll;
      if lcore == MAX_LCORE {
        GatheredSorted(rings, |rings|);
      } else {
        NothingSorted();
        if Active(rings[lcore]) {
          PutAllSorted([], lcore, Visited(rings[lcore]));
        }
      }
    }
  }

  // ------------------------------------------------------------------ what is reported

  lemma {:induction false} PutAllHas(m: seq<Item>, lcore: nat, w: seq<Entry>, p: Item)
    requires Sorted(m) && Rising(w) && forall q :: q in m ==> q.key.lcore != lcore
    ensures Sorted(PutAll(m, lcore, w))
    ensures
      p in PutAll(m, lcore, w)
      <==> p in m || (p.key == Key(lcore, p.entry.tsc) && p.entry in w)
  {
    hide Sorted, Put;
    if w != [] {
      var v, x := w[..|w| - 1], w[|w| - 1];
      PutAllHas(m, lcore, v, p);
      PutSorted(PutAll(m, lcore, v), Key(lcore, x.tsc), x);
      PutHas(PutAll(m, lcore, v), Key(lcore, x.tsc), x, p);
      assert w == v + [x];
      assert forall y :: y in v ==> y.tsc < x.tsc;
    }
  }

  /** Every active core's ring can be read. */
  ghost predicate Readable(rings: seq<seq<Entry>>) {
    forall i :: 0 <= i < |rings| && Active(rings[i]) ==> Holds(rings[i], Visited(rings[i]))
  }

  /** One of the entries of the first `n` cores. */
  predicate Known(rings: seq<seq<Entry>>, n: nat, p: Item)
    requires n <= |rings|
  {
    var c := p.key.lcore;
    c < n && Active(rings[c]) && p.key.tsc == p.entry.tsc && p.entry in Visited(rings[c])
  }

  lemma {:induction false} GatheredHas(rings: seq<seq<Entry>>, n: nat)
    requires Readable(rings) && n <= |rings|
    ensures Sorted(Gathered(rings, n).map_)
    ensures forall p :: p in Gathered(rings, n).map_ <==> Known(rings, n, p)
  {
    hide Sorted, Visited, PutAll;
    if n == 0 {
      NothingSorted();
    } else {
      GatheredHas(rings, n - 1);
      var m, e := Gathered(rings, n - 1).map_, rings[n - 1];
      if Active(e) {
        HoldsRising(e, Visited(e));
        PutAllHas(m, n - 1, Visited(e), Item(Key(0, 0), Visited(e)[0]));
        forall p: Item
          ensures
            p in PutAll(m, n - 1, Visited(e))
            <==> p in m || (p.key == Key(n - 1, p.entry.tsc) && p.entry in Visited(e))
        {
          PutAllHas(m, n - 1, Visited(e), p);
        }
      }
    }
  }

  lemma NothingSorted()
    ensures Sorted([])
  {
  }

  /** No core has data from before `t`, where it has data at all. */
  predicate CoversAll(rings: seq<seq<Entry>>, n: nat, t: nat)
    requires n <= |rings|
  {
    forall i :: 0 <= i < n && Active(rings[i]) ==> Visited(rings[i])[0].tsc <= t
  }

  lemma {:induction false} GatheredFirst(rings: seq<seq<Entry>>, n: nat, t: nat)
    requires n <= |rings|
    ensures Gathered(rings, n).first <= t <==> CoversAll(rings, n, t)
  {
    hide Visited;
    if n > 0 {
      GatheredFirst(rings, n - 1, t);
    }
  }

  lemma {:induction false} SinceHas(m: seq<Item>, first: nat)
    requires Sorted(m)
    ensures Sorted(Since(m, first))
    ensures forall p :: p in Since(m, first) <==> p in m && p.key.tsc >= first
  {
    if m != [] {
      var k := |m| - 1;
      SinceHas(m[..k], first);
      assert m == m[..k] + [m[k]];
      var r := Since(m[..k], first);
      forall i | 0 <= i < |r|
        ensures Less(r[i].key, m[k].key)
      {
        assert r[i] in r;
        assert r[i] in m[..k];
      }
    }
  }

  lemma SortedFields(m: seq<Item>)
    requires Sorted(m)
    ensures forall i, j :: 0 <= i < j < |m| ==>
      m[i].key.tsc < m[j].key.tsc ||
      (m[i].key.tsc == m[j].key.tsc && m[i].key.lcore < m[j].key.lcore)
  {
  }

  /** Both ways of reporting start out from an ordered map. */
  lemma {:induction false} PutAllSorted(m: seq<Item>, lcore: nat, w: seq<Entry>)
    requires Sorted(m)
    ensures Sorted(PutAll(m, lcore, w))
  {
    hide Sorted, Put;
    if w != [] {
      var k := |w| - 1;
      PutAllSorted(m, lcore, w[..k]);
      PutSorted(PutAll(m, lcore, w[..k]), Key(lcore, w[k].tsc), w[k]);
    }
  }

  lemma {:induction false} GatheredSorted(rings: seq<seq<Entry>>, n: nat)
    requires n <= |rings|
    ensures Sorted(Gathered(rings, n).map_)
  {
    hide Sorted, PutAll, Visited;
    if n == 0 {
      NothingSorted();
    } else {
      GatheredSorted(rings, n - 1);
      if Active(rings[n - 1]) {
        PutAllSorted(Gathered(rings, n - 1).map_, n - 1, Visited(rings[n - 1]));
      }
    }
  }

  lemma {:induction false} SinceSorted(m: seq<Item>, first: nat)
    requires Sorted(m)
    ensures Sorted(Since(m, first))
  {
    hide Sorted;
    SinceHas(m, first);
  }

  /** The report of all cores lists in (time stamp, core) order, each once, exactly the recorded
      entries that are not older than the first entry of any core. */
  lemma ReportIsExact(rings: seq<seq<Entry>>)
    requires Readable(rings)
    ensures
      var c := Gathered(rings, |rings|);
      var events := Since(c.map_, c.first);
      && (forall i, j :: 0 <= i < j < |events| ==>
            events[i].key.tsc < events[j].key.tsc ||
            (events[i].key.tsc == events[j].key.tsc && events[i].key.lcore < events[j].key.lcore))
      && forall p ::
        p in events <==> Known(rings, |rings|, p) && CoversAll(rings, |rings|, p.key.tsc)
  {
    hide Sorted, Known, CoversAll, Gathered, Since, Readable;
    var c := Gathered(rings, |rings|);
    GatheredHas(rings, |rings|);
    SinceHas(c.map_, c.first);
    SortedFields(Since(c.map_, c.first));
    forall p: Item
      ensures p.key.tsc >= c.first <==> CoversAll(rings, |rings|, p.key.tsc)
    {
      GatheredFirst(rings, |rings|, p.key.tsc);
    }
  }

  lemma {:induction false} PutLast(m: seq<Item>, key: Key, entry: Entry)
    requires forall i :: 0 <= i < |m| ==> Less(m[i].key, key)
    ensures Put(m, key, entry) == m + [Item(key, entry)]
  {
    if m != [] {
      PutLast(m[1..], key, entry);
    }
  }

  /** The items of a core's entries. */
  function ItemsOf(lcore: nat, w: seq<Entry>): (m: seq<Item>)
    ensures |m| == |w|
    ensures forall i :: 0 <= i < |w| ==>
      m[i].key.lcore == lcore && m[i].key.tsc == w[i].tsc && m[i].entry == w[i]
  {
    seq(|w|, i requires 0 <= i < |w| => Item(Key(lcore, w[i].tsc), w[i]))
  }

  lemma {:induction false} PutAllInOrder(lcore: nat, w: seq<Entry>)
    requires Rising(w)
    ensures PutAll([], lcore, w) == ItemsOf(lcore, w)
  {
    hide Put;
    if w != [] {
      var k := |w| - 1;
      PutAllInOrder(lcore, w[..k]);
      PutLast(PutAll([], lcore, w[..k]), Key(lcore, w[k].tsc), w[k]);
    }
  }

  lemma {:induction false} SinceAll(m: seq<Item>, first: nat)
    requires forall i :: 0 <= i < |m| ==> first <= m[i].key.tsc
    ensures Since(m, first) == m
  {
    if m != [] {
      SinceAll(m[..|m| - 1], first);
    }
  }

  /** The report of one core that can be read lists all its entries, in the order they were recorded. */
  lemma OneCoreIsExact(lcore: nat, e: seq<Entry>, w: seq<Entry>)
    requires Holds(e, w)
    ensures
      var c := Catalogued(Catalog([], 0), lcore, e);
      Since(c.map_, c.first) == ItemsOf(lcore, w)
  {
    hide Visited, PutAll;
    HoldsVisited(e, w);
    PutAllInOrder(lcore, w);
    SinceAll(ItemsOf(lcore, w), w[0].tsc);
  }
}
