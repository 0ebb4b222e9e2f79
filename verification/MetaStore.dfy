/**
  The metadata table in the super blob: blob ids as text, the table written out bucket by bucket, and
  the table rebuilt by inserting the records one by one.
*/
module MetaStore {
  import opened Basics
  import opened HashModel

  const ID_LIMIT: nat := 0x1_0000_0000_0000_0000

  // ------------------------------------------------------------------ blob ids

  function Digit(d: nat): int
    requires d < 16
  {
    if d < 10 then 48 + d else 87 + d
  }

  predicate IsHex(c: int) {
    48 <= c < 58 || 97 <= c < 103 || 65 <= c < 71
  }

  function DigitValue(c: int): (d: nat)
    requires IsHex(c)
    ensures d < 16
  {
    if c < 58 then c - 48 else if c < 71 then c - 55 else c - 87
  }

  function Pow16(n: nat): (p: nat)
    ensures p > 0
  {
    if n == 0 then 1 else 16 * Pow16(n - 1)
  }

  /** The last `n` hexadecimal digits. */
  function Hex(id: nat, n: nat): (s: Name)
    ensures |s| == n && forall i :: 0 <= i < n ==> IsHex(s[i])
  {
    if n == 0 then [] else Hex(id / 16, n - 1) + [Digit(id % 16)]
  }

  /** Digit `i` from the right has the value of that place, and is written 0 to 9 or a to f. */
  lemma {:induction false} HexAt(id: nat, n: nat, i: nat)
    requires i < n
    ensures
      var c := Hex(id, n)[n - 1 - i];
      && (48 <= c <= 57 || 97 <= c <= 102)
      && DigitValue(c) == id / Pow16(i) % 16
  {
    if i > 0 {
      HexAt(id / 16, n - 1, i - 1);
      DivDiv(id, Pow16(i - 1));
    }
  }

  lemma DivDiv(id: nat, p: nat)
    requires p > 0
    ensures id / 16 / p == id / (16 * p)
  {
    var q := id / 16 / p;
    var r := id % 16 + 16 * (id / 16 % p);
    assert id == 16 * (id / 16) + id % 16;
    assert id / 16 == p * q + id / 16 % p;
    assert id == (16 * p) * q + r;
    DivUnique(id, 16 * p, q, r);
  }

  /** blobid2char: "0x%016" PRIx64 */
  function Id2Char(id: nat): (s: Name)
    ensures |s| == 18
  {
    [48, 120] + Hex(id, 16)
  }

  function Parse(s: seq<int>, acc: nat): nat {
    if s == [] || !IsHex(s[0]) then acc else Parse(s[1..], 16 * acc + DigitValue(s[0]))
  }

  /** The text of an id: 0x and sixteen digits in lower case, the one of least value last. */
  lemma TextIs(id: nat, i: nat)
    requires i < 16
    ensures
      var text := Id2Char(id);
      var c := text[17 - i];
      && |text| == 18 && text[..2] == [48, 120]
      && (48 <= c <= 57 || 97 <= c <= 102)
      && (if c < 58 then c - 48 else c - 87) == id / Pow16(i) % 16
  {
    HexAt(id, 16, i);
  }

  /** char2blobid: strtoull(string, NULL, 16), without leading white space or sign. */
  function Char2Id(s: Name): (id: nat)
    ensures id < ID_LIMIT
  {
    var digits := if |s| >= 3 && s[0] == 48 && (s[1] == 120 || s[1] == 88) && IsHex(s[2]) then s[2..] else s;
    var v := Parse(digits, 0);
    if v < ID_LIMIT then v else ID_LIMIT - 1
  }

  lemma {:induction false} ParseAppend(s: seq<int>, c: int, acc: nat)
    requires IsHex(c) && forall i :: 0 <= i < |s| ==> IsHex(s[i])
    ensures Parse(s + [c], acc) == 16 * Parse(s, acc) + DigitValue(c)
  {
    if s == [] {
      assert (s + [c])[1..] == [];
    } else {
      assert (s + [c])[1..] == s[1..] + [c];
      ParseAppend(s[1..], c, 16 * acc + DigitValue(s[0]));
    }
  }

  lemma {:induction false} ParseHex(id: nat, n: nat)
    requires id < Pow16(n)
    ensures Parse(Hex(id, n), 0) == id
  {
    if n > 0 {
      ParseHex(id / 16, n - 1);
      ParseAppend(Hex(id / 16, n - 1), Digit(id % 16), 0);
    }
  }

  /** An id survives the way through its text. */
  lemma IdRoundTrip(id: nat)
    requires id < ID_LIMIT
    ensures Char2Id(Id2Char(id)) == id
  {
    assert Pow16(16) == ID_LIMIT by {
      assert Pow16(4) == 0x1_0000;
      assert Pow16(8) == 0x1_0000_0000;
      assert Pow16(12) == 0x1_0000_0000_0000;
    }
    ParseHex(id, 16);
    assert Id2Char(id)[2..] == Hex(id, 16);
  }

  /** The text of some id. */
  predicate Canonical(v: Name) {
    Id2Char(Char2Id(v)) == v
  }

  lemma TextsAreCanonical(id: nat)
    requires id < ID_LIMIT
    ensures Canonical(Id2Char(id))
  {
    IdRoundTrip(id);
  }

  // ------------------------------------------------------------------ saving and rebuilding

  /** _nbfs2_super_block_meta_data */
  datatype Record = Record(id: nat, name: Name)

  /** The bindings in the order they are written. */
  function Flat(t: seq<seq<Pair>>): seq<Pair> {
    if t == [] then [] else Flat(t[..|t| - 1]) + t[|t| - 1]
  }

  function Written(p: Pair): Record {
    Record(Char2Id(p.value), p.key)
  }

  function ReadBack(r: Record): Pair {
    Pair(r.name, Id2Char(r.id))
  }

  /** _nbfs2_write_htable */
  function Save(t: seq<seq<Pair>>): (rs: seq<Record>)
    ensures |rs| == |Flat(t)|
    ensures forall i :: 0 <= i < |rs| ==> rs[i] == Written(Flat(t)[i])
  {
    seq(|Flat(t)|, i requires 0 <= i < |Flat(t)| => Written(Flat(t)[i]))
  }

  /** _nbfs2_build_htable */
  function Build(t: Table, rs: seq<Record>): Table {
    if rs == [] then t
    else
      var k := |rs| - 1;
      var p := ReadBack(rs[k]);
      Insert(Build(t, rs[..k]), p.key, p.value)
  }

  lemma {:induction false} BuildAppend(t: Table, a: seq<Record>, b: seq<Record>)
    ensures Build(t, a + b) == Build(Build(t, a), b)
  {
    hide Insert;
    if b == [] {
      assert a + b == a;
    } else {
      var k := |b| - 1;
      assert (a + b)[..|a| + k] == a + b[..k];
      BuildAppend(t, a, b[..k]);
    }
  }

  /** The records of one bucket inserted into it. */
  function Refilled(s: seq<Pair>, rs: seq<Record>): seq<Pair> {
    if rs == [] then s
    else
      var k := |rs| - 1;
      var p := ReadBack(rs[k]);
      Inserted(Refilled(s, rs[..k]), p.key, p.value)
  }

  lemma {:induction false} BuildBucket(t: Table, b: nat, rs: seq<Record>)
    requires b < CAPACITY && forall i :: 0 <= i < |rs| ==> Hash(rs[i].name) == b
    ensures Build(t, rs) == t[b := Refilled(t[b], rs)]
  {
    hide Hash, Inserted;
    if rs != [] {
      BuildBucket(t, b, rs[..|rs| - 1]);
    }
  }

  function Records(s: seq<Pair>): (rs: seq<Record>)
    ensures |rs| == |s| && forall i :: 0 <= i < |s| ==> rs[i] == Written(s[i])
  {
    seq(|s|, i requires 0 <= i < |s| => Written(s[i]))
  }

  lemma SaveMore(t: seq<seq<Pair>>)
    requires t != []
    ensures Save(t) == Save(t[..|t| - 1]) + Records(t[|t| - 1])
  {
    hide Written;
  }

  /** The rebuilt table, bucket by bucket. */
  lemma {:induction false} BuildSaved(t: Table, n: nat)
    requires Homed(t) && n <= CAPACITY
    ensures
      forall b :: 0 <= b < CAPACITY ==>
        Build(Empty(), Save(t[..n]))[b] == if b < n then Refilled([], Records(t[b])) else []
  {
    hide Hash, Refilled, Written, Build, Save, Records;
    if n > 0 {
      BuildSaved(t, n - 1);
      assert t[..n][..n - 1] == t[..n - 1];
      SaveMore(t[..n]);
      BuildAppend(Empty(), Save(t[..n - 1]), Records(t[n - 1]));
      RecordsHash(t, n - 1);
      BuildBucket(Build(Empty(), Save(t[..n - 1])), n - 1, Records(t[n - 1]));
    } else {
      BuildNothing(t);
    }
  }

  lemma BuildNothing(t: Table)
    ensures Build(Empty(), Save(t[..0])) == Empty()
  {
    assert Save(t[..0]) == [];
  }

  lemma RecordsHash(t: Table, b: nat)
    requires Homed(t) && b < CAPACITY
    ensures forall i :: 0 <= i < |t[b]| ==> Hash(Records(t[b])[i].name) == b
  {
    hide Hash;
  }

  /** What rebuilding gives back as it was: a chain of two nodes at most, the primary key not in it,
      and values that are texts of ids. */
  predicate Reloadable(s: seq<Pair>) {
    && |s| <= 3
    && (forall i :: 1 <= i < |s| ==> s[i].key != s[0].key)
    && (forall i :: 0 <= i < |s| ==> Canonical(s[i].value))
  }

  lemma {:induction false} RefilledSame(s: seq<Pair>, n: nat)
    requires Reloadable(s) && n <= |s|
    ensures Refilled([], Records(s)[..n]) == s[..n]
  {
    hide Canonical, Id2Char, Char2Id;
    if n > 0 {
      RefilledSame(s, n - 1);
      assert Records(s)[..n][..n - 1] == Records(s)[..n - 1];
      ReadWritten(s[n - 1]);
    }
  }

  lemma ReadWritten(p: Pair)
    ensures Canonical(p.value) ==> ReadBack(Written(p)) == p
    ensures ReadBack(Written(p)).key == p.key && Canonical(ReadBack(Written(p)).value)
  {
    TextsAreCanonical(Char2Id(p.value));
  }

  lemma InsertedBounds(r: seq<Pair>, p: Pair)
    requires |r| <= 3
    ensures
      var u := Inserted(r, p.key, p.value);
      && u != [] && |u| <= 3 && |u| <= |r| + 1
      && u[0].key == (if r == [] then p.key else r[0].key)
      && (r != [] && r[0].key == p.key ==> |u| == |r|)
      && forall i :: 0 <= i < |u| ==> u[i].value == p.value || (i < |r| && u[i] == r[i])
  {
  }

  /** However many records are put into a bucket, ... */
  lemma {:induction false} RefilledBounds(s: seq<Pair>, n: nat)
    requires n <= |s|
    ensures
      var r := Refilled([], Records(s)[..n]);
      && |r| <= 3 && |r| <= n
      && (forall i :: 0 <= i < |r| ==> Canonical(r[i].value))
      && (n > 0 ==> r != [] && r[0].key == s[0].key)
      && forall j :: 1 <= j < n && s[j].key == s[0].key ==> |r| < n
  {
    hide Canonical, Written, ReadBack, Inserted;
    if n > 0 {
      RefilledBounds(s, n - 1);
      assert Records(s)[..n][..n - 1] == Records(s)[..n - 1];
      ReadWritten(s[n - 1]);
      InsertedBounds(Refilled([], Records(s)[..n - 1]), ReadBack(Written(s[n - 1])));
    }
  }

  lemma RefilledIff(s: seq<Pair>)
    ensures Refilled([], Records(s)) == s <==> Reloadable(s)
  {
    hide Canonical, Refilled;
    assert Records(s)[..|s|] == Records(s) && s[..|s|] == s;
    RefilledBounds(s, |s|);
    if Reloadable(s) {
      RefilledSame(s, |s|);
    }
  }

  /** Saving a table and rebuilding it gives the same table, and so the same answer to every search,
      if and only if every bucket is reloadable. */
  lemma SaveReload(t: Table)
    requires Homed(t)
    ensures Build(Empty(), Save(t)) == t <==> forall b :: 0 <= b < CAPACITY ==> Reloadable(t[b])
  {
    hide Hash, Refilled, Reloadable, Build, Save;
    BuildSaved(t, CAPACITY);
    assert t[..CAPACITY] == t;
    var u := Build(Empty(), Save(t));
    forall b | 0 <= b < CAPACITY
      ensures u[b] == t[b] <==> Reloadable(t[b])
    {
      RefilledIff(t[b]);
    }
    if forall b :: 0 <= b < CAPACITY ==> Reloadable(t[b]) {
      assert forall b :: 0 <= b < CAPACITY ==> u[b] == t[b];
    }
  }

  /** A table grown by insertions and deletions has short chains; if besides no key is bound twice and
      every value is the text of an id, it is rebuilt as it was. */
  lemma DistinctKeysReload(t: Table)
    requires Homed(t) && Short(t)
    requires forall b, i, j :: 0 <= b < CAPACITY && 0 <= i < j < |t[b]| ==> t[b][i].key != t[b][j].key
    requires forall b, i :: 0 <= b < CAPACITY && 0 <= i < |t[b]| ==> Canonical(t[b][i].value)
    ensures Build(Empty(), Save(t)) == t
  {
    hide Hash, Build, Save, Canonical;
    SaveReload(t);
  }

  /** A key inserted twice behind another and left first by a removal comes back once. */
  lemma RepeatedKeyIsMerged(v: Name, w: Name)
    ensures
      var a, b := [1, 4], [2, 3];
      var t := Delete(Insert(Insert(Insert(Empty(), a, v), b, v), b, w), a);
      Homed(t) && Build(Empty(), Save(t)) != t
  {
    hide Hash, Build, Save, Canonical;
    HashOfTwo(1, 4);
    HashOfTwo(2, 3);
    var a, b: Name := [1, 4], [2, 3];
    assert a[0] == 1 && b[0] == 2;
    var pa, pb, pc := Pair(a, v), Pair(b, v), Pair(b, w);
    assert Inserted([], a, v) == [pa];
    assert Inserted([pa], b, v) == [pa, pb];
    assert Inserted([pa, pb], b, w) == [pa, pb, pc];
    assert Deleted([pa, pb, pc], a) == [pb, pc];
    var t1 := Insert(Empty(), a, v);
    var t2 := Insert(t1, b, v);
    var t3 := Insert(t2, b, w);
    var t := Delete(t3, a);
    InsertHomed(Empty(), a, v);
    InsertHomed(t1, b, v);
    InsertHomed(t2, b, w);
    DeleteHomed(t3, a);
    SaveReload(t);
    assert t[5] == [pb, pc] && t[5][1].key == t[5][0].key;
    assert !Reloadable(t[5]);
  }
}
