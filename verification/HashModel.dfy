/**
  The NBFS2 metadata table on values: per bucket an association list, the primary slot first and
  then the chain; what each operation does to it, and saving and rebuilding it.
*/
module HashModel {
  import opened Wrappers

  /** A C string: bytes other than the terminating zero. */
  type Name = s: seq<int> | forall i :: 0 <= i < |s| ==> 0 < s[i] < 256

  datatype Pair = Pair(key: Name, value: Name)

  const CAPACITY: nat := 65536

  type Table = t: seq<seq<Pair>> | |t| == CAPACITY witness seq(CAPACITY, _ => [])

  function Empty(): (t: Table)
    ensures forall b :: 0 <= b < CAPACITY ==> t[b] == []
  {
    seq(CAPACITY, _ => [])
  }

  /** The value of a `char`, which is signed. */
  function Signed(c: int): int {
    if c < 128 then c else c - 256
  }

  function Sum(key: seq<int>): int {
    if key == [] then 0 else Sum(key[..|key| - 1]) + Signed(key[|key| - 1])
  }

  function Hash(key: Name): (b: nat)
    ensures b < CAPACITY
  {
    Sum(key) % CAPACITY
  }

  /** The bytes of a name without their sign, and those with the sign bit. */
  function ByteSum(key: seq<int>): int {
    if key == [] then 0 else ByteSum(key[..|key| - 1]) + key[|key| - 1]
  }

  function HighBytes(key: seq<int>): nat {
    if key == [] then 0 else HighBytes(key[..|key| - 1]) + if key[|key| - 1] >= 128 then 1 else 0
  }

  lemma {:induction false} SumIs(key: seq<int>)
    ensures Sum(key) == ByteSum(key) - 256 * HighBytes(key)
  {
    if key != [] {
      SumIs(key[..|key| - 1]);
    }
  }

  /** The bucket of a name: its bytes added up, less 256 for each byte that is negative as a `char`,
      modulo 65536. */
  lemma HashIs(key: Name)
    ensures Hash(key) == (ByteSum(key) - 256 * HighBytes(key)) % 65536
  {
    SumIs(key);
  }

  /** The first binding of a key in a bucket. */
  function Lookup(s: seq<Pair>, key: Name): Option<Name> {
    if s == [] then None else if s[0].key == key then Some(s[0].value) else Lookup(s[1..], key)
  }

  function Search(t: Table, key: Name): Option<Name> {
    Lookup(t[Hash(key)], key)
  }

  predicate Bound(s: seq<Pair>, key: Name) {
    exists i :: 0 <= i < |s| && s[i].key == key
  }

  /** What ht_insert does to the bucket of its key: linkedlist_insert links a new node behind the
      last but one, so that from the third node of a chain on it takes the place of the last. */
  function Inserted(s: seq<Pair>, key: Name, value: Name): seq<Pair> {
    if s == [] then [Pair(key, value)]
    else if s[0].key == key then [Pair(key, value)] + s[1..]
    else if |s| < 3 then s + [Pair(key, value)]
    else s[..|s| - 1] + [Pair(key, value)]
  }

  function Insert(t: Table, key: Name, value: Name): Table {
    var b := Hash(key);
    t[b := Inserted(t[b], key, value)]
  }

  /** What ht_delete does to the bucket of its key: a chain headed by the key is dropped whole. */
  function Deleted(s: seq<Pair>, key: Name): seq<Pair> {
    if s == [] then s
    else if s[0].key == key then s[1..]
    else if |s| > 1 && s[1].key == key then s[..1]
    else s
  }

  function Delete(t: Table, key: Name): Table {
    var b := Hash(key);
    t[b := Deleted(t[b], key)]
  }

  /** ht_delete does not come to a key further down the chain: there it frees a node that stays
      linked. */
  predicate Deletable(s: seq<Pair>, key: Name) {
    forall i :: 2 <= i < |s| && s[i].key == key ==> s[0].key == key || s[1].key == key
  }

  /** Every binding is in the bucket of its key. */
  predicate Homed(t: Table) {
    forall b, i :: 0 <= b < CAPACITY && 0 <= i < |t[b]| ==> Hash(t[b][i].key) == b
  }

  // ------------------------------------------------------------------ lookups

  lemma {:induction false} LookupBound(s: seq<Pair>, key: Name)
    ensures Lookup(s, key).Some? <==> Bound(s, key)
  {
    if s != [] {
      LookupBound(s[1..], key);
      if Bound(s[1..], key) {
        var i :| 0 <= i < |s[1..]| && s[1..][i].key == key;
        assert s[i + 1].key == key;
      }
      if Bound(s, key) && s[0].key != key {
        var i :| 0 <= i < |s| && s[i].key == key;
        assert s[1..][i - 1].key == key;
      }
    }
  }

  lemma {:induction false} LookupAppend(s: seq<Pair>, p: Pair, key: Name)
    ensures
      Lookup(s + [p], key)
      == (if Lookup(s, key).None? && p.key == key then Some(p.value) else Lookup(s, key))
  {
    if s == [] {
      assert s + [p] == [p];
    } else {
      assert (s + [p])[1..] == s[1..] + [p];
      LookupAppend(s[1..], p, key);
    }
  }

  /** What an insertion does to a bucket's bindings other than adding or rebinding its key. */
  function Kept(s: seq<Pair>, key: Name): seq<Pair> {
    if |s| < 3 || s[0].key == key then s else s[..|s| - 1]
  }

  lemma LookupInserted(s: seq<Pair>, key: Name, value: Name, k: Name)
    ensures
      var r := Kept(s, key);
      Lookup(Inserted(s, key, value), k)
      == (if k == key && (!Bound(r, key) || r[0].key == key) then Some(value) else Lookup(r, k))
  {
    var r := Inserted(s, key, value);
    LookupBound(Kept(s, key), key);
    if s != [] && s[0].key != key {
      LookupAppend(Kept(s, key), Pair(key, value), k);
    } else if s != [] {
      assert r[0] == Pair(key, value) && r[1..] == s[1..];
      if k != key {
        assert Lookup(r, k) == Lookup(r[1..], k);
      }
    }
  }

  /** The binding that an insertion drops: the last of a full chain, when nothing before it binds the
      same key. */
  predicate Loses(s: seq<Pair>, key: Name, k: Name) {
    |s| >= 3 && s[0].key != key && s[|s| - 1].key == k && !Bound(s[..|s| - 1], k)
  }

  lemma KeptLookup(s: seq<Pair>, key: Name, k: Name)
    ensures Lookup(Kept(s, key), k) == (if Loses(s, key, k) then None else Lookup(s, k))
    ensures Loses(s, key, k) ==> Lookup(s, k).Some?
  {
    if |s| >= 3 && s[0].key != key {
      var n := |s| - 1;
      assert s == s[..n] + [s[n]];
      LookupAppend(s[..n], s[n], k);
      LookupBound(s[..n], k);
    }
  }

  lemma LosesInBucket(t: Table, key: Name, k: Name)
    requires Homed(t)
    ensures Loses(t[Hash(key)], key, k) ==> Hash(k) == Hash(key)
  {
    hide Hash;
  }

  /** What every search finds after an insertion. */
  lemma InsertEffect(t: Table, key: Name, value: Name, k: Name)
    requires Homed(t)
    ensures
      var s := t[Hash(key)];
      Search(Insert(t, key, value), k)
      == (if k == key && (Search(t, key).None? || s[0].key == key || Loses(s, key, key)) then Some(value)
          else if k != key && Loses(s, key, k) then None
          else Search(t, k))
  {
    hide Lookup, Hash, Bound, Loses, Inserted;
    var s := t[Hash(key)];
    assert Insert(t, key, value)[Hash(key)] == Inserted(s, key, value);
    LookupInserted(s, key, value, k);
    KeptLookup(s, key, k);
    LookupBound(Kept(s, key), key);
    if Hash(k) != Hash(key) {
      LosesInBucket(t, key, k);
    }
  }

  /** An insertion changes no other key's answer if and only if the chain of its bucket has not
      reached two nodes yet, or the last of them is not the only binding of its key. */
  lemma InsertKeepsOthers(t: Table, key: Name, value: Name)
    requires Homed(t)
    ensures
      (forall k: Name :: k != key ==> Search(Insert(t, key, value), k) == Search(t, k))
      <==> (var s := t[Hash(key)];
            |s| < 3 || s[0].key == key || s[|s| - 1].key == key || Bound(s[..|s| - 1], s[|s| - 1].key))
  {
    hide Lookup, Inserted, Hash;
    var s := t[Hash(key)];
    forall k: Name | k != key
      ensures Search(Insert(t, key, value), k) == Search(t, k) <==> !Loses(s, key, k)
    {
      InsertEffect(t, key, value, k);
      KeptLookup(s, key, k);
      LosesInBucket(t, key, k);
    }
    if |s| >= 3 {
      var last := s[|s| - 1].key;
      if last != key && Loses(s, key, last) {
        assert Search(Insert(t, key, value), last) != Search(t, last);
      }
    }
  }

  /** The inserted value is what a search then finds exactly if the key was new, was in the primary
      slot, had that value already, or was bound by the very node that is replaced. */
  lemma InsertVisible(t: Table, key: Name, value: Name)
    requires Homed(t)
    ensures
      Search(Insert(t, key, value), key) == Some(value)
      <==> (var s := t[Hash(key)];
            Search(t, key).None? || s[0].key == key || Search(t, key) == Some(value) ||
            Loses(s, key, key))
  {
    hide Lookup, Inserted;
    InsertEffect(t, key, value, key);
  }

  lemma HashOfTwo(x: int, y: int)
    requires 0 < x < 128 && 0 < y < 128
    ensures Hash([x, y]) == x + y
  {
    assert [x, y][..1] == [x] && [x][..0] == [];
    assert Sum([x]) == x;
  }

  /** Four keys of one bucket, inserted one after the other: the third is gone. */
  lemma FourthLosesThird(v: Name)
    ensures
      var a, b, c, d := [1, 4], [2, 3], [3, 2], [4, 1];
      var t := Insert(Insert(Insert(Empty(), a, v), b, v), c, v);
      && Search(t, c) == Some(v)
      && Search(t, d) == None
      && Search(Insert(t, d, v), c) == None
  {
    hide Hash;
    HashOfTwo(1, 4);
    HashOfTwo(2, 3);
    HashOfTwo(3, 2);
    HashOfTwo(4, 1);
    var a, b, c, d: Name := [1, 4], [2, 3], [3, 2], [4, 1];
    assert a[0] == 1 && b[0] == 2 && c[0] == 3 && d[0] == 4;
    var pa, pb, pc, pd := Pair(a, v), Pair(b, v), Pair(c, v), Pair(d, v);
    assert Inserted([], a, v) == [pa];
    assert Inserted([pa], b, v) == [pa, pb];
    assert Inserted([pa, pb], c, v) == [pa, pb, pc];
    assert Inserted([pa, pb, pc], d, v) == [pa, pb, pd];
    LookupThree(pa, pb, pc, c);
    LookupThree(pa, pb, pc, d);
    LookupThree(pa, pb, pd, c);
  }

  lemma LookupThree(p: Pair, q: Pair, r: Pair, k: Name)
    requires p.key != k && q.key != k
    ensures Lookup([p, q, r], k) == if r.key == k then Some(r.value) else None
  {
    LookupDrop([p, q, r], 2, k);
    assert [p, q, r][2..] == [r] && [r][1..] == [];
  }

  lemma {:induction false} LookupDrop(s: seq<Pair>, n: nat, key: Name)
    requires n <= |s| && forall i :: 0 <= i < n ==> s[i].key != key
    ensures Lookup(s, key) == Lookup(s[n..], key)
  {
    if n > 0 {
      LookupDrop(s[1..], n - 1, key);
      assert s[1..][n - 1..] == s[n..];
    }
  }

  /** Deleting the key in the primary slot changes no other answer, and leaves the key unbound
      exactly if it was bound once. */
  lemma DeletePrimary(t: Table, key: Name, k: Name)
    requires var s := t[Hash(key)]; s != [] && s[0].key == key
    ensures k != key ==> Search(Delete(t, key), k) == Search(t, k)
    ensures Search(Delete(t, key), key).None? <==> !Bound(t[Hash(key)][1..], key)
  {
    var s := t[Hash(key)];
    LookupBound(s[1..], key);
    if k != key && Hash(k) == Hash(key) {
      LookupDrop(s, 1, k);
    }
  }

  lemma DeleteAbsent(t: Table, key: Name)
    requires Search(t, key).None?
    ensures Delete(t, key) == t
  {
    var s := t[Hash(key)];
    LookupBound(s, key);
    if s != [] && s[0].key != key && |s| > 1 {
      assert s[1].key != key;
    }
  }

  /** What a deletion in the chain leaves of the other keys: nothing but the primary binding. */
  lemma ChainDropped(s: seq<Pair>, key: Name, k: Name)
    requires |s| > 1 && s[0].key != key && s[1].key == key && k != key
    ensures
      Lookup(Deleted(s, key), k) == Lookup(s, k)
      <==> (s[0].key == k || forall i :: 2 <= i < |s| ==> s[i].key != k)
  {
    assert s[..1][0] == s[0] && s[..1][1..] == [];
    LookupBound(s, k);
    if s[0].key != k {
      assert Lookup(s[..1], k) == None;
      if i :| 2 <= i < |s| && s[i].key == k {
        assert Bound(s, k);
      }
    }
  }

  predicate OnlyKeyInChain(s: seq<Pair>, key: Name) {
    |s| > 1 && s[0].key != key && s[1].key == key ==>
    forall i :: 2 <= i < |s| ==> s[i].key == key || s[i].key == s[0].key
  }

  /** Every answer for another key survives a deletion exactly if the key, where it heads the chain,
      is alone there but for repetitions of itself and of the primary key. */
  lemma DeleteKeepsOthers(t: Table, key: Name)
    requires Deletable(t[Hash(key)], key) && Homed(t)
    ensures
      (forall k: Name :: k != key ==> Search(Delete(t, key), k) == Search(t, k))
      <==> OnlyKeyInChain(t[Hash(key)], key)
  {
    var s := t[Hash(key)];
    if |s| > 1 && s[0].key != key && s[1].key == key {
      forall k: Name | k != key
        ensures
          Search(Delete(t, key), k) == Search(t, k)
          <==> (Hash(k) != Hash(key) || s[0].key == k || forall i :: 2 <= i < |s| ==> s[i].key != k)
      {
        if Hash(k) == Hash(key) {
          ChainDropped(s, key, k);
        }
      }
      if i :| 2 <= i < |s| && s[i].key != key && s[i].key != s[0].key {
        assert Hash(s[i].key) == Hash(key);
        assert Search(Delete(t, key), s[i].key) != Search(t, s[i].key);
      }
    } else if s != [] && s[0].key == key {
      forall k: Name | k != key
        ensures Search(Delete(t, key), k) == Search(t, k)
      {
        DeletePrimary(t, key, k);
      }
    } else {
      assert Delete(t, key) == t;
    }
  }

  /** Three keys of one bucket: removing the second takes the third with it. */
  lemma DeleteTakesNext(v: Name)
    ensures
      var a, b, c := [1, 4], [2, 3], [3, 2];
      var t := Insert(Insert(Insert(Empty(), a, v), b, v), c, v);
      Search(t, c) == Some(v) && Search(Delete(t, b), c) == None
  {
    hide Hash;
    HashOfTwo(1, 4);
    HashOfTwo(2, 3);
    HashOfTwo(3, 2);
    var a, b, c: Name := [1, 4], [2, 3], [3, 2];
    assert a[0] == 1 && b[0] == 2 && c[0] == 3;
    var pa, pb, pc := Pair(a, v), Pair(b, v), Pair(c, v);
    assert Inserted([], a, v) == [pa];
    assert Inserted([pa], b, v) == [pa, pb];
    assert Inserted([pa, pb], c, v) == [pa, pb, pc];
    assert Deleted([pa, pb, pc], b) == [pa];
    LookupThree(pa, pb, pc, c);
    LookupDrop([pa], 1, c);
  }

  /** Which bindings of a bucket a removal leaves unfindable: the primary one of the key itself, if it
      is not repeated; or, where the key heads the chain, all but the primary one. */
  predicate Drops(s: seq<Pair>, key: Name, k: Name) {
    && s != []
    && if s[0].key == key then k == key && !Bound(s[1..], key)
       else |s| > 1 && s[1].key == key && s[0].key != k
  }

  lemma DeletedLoses(s: seq<Pair>, key: Name, k: Name)
    requires Lookup(s, k).Some?
    ensures Lookup(Deleted(s, key), k).None? <==> Drops(s, key, k)
  {
    LookupBound(s[1..], k);
    if |s| > 1 {
      assert s[..1][0] == s[0] && s[..1][1..] == [];
    }
  }

  /** A removal takes a findable key out of the table, whether it was asked to or not, if and only if
      the bucket drops its bindings. */
  lemma DeleteLoses(t: Table, key: Name, k: Name)
    requires Search(t, k).Some? && Deletable(t[Hash(key)], key)
    ensures Search(Delete(t, key), k).None? <==> Hash(k) == Hash(key) && Drops(t[Hash(key)], key, k)
  {
    hide Hash, Drops, Deleted, Lookup, Deletable;
    if Hash(k) == Hash(key) {
      DeletedLoses(t[Hash(key)], key, k);
    }
  }

  // ------------------------------------------------------------------ invariants

  lemma InsertHomed(t: Table, key: Name, value: Name)
    requires Homed(t)
    ensures Homed(Insert(t, key, value))
  {
  }

  /** No chain gets longer than two nodes. */
  predicate Short(t: Table) {
    forall b :: 0 <= b < CAPACITY ==> |t[b]| <= 3
  }

  lemma OperationsShort(t: Table, key: Name, value: Name)
    requires Short(t)
    ensures Short(Insert(t, key, value)) && Short(Delete(t, key))
  {
    hide Hash;
  }

  lemma EmptyShort()
    ensures Short(Empty())
  {
  }

  lemma ShortBucket(t: Table, b: nat)
    requires Short(t) && b < CAPACITY
    ensures |t[b]| <= 3
  {
  }

  lemma DeleteHomed(t: Table, key: Name)
    requires Homed(t)
    ensures Homed(Delete(t, key))
  {
  }

  /** The number of occupied primary slots among the buckets given. */
  function Occupied(t: seq<seq<Pair>>): (n: nat)
    ensures n <= |t|
  {
    if t == [] then 0 else Occupied(t[..|t| - 1]) + (if t[|t| - 1] == [] then 0 else 1)
  }

  lemma {:induction false} OccupiedUpdate(t: seq<seq<Pair>>, b: nat, s: seq<Pair>)
    requires b < |t|
    ensures
      Occupied(t[b := s])
      == Occupied(t) - (if t[b] == [] then 0 else 1) + (if s == [] then 0 else 1)
  {
    var n := |t| - 1;
    if b < n {
      OccupiedUpdate(t[..n], b, s);
      assert t[b := s][..n] == t[..n][b := s];
    } else {
      assert t[b := s][..n] == t[..n];
    }
  }

  lemma {:induction false} OccupiedAll(t: seq<seq<Pair>>, b: nat)
    requires b < |t| && t[b] == []
    ensures Occupied(t) < |t|
  {
    OccupiedUpdate(t, b, [Pair([], [])]);
  }

  lemma {:induction false} OccupiedNone(t: seq<seq<Pair>>)
    requires forall i :: 0 <= i < |t| ==> t[i] == []
    ensures Occupied(t) == 0
  {
    if t != [] {
      OccupiedNone(t[..|t| - 1]);
    }
  }
}
