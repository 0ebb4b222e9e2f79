/**
  The life of a file system: files are created and deleted, and the metadata table is unloaded into a
  buffer whose size is counted along and loaded again.
*/
module FileSystem {
  import opened Wrappers
  import opened HashModel
  import opened MetaStore
  import opened MetaFile
  import HashTable

  /** The blobstore chooses the id of a created file. */
  datatype Event = Create(name: Name, id: nat) | Erase(name: Name) | Remount

  /** The table, spb_data_size, the blobs of the store, and those of them that had a record at the last
      load or were created since. */
  datatype Fs = Fs(table: Table, size: int, live: set<nat>, known: set<nat>)

  /** The ids bound in a list of bindings. */
  function Ids(s: seq<Pair>): set<nat> {
    set i | 0 <= i < |s| :: Char2Id(s[i].value)
  }

  function Start(): Fs {
    Fs(Empty(), 0, {}, {})
  }

  /** _nbfs2_file_created; nbfs2_delete_file and _nbfs2_blob_deleted, which asks the table to remove the
      text of the id; nbfs2_unload_fs and loading. */
  function Step(fs: Fs, e: Event): Fs {
    match e
    case Create(name, id) =>
      Fs(Insert(fs.table, name, Id2Char(id)), fs.size + RECORD_SIZE, fs.live + {id}, fs.known + {id})
    case Erase(name) =>
      (match Search(fs.table, name)
       case None => fs
       case Some(text) =>
         var id := Char2Id(text);
         Fs(Delete(fs.table, Id2Char(id)), fs.size - RECORD_SIZE, fs.live - {id}, fs.known - {id}))
    case Remount =>
      Fs(Build(Empty(), Save(fs.table)), |Save(fs.table)| * RECORD_SIZE, fs.live,
         fs.live * Ids(Flat(fs.table)))
  }

  function After(events: seq<Event>): Fs {
    if events == [] then Start()
    else Step(After(events[..|events| - 1]), events[|events| - 1])
  }

  /** The records of the table fit the buffer that is allocated for them at unload. */
  predicate Fits(fs: Fs) {
    |Save(fs.table)| * RECORD_SIZE <= fs.size
  }

  /** What an event needs: the blobstore hands out an id that is not in use, and deletes a blob that is
      there; the file is found; no freed node stays linked; the write buffer is not overrun. */
  predicate Goes(fs: Fs, e: Event) {
    match e
    case Create(name, id) => id < ID_LIMIT && id !in fs.live
    case Erase(name) =>
      (match Search(fs.table, name)
       case None => false
       case Some(text) =>
         var key := Id2Char(Char2Id(text));
         Char2Id(text) in fs.live && Deletable(fs.table[Hash(key)], key))
    case Remount => Fits(fs)
  }

  /** Every event went through. */
  predicate Went(events: seq<Event>) {
    forall i :: 0 <= i < |events| ==> Goes(After(events[..i]), events[i])
  }

  lemma AfterMore(events: seq<Event>, i: nat)
    requires i < |events|
    ensures After(events[..i + 1]) == Step(After(events[..i]), events[i])
  {
    hide Step;
    assert events[..i + 1][..i] == events[..i];
  }

  lemma AfterNone(events: seq<Event>)
    ensures After(events[..0]) == Start()
  {
  }

  lemma WentNone(events: seq<Event>)
    ensures Went(events[..0])
  {
  }

  lemma WentPrefix(events: seq<Event>, n: nat)
    requires Went(events) && n <= |events|
    ensures Went(events[..n])
  {
    hide Goes, After;
    forall i | 0 <= i < n
      ensures Goes(After(events[..n][..i]), events[..n][i])
    {
      assert events[..n][..i] == events[..i];
    }
  }

  // ------------------------------------------------------------------ the size does not go below zero

  lemma {:induction false} IdsAtMost(s: seq<Pair>)
    ensures |Ids(s)| <= |s|
  {
    hide Char2Id;
    if s != [] {
      var n := |s| - 1;
      IdsAtMost(s[..n]);
      assert Ids(s) == Ids(s[..n]) + {Char2Id(s[n].value)};
    }
  }

  lemma {:induction false} IdsOfTable(t: seq<seq<Pair>>, id: nat)
    ensures id in Ids(Flat(t)) <==> exists b :: 0 <= b < |t| && id in Ids(t[b])
  {
    hide Char2Id;
    if t != [] {
      var n := |t| - 1;
      IdsOfTable(t[..n], id);
      assert Ids(Flat(t)) == Ids(Flat(t[..n])) + Ids(t[n]) by {
        IdsAppend(Flat(t[..n]), t[n]);
      }
      if b :| 0 <= b < |t| && id in Ids(t[b]) {
        assert b < n ==> id in Ids(t[..n][b]);
      }
    }
  }

  lemma IdsAppend(s: seq<Pair>, u: seq<Pair>)
    ensures Ids(s + u) == Ids(s) + Ids(u)
  {
    hide Char2Id;
    forall id | id in Ids(s) + Ids(u)
      ensures id in Ids(s + u)
    {
      if id in Ids(u) {
        var i :| 0 <= i < |u| && Char2Id(u[i].value) == id;
        assert (s + u)[|s| + i] == u[i];
      } else {
        var i :| 0 <= i < |s| && Char2Id(s[i].value) == id;
        assert (s + u)[i] == s[i];
      }
    }
  }

  /** A table whose buckets have no other ids. */
  lemma IdsWithin(t: Table, u: Table, extra: set<nat>)
    requires forall b :: 0 <= b < CAPACITY ==> Ids(u[b]) <= Ids(t[b]) + extra
    ensures Ids(Flat(u)) <= Ids(Flat(t)) + extra
  {
    hide Ids, Flat;
    forall id | id in Ids(Flat(u))
      ensures id in Ids(Flat(t)) + extra
    {
      IdsOfTable(u, id);
      IdsOfTable(t, id);
    }
  }

  lemma IdsInserted(s: seq<Pair>, key: Name, value: Name)
    ensures Ids(Inserted(s, key, value)) <= Ids(s) + {Char2Id(value)}
  {
    hide Char2Id;
  }

  lemma IdsDeleted(s: seq<Pair>, key: Name)
    ensures Ids(Deleted(s, key)) <= Ids(s)
  {
    hide Char2Id;
  }

  lemma {:induction false} IdsRefilled(s: seq<Pair>, n: nat)
    requires n <= |s|
    ensures Ids(Refilled([], Records(s)[..n])) <= Ids(s)
  {
    hide Char2Id, Id2Char, Inserted;
    if n > 0 {
      IdsRefilled(s, n - 1);
      assert Records(s)[..n][..n - 1] == Records(s)[..n - 1];
      var p := ReadBack(Written(s[n - 1]));
      IdRoundTrip(Char2Id(s[n - 1].value));
      IdsInserted(Refilled([], Records(s)[..n - 1]), p.key, p.value);
    }
  }

  lemma {:induction false} IdFound(s: seq<Pair>, key: Name)
    ensures Lookup(s, key).Some? ==> Char2Id(Lookup(s, key).value) in Ids(s)
  {
    hide Char2Id;
    if s != [] && s[0].key != key {
      IdFound(s[1..], key);
      assert s == s[..1] + s[1..];
      IdsAppend(s[..1], s[1..]);
    }
  }

  lemma IdSearched(t: Table, key: Name)
    ensures Search(t, key).Some? ==> Char2Id(Search(t, key).value) in Ids(Flat(t))
  {
    hide Ids, Flat, Hash, Char2Id;
    IdFound(t[Hash(key)], key);
    if Search(t, key).Some? {
      IdsOfTable(t, Char2Id(Search(t, key).value));
    }
  }

  /** A blob with a record is known, and the size leaves room for a record of every known blob. */
  predicate Counted(fs: Fs) {
    && Homed(fs.table)
    && fs.known <= fs.live
    && fs.live * Ids(Flat(fs.table)) <= fs.known
    && |fs.known| * RECORD_SIZE <= fs.size
  }

  lemma CreateCounted(fs: Fs, e: Event)
    requires Counted(fs) && e.Create? && Goes(fs, e)
    ensures Counted(Step(fs, e))
  {
    hide Ids, Flat, Hash, Char2Id, Id2Char, Inserted, Homed;
    var text := Id2Char(e.id);
    InsertHomed(fs.table, e.name, text);
    IdRoundTrip(e.id);
    IdsInserted(fs.table[Hash(e.name)], e.name, text);
    IdsWithin(fs.table, Insert(fs.table, e.name, text), {e.id});
  }

  lemma EraseCounted(fs: Fs, e: Event)
    requires Counted(fs) && e.Erase? && Goes(fs, e)
    ensures Counted(Step(fs, e))
  {
    hide Ids, Flat, Hash, Char2Id, Id2Char, Deleted, Deletable, Search, Homed;
    IdSearched(fs.table, e.name);
    var key := Id2Char(Char2Id(Search(fs.table, e.name).value));
    DeleteHomed(fs.table, key);
    IdsDeleted(fs.table[Hash(key)], key);
    IdsWithin(fs.table, Delete(fs.table, key), {});
  }

  lemma BuiltHomed(t: Table, rs: seq<Record>)
    requires Homed(t)
    ensures Homed(Build(t, rs))
  {
    hide Homed, Insert;
    if rs != [] {
      var k := |rs| - 1;
      BuiltHomed(t, rs[..k]);
      InsertHomed(Build(t, rs[..k]), ReadBack(rs[k]).key, ReadBack(rs[k]).value);
    }
  }

  lemma EmptyHomed()
    ensures Homed(Empty())
  {
  }

  lemma RemountCounted(fs: Fs)
    requires Counted(fs)
    ensures Counted(Step(fs, Remount))
  {
    hide Ids, Flat, Save, Build, Refilled, Records, Homed;
    var u := Build(Empty(), Save(fs.table));
    EmptyHomed();
    BuiltHomed(Empty(), Save(fs.table));
    BuildSaved(fs.table, CAPACITY);
    assert fs.table[..CAPACITY] == fs.table;
    forall b | 0 <= b < CAPACITY
      ensures Ids(u[b]) <= Ids(fs.table[b]) + {}
    {
      RecordsLength(fs.table[b]);
      IdsRefilled(fs.table[b], |fs.table[b]|);
      var rs := Records(fs.table[b]);
      assert rs[..|fs.table[b]|] == rs;
    }
    IdsWithin(fs.table, u, {});
    IdsAtMost(Flat(fs.table));
    SubsetSize(fs.live * Ids(Flat(fs.table)), Ids(Flat(fs.table)));
    SaveLength(fs.table);
  }

  lemma SaveLength(t: seq<seq<Pair>>)
    ensures |Save(t)| == |Flat(t)|
  {
  }

  lemma {:induction false} SubsetSize(a: set<nat>, b: set<nat>)
    requires a <= b
    ensures |a| <= |b|
  {
    if x :| x in a {
      SubsetSize(a - {x}, b - {x});
    }
  }

  lemma StartCounted()
    ensures Counted(Start())
  {
    EmptyHomed();
    forall id | id in Ids(Flat(Empty()))
      ensures false
    {
      IdsOfTable(Empty(), id);
    }
  }

  /** The unsigned counter never wraps below zero: it leaves room for a record of every blob that can
      still be deleted. */
  lemma {:induction false} SizeCounts(events: seq<Event>)
    requires Went(events)
    ensures Counted(After(events)) && 0 <= |After(events).known| * RECORD_SIZE <= After(events).size
  {
    hide Counted, Step, Goes;
    if events == [] {
      StartCounted();
    } else {
      var k := |events| - 1;
      WentPrefix(events, k);
      SizeCounts(events[..k]);
      var fs, e := After(events[..k]), events[k];
      match e {
        case Create(_, _) => CreateCounted(fs, e);
        case Erase(_) => EraseCounted(fs, e);
        case Remount => RemountCounted(fs);
      }
    }
    CountedSize(After(events));
  }

  lemma CountedSize(fs: Fs)
    requires Counted(fs)
    ensures |fs.known| * RECORD_SIZE <= fs.size
  {
  }

  // ------------------------------------------------------------------ deletions

  /** A deletion takes its own file out of the table if and only if the bucket of the text of its id
      drops the file's bindings: a file is found after its deletion unless another key, the text, makes
      the table drop it. */
  lemma ErasedIffDropped(fs: Fs, name: Name)
    requires Goes(fs, Erase(name))
    ensures
      var key := Id2Char(Char2Id(Search(fs.table, name).value));
      Search(Step(fs, Erase(name)).table, name).None?
      <==> Hash(name) == Hash(key) && Drops(fs.table[Hash(key)], key, name)
  {
    hide Hash, Drops, Search, Delete, Deletable, Char2Id, Id2Char;
    DeleteLoses(fs.table, Id2Char(Char2Id(Search(fs.table, name).value)), name);
  }

  /** Some file was created under this name. */
  predicate Created(events: seq<Event>, name: Name) {
    exists i :: 0 <= i < |events| && events[i].Create? && events[i].name == name
  }

  /** No file is named like the text of a deleted one. */
  predicate Apart(events: seq<Event>) {
    forall i :: 0 <= i < |events| && events[i].Erase? ==>
      var found := Search(After(events[..i]).table, events[i].name);
      found.Some? ==> !Created(events, found.value)
  }

  /** The table that the creations alone make. */
  function Creations(events: seq<Event>): Table {
    if events == [] then Empty()
    else
      var before, e := Creations(events[..|events| - 1]), events[|events| - 1];
      if e.Create? then Insert(before, e.name, Id2Char(e.id)) else before
  }

  lemma CreationsMore(events: seq<Event>, i: nat)
    requires i < |events|
    ensures
      var e := events[i];
      Creations(events[..i + 1])
      == (var t := Creations(events[..i]); if e.Create? then Insert(t, e.name, Id2Char(e.id)) else t)
  {
    hide Insert, Id2Char;
    assert events[..i + 1][..i] == events[..i];
  }

  lemma CreationsNone(events: seq<Event>)
    ensures Creations(events[..0]) == Empty()
  {
  }

  /** Every bucket would be reloaded, and every key is a file name. */
  predicate FilesOnly(t: Table, events: seq<Event>) {
    && Homed(t)
    && (forall b :: 0 <= b < CAPACITY ==> Reloadable(t[b]))
    && (forall b, i :: 0 <= b < CAPACITY && 0 <= i < |t[b]| ==> Created(events, t[b][i].key))
  }

  lemma InsertedReloadable(s: seq<Pair>, key: Name, value: Name)
    requires Reloadable(s) && Canonical(value)
    ensures Reloadable(Inserted(s, key, value))
  {
    hide Canonical;
  }

  lemma InsertedKeys(s: seq<Pair>, key: Name, value: Name)
    ensures
      var r := Inserted(s, key, value);
      forall i :: 0 <= i < |r| ==> r[i].key == key || (i < |s| && r[i] == s[i])
  {
  }

  lemma FilesCreate(t: Table, events: seq<Event>, name: Name, id: nat)
    requires FilesOnly(t, events) && id < ID_LIMIT && Created(events, name)
    ensures FilesOnly(Insert(t, name, Id2Char(id)), events)
  {
    hide Canonical, Hash, Inserted, Homed, Reloadable, Created, Id2Char;
    var text := Id2Char(id);
    TextsAreCanonical(id);
    InsertHomed(t, name, text);
    InsertedReloadable(t[Hash(name)], name, text);
    InsertedKeys(t[Hash(name)], name, text);
  }

  /** A removal of a text that names no file changes nothing. */
  lemma FilesErase(t: Table, events: seq<Event>, key: Name)
    requires FilesOnly(t, events) && !Created(events, key)
    ensures Delete(t, key) == t && Deletable(t[Hash(key)], key)
  {
    hide Created, Reloadable;
    LookupBound(t[Hash(key)], key);
    DeleteAbsent(t, key);
  }

  /** The text found for a file is canonical: that of its own id. */
  lemma FoundText(t: Table, events: seq<Event>, name: Name)
    requires FilesOnly(t, events)
    ensures Search(t, name).Some? ==> Canonical(Search(t, name).value)
  {
    hide Canonical, Created, Homed, Hash;
    CanonicalFound(t[Hash(name)], name);
  }

  lemma {:induction false} CanonicalFound(s: seq<Pair>, key: Name)
    requires forall i :: 0 <= i < |s| ==> Canonical(s[i].value)
    ensures Lookup(s, key).Some? ==> Canonical(Lookup(s, key).value)
  {
    hide Canonical;
    if s != [] && s[0].key != key {
      CanonicalFound(s[1..], key);
    }
  }

  lemma FilesRemount(t: Table, events: seq<Event>)
    requires FilesOnly(t, events)
    ensures Build(Empty(), Save(t)) == t
  {
    hide Created, Homed, Reloadable, Save, Build;
    SaveReload(t);
  }

  lemma NoFiles(events: seq<Event>)
    ensures FilesOnly(Empty(), events)
  {
  }

  /** One event of such a life. */
  lemma FilesStep(fs: Fs, events: seq<Event>, e: Event)
    requires FilesOnly(fs.table, events)
    requires e.Create? ==> e.id < ID_LIMIT && Created(events, e.name)
    requires e.Erase? ==>
      var found := Search(fs.table, e.name);
      found.Some? ==> !Created(events, found.value)
    ensures FilesOnly(Step(fs, e).table, events)
    ensures Step(fs, e).table == if e.Create? then Insert(fs.table, e.name, Id2Char(e.id)) else fs.table
    ensures e.Erase? && Search(fs.table, e.name).Some? ==>
      var found := Search(fs.table, e.name).value;
      Id2Char(Char2Id(found)) == found && Deletable(fs.table[Hash(found)], found)
  {
    hide FilesOnly, Created, Hash, Search, Insert, Delete, Deletable, Build, Save, Char2Id, Id2Char, Ids,
      Flat;
    match e {
      case Create(name, id) =>
        FilesCreate(fs.table, events, name, id);
      case Erase(name) =>
        FoundText(fs.table, events, name);
        if Search(fs.table, name).Some? {
          FilesErase(fs.table, events, Search(fs.table, name).value);
        }
      case Remount =>
        FilesRemount(fs.table, events);
    }
  }

  /** As long as nothing overruns: through all creations, deletions and remounts the table is the one
      that the creations alone make, so that deletions and remounts leave every answer as it was. */
  lemma {:induction false} LifeKeepsFiles(events: seq<Event>, n: nat)
    requires n <= |events| && Went(events[..n]) && Apart(events)
    ensures FilesOnly(After(events[..n]).table, events)
    ensures After(events[..n]).table == Creations(events[..n])
  {
    hide FilesOnly, Hash, Search, Step, Insert, Fits, Deletable, After, Creations, Id2Char, Char2Id;
    if n == 0 {
      AfterNone(events);
      CreationsNone(events);
      NoFiles(events);
    } else {
      var k := n - 1;
      WentPrefix(events[..n], k);
      assert events[..n][..k] == events[..k];
      LifeKeepsFiles(events, k);
      AfterMore(events, k);
      CreationsMore(events, k);
      assert Goes(After(events[..n][..k]), events[..n][k]);
      FilesStep(After(events[..k]), events, events[k]);
    }
  }

  // ------------------------------------------------------------------ when the records fit

  /** Creating a file adds a record, instead of rebinding the primary key or taking the place of the
      last node of a full chain. */
  predicate AddsRecord(t: Table, name: Name) {
    var s := t[Hash(name)];
    s == [] || (s[0].key != name && |s| < 3)
  }

  /** The bindings that the removal of a deleted file's text drops. */
  function Dropped(t: Table, name: Name): int {
    match Search(t, name)
    case None => 0
    case Some(text) =>
      var key := Id2Char(Char2Id(text));
      |t[Hash(key)]| - |Deleted(t[Hash(key)], key)|
  }

  /** The records that loading merges into others or loses. */
  function Merged(t: Table): int {
    |Save(t)| - |Save(Build(Empty(), Save(t)))|
  }

  /** Since the last load: creations that added no record, bindings dropped by deletions, and records
      merged at that load. */
  function Spared(events: seq<Event>): int {
    if events == [] then 0
    else
      var before, e := events[..|events| - 1], events[|events| - 1];
      var t := After(before).table;
      match e
      case Create(name, _) => Spared(before) + if AddsRecord(t, name) then 0 else 1
      case Erase(name) => Spared(before) + Dropped(t, name)
      case Remount => Merged(t)
  }

  /** Of these the creations alone; and the deletions since the last load. */
  function Rewrites(events: seq<Event>): nat {
    if events == [] then 0
    else
      var before, e := events[..|events| - 1], events[|events| - 1];
      match e
      case Create(name, _) => Rewrites(before) + if AddsRecord(After(before).table, name) then 0 else 1
      case Erase(_) => Rewrites(before)
      case Remount => 0
  }

  function Erasures(events: seq<Event>): nat {
    if events == [] then 0
    else
      var before, e := events[..|events| - 1], events[|events| - 1];
      match e
      case Create(_, _) => Erasures(before)
      case Erase(_) => Erasures(before) + 1
      case Remount => 0
  }

  lemma {:induction false} FlatUpdate(t: seq<seq<Pair>>, b: nat, s: seq<Pair>)
    requires b < |t|
    ensures |Flat(t[b := s])| == |Flat(t)| - |t[b]| + |s|
  {
    var n := |t| - 1;
    if b < n {
      FlatUpdate(t[..n], b, s);
      assert t[b := s][..n] == t[..n][b := s];
    } else {
      assert t[b := s][..n] == t[..n];
    }
  }

  lemma {:induction false} FlatNone(t: seq<seq<Pair>>)
    requires forall i :: 0 <= i < |t| ==> t[i] == []
    ensures Flat(t) == []
  {
    if t != [] {
      FlatNone(t[..|t| - 1]);
    }
  }

  lemma RecordsAdded(t: Table, name: Name, value: Name)
    ensures |Save(Insert(t, name, value))| == |Save(t)| + if AddsRecord(t, name) then 1 else 0
  {
    hide Hash, Save, Flat;
    var b := Hash(name);
    FlatUpdate(t, b, Inserted(t[b], name, value));
    SaveLength(t);
    SaveLength(Insert(t, name, value));
  }

  lemma NoRecordsYet()
    ensures |Save(Empty())| == 0
  {
    FlatNone(Empty());
    SaveLength(Empty());
  }

  lemma RecordsDropped(t: Table, key: Name)
    ensures |Save(Delete(t, key))| == |Save(t)| - (|t[Hash(key)]| - |Deleted(t[Hash(key)], key)|)
  {
    hide Hash, Save, Flat, Deleted;
    var b := Hash(key);
    FlatUpdate(t, b, Deleted(t[b], key));
    SaveLength(t);
    SaveLength(Delete(t, key));
  }

  /** The records and the size after one event. */
  lemma SizeStep(fs: Fs, e: Event)
    requires Goes(fs, e)
    ensures
      var w := Step(fs, e);
      match e
      case Create(name, _) =>
        && w.size == fs.size + RECORD_SIZE
        && |Save(w.table)| == |Save(fs.table)| + if AddsRecord(fs.table, name) then 1 else 0
      case Erase(name) =>
        && w.size == fs.size - RECORD_SIZE
        && |Save(w.table)| == |Save(fs.table)| - Dropped(fs.table, name)
      case Remount => w.size == (|Save(w.table)| + Merged(fs.table)) * RECORD_SIZE
  {
    hide Hash, Search, AddsRecord, Save, Build, Deletable, Insert, Delete, Deleted, Id2Char, Char2Id,
      Ids, Flat;
    match e {
      case Create(name, id) =>
        RecordsAdded(fs.table, name, Id2Char(id));
      case Erase(name) =>
        RecordsDropped(fs.table, Id2Char(Char2Id(Search(fs.table, name).value)));
      case Remount =>
    }
  }

  /** What the size is off by. */
  lemma {:induction false} Balance(events: seq<Event>)
    requires Went(events)
    ensures
      var fs := After(events);
      fs.size == (|Save(fs.table)| + Spared(events) - Erasures(events)) * RECORD_SIZE
  {
    hide AddsRecord, Dropped, Merged, Save, Step, Goes;
    if events == [] {
      NoRecordsYet();
    } else {
      var k := |events| - 1;
      WentPrefix(events, k);
      Balance(events[..k]);
      SizeStep(After(events[..k]), events[k]);
    }
  }

  /** If no file is named like a deleted one's text, only creations spare a record. */
  lemma {:induction false} ApartSpares(events: seq<Event>)
    requires Went(events) && Apart(events)
    ensures Spared(events) == Rewrites(events)
  {
    hide FilesOnly, AddsRecord, Save, Step, Goes, Created, Search, Dropped, Merged;
    if events != [] {
      var k := |events| - 1;
      var t := After(events[..k]).table;
      WentPrefix(events, k);
      ApartPrefix(events, k);
      ApartSpares(events[..k]);
      LifeKeepsFiles(events, k);
      match events[k] {
        case Create(_, _) =>
        case Erase(name) =>
          NothingDropped(t, events, name);
        case Remount =>
          NothingMerged(t, events);
      }
    }
  }

  lemma NothingDropped(t: Table, events: seq<Event>, name: Name)
    requires FilesOnly(t, events)
    requires Search(t, name).Some? ==> !Created(events, Search(t, name).value)
    ensures Dropped(t, name) == 0
  {
    hide FilesOnly, Created, Search, Hash, Id2Char, Char2Id;
    FoundText(t, events, name);
    if Search(t, name).Some? {
      FilesErase(t, events, Search(t, name).value);
    }
  }

  lemma NothingMerged(t: Table, events: seq<Event>)
    requires FilesOnly(t, events)
    ensures Merged(t) == 0
  {
    hide FilesOnly;
    FilesRemount(t, events);
  }

  lemma ApartPrefix(events: seq<Event>, n: nat)
    requires Apart(events) && n <= |events|
    ensures Apart(events[..n])
  {
    hide Search, After;
    forall i | 0 <= i < n && events[..n][i].Erase?
      ensures
        var found := Search(After(events[..n][..i]).table, events[..n][i].name);
        found.Some? ==> !Created(events[..n], found.value)
    {
      assert events[..n][..i] == events[..i];
      assert events[i].Erase?;
      var found := Search(After(events[..i]).table, events[i].name);
      if found.Some? {
        CreatedPrefix(events, n, found.value);
      }
    }
  }

  lemma CreatedPrefix(events: seq<Event>, n: nat, name: Name)
    requires n <= |events| && !Created(events, name)
    ensures !Created(events[..n], name)
  {
    forall j | 0 <= j < n && events[..n][j].Create?
      ensures events[..n][j].name != name
    {
      assert events[j] == events[..n][j];
    }
  }

  /** The records fit the write buffer at unload if and only if no more files were deleted since the
      load than records were spared. */
  lemma UnloadFitsIff(events: seq<Event>)
    requires Went(events)
    ensures Fits(After(events)) <==> Erasures(events) <= Spared(events)
    ensures Apart(events) ==> (Fits(After(events)) <==> Erasures(events) <= Rewrites(events))
  {
    hide Save, After, Rewrites, Spared, Erasures, Went, Apart;
    Balance(events);
    if Apart(events) {
      ApartSpares(events);
    }
  }

  predicate CreationsOnly(events: seq<Event>) {
    forall i :: 0 <= i < |events| ==> !events[i].Erase?
  }

  lemma {:induction false} NothingErased(events: seq<Event>)
    requires CreationsOnly(events)
    ensures Erasures(events) == 0 && Apart(events)
  {
    if events != [] {
      NothingErased(events[..|events| - 1]);
    }
  }

  /** Where nothing is ever deleted, the records fit at every unload, whatever names are used. */
  lemma {:induction false} CreationsFit(events: seq<Event>, n: nat)
    requires CreationsOnly(events) && n <= |events|
    requires forall i :: 0 <= i < |events| && events[i].Create? ==> Goes(After(events[..i]), events[i])
    ensures Went(events[..n]) && Fits(After(events[..n]))
    ensures After(events[..n]).table == Creations(events[..n])
  {
    hide After, Rewrites, Erasures, Apart, Creations, FilesOnly, Fits;
    if n > 0 {
      CreationsFit(events, n - 1);
      WentMore(events, n - 1);
    } else {
      WentNone(events);
    }
    NothingErased(events[..n]);
    UnloadFitsIff(events[..n]);
    assert events[..n][..n] == events[..n];
    LifeKeepsFiles(events[..n], n);
  }

  lemma WentMore(events: seq<Event>, n: nat)
    requires n < |events| && Went(events[..n]) && Goes(After(events[..n]), events[n])
    ensures Went(events[..n + 1])
  {
    hide Goes, After;
    var more := events[..n + 1];
    forall i | 0 <= i < |more|
      ensures Goes(After(more[..i]), more[i])
    {
      assert more[..i] == events[..i];
      if i < n {
        assert events[..n][..i] == events[..i];
        assert Goes(After(events[..n][..i]), events[..n][i]);
      }
    }
  }

  /** What it takes for the next event to go through: of the table only that a deleted file is found, and
      of the counter only the balance since the last load. */
  lemma NextGoes(events: seq<Event>, n: nat)
    requires n < |events| && Went(events[..n]) && Apart(events)
    ensures
      var fs := After(events[..n]);
      Goes(fs, events[n]) <==>
      match events[n]
      case Create(_, id) => id < ID_LIMIT && id !in fs.live
      case Erase(name) =>
        (match Search(fs.table, name)
         case None => false
         case Some(text) => Char2Id(text) in fs.live)
      case Remount => Erasures(events[..n]) <= Rewrites(events[..n])
  {
    hide FilesOnly, Hash, Search, Step, Deletable, After, Id2Char, Char2Id, Fits, Created, Rewrites,
      Erasures;
    match events[n] {
      case Create(_, _) =>
      case Erase(name) =>
        var t := After(events[..n]).table;
        LifeKeepsFiles(events, n);
        FoundText(t, events, name);
        if Search(t, name).Some? {
          FilesErase(t, events, Search(t, name).value);
        }
      case Remount =>
        ApartPrefix(events, n);
        UnloadFitsIff(events[..n]);
    }
  }

  /** A file created in a new file system and deleted again.  The file is still found, and the next
      unload overruns its buffer: both exactly unless the file is named by the text of its id. */
  lemma DeletedOverruns(name: Name, id: nat)
    requires id < ID_LIMIT
    ensures
      var events := [Create(name, id), Erase(name)];
      && Went(events)
      && (Search(After(events).table, name).None? <==> name == Id2Char(id))
      && (Goes(After(events), Remount) <==> name == Id2Char(id))
  {
    hide Hash, Id2Char, Char2Id, Save, Flat;
    var text := Id2Char(id);
    var events := [Create(name, id), Erase(name)];
    assert events[..1] == [Create(name, id)] && events[..1][..0] == [] && events[..2] == events;
    var fs := After(events[..1]);
    assert fs == Step(Start(), Create(name, id)) by {
      assert After([]) == Start();
    }
    assert fs.table[Hash(name)] == [Pair(name, text)];
    assert Search(fs.table, name) == Some(text);
    IdRoundTrip(id);
    assert After(events) == Step(fs, Erase(name));
    var t := Delete(fs.table, text);
    NoRecordsYet();
    RecordsAdded(Empty(), name, text);
    FlatUpdate(fs.table, Hash(text), t[Hash(text)]);
    SaveLength(fs.table);
    SaveLength(t);
    assert Went(events) by {
      assert Goes(Start(), Create(name, id)) && After(events[..0]) == Start();
    }
  }

  // ------------------------------------------------------------------ whole lives

  /** The file system on its linked table and its counter, with `live` for the blobstore, up to the first
      event that does not go through: at a Remount, the unload would overrun its buffer. */
  method Live(events: seq<Event>) returns (table: HashTable.Table, size: nat, done: nat)
    ensures fresh(table) && table.Valid() && done <= |events|
    ensures table.contents == After(events[..done]).table && size == After(events[..done]).size
    ensures Went(events[..done])
    ensures done < |events| ==> !Goes(After(events[..done]), events[done])
  {
    hide HashTable.Table.Valid, Hash, Deletable, After, Went, Insert, Delete, Search, Save, Build, Ids,
      Flat, Char2Id, Id2Char;
    table := new HashTable.Table();
    size, done := 0, 0;
    WentNone(events);
    var live: set<nat> := {};
    AfterNone(events);
    while done < |events|
      invariant fresh(table) && fresh(table.items) && fresh(table.overflow)
      invariant fresh(table.nodes) && fresh(table.cells)
      invariant table.Valid() && done <= |events| && Went(events[..done])
      invariant
        var fs := After(events[..done]);
        table.contents == fs.table && size == fs.size && live == fs.live
    {
      ghost var fs := After(events[..done]);
      match events[done] {
        case Create(name, id) =>
          if id >= ID_LIMIT || id in live {
            return;
          }
          var text := Id2Char(id);
          table.Insert(name, text);
          size := size + RECORD_SIZE;
          live := live + {id};
        case Erase(name) =>
          var found := table.Search(name);
          if found == None || Char2Id(found.value) !in live {
            return;
          }
          var id := Char2Id(found.value);
          var dangling := table.Delete(Id2Char(id));
          if dangling {
            return;
          }
          live := live - {id};
          WentMore(events, done);
          AfterMore(events, done);
          SizeCounts(events[..done + 1]);
          size := size - RECORD_SIZE;
        case Remount =>
          var again, dataSize, overrun := Reload(table, size);
          if overrun {
            return;
          }
          table, size := again, dataSize;
      }
      WentMore(events, done);
      AfterMore(events, done);
      done := done + 1;
    }
  }
}
