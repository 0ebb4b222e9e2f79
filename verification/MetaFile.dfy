/**
  Writing the hash table to the records of the super blob and building one from them, as the file
  system does at unload and at load.
*/
module MetaFile {
  import opened HashModel
  import opened MetaStore
  import HashTable

  /** sizeof(struct _nbfs2_super_block_meta_data) */
  const RECORD_SIZE: nat := 8 + MAX_FILE_NAME

  const MAX_FILE_NAME: nat := 128

  lemma RecordsMore(s: seq<Pair>, j: nat)
    requires j < |s|
    ensures Records(s[..j + 1]) == Records(s[..j]) + [Written(s[j])]
  {
    hide Written;
  }

  lemma SaveBucket(t: seq<seq<Pair>>, i: nat)
    requires i < |t|
    ensures Save(t[..i + 1]) == Save(t[..i]) + Records(t[i])
  {
    SaveMore(t[..i + 1]);
    assert t[..i + 1][..i] == t[..i];
  }

  /** The records of one occupied bucket: the primary slot, then the nodes of the chain, copied to the
      write buffer behind `before` others.  `overrun`: the next one reaches beyond the buffer. */
  method WriteBucket(table: HashTable.Table, i: nat, before: nat, bufferSize: nat)
    returns (records: seq<Record>, overrun: bool)
    requires table.Links() && i < CAPACITY && table.items[i] != null
    ensures !overrun ==> records == Records(table.contents[i])
    ensures overrun <==> bufferSize < (before + |table.contents[i]|) * RECORD_SIZE
  {
    hide HashTable.Table.BucketOk, Records, Written;
    ghost var s, chain := table.contents[i], table.chains[i];
    table.BucketHeads(i);
    table.ChainItem(i, 0);
    if bufferSize < before * RECORD_SIZE + RECORD_SIZE {
      return [], true;
    }
    records := [Record(Char2Id(table.items[i].value), table.items[i].key)];
    RecordsMore(s, 0);
    WrittenIs(s[0]);
    NoRecords(s);
    var head := table.overflow[i];
    ghost var j := 0;
    while head != null
      invariant j <= |chain| && j + 1 <= |s| && (head == null <==> j == |chain|)
      invariant head != null ==> head == chain[j]
      invariant |records| == j + 1 && records == Records(s[..j + 1])
      invariant (before + |records|) * RECORD_SIZE <= bufferSize
      decreases |chain| - j
    {
      table.ChainItem(i, j);
      if bufferSize < (before + |records|) * RECORD_SIZE + RECORD_SIZE {
        return records, true;
      }
      records := records + [Record(Char2Id(head.cell.value), head.cell.key)];
      RecordsMore(s, j + 1);
      WrittenIs(s[j + 1]);
      head := head.next;
      j := j + 1;
    }
    assert s[..|s|] == s;
    overrun := false;
  }

  lemma WrittenIs(p: Pair)
    ensures Written(p) == Record(Char2Id(p.value), p.key)
  {
  }

  lemma NoRecords(s: seq<Pair>)
    ensures Records(s[..0]) == []
  {
  }

  lemma EmptySave(t: seq<seq<Pair>>)
    ensures Save(t[..0]) == []
  {
  }

  lemma EmptyRecords(s: seq<Pair>)
    ensures s == [] ==> Records(s) == []
  {
  }

  lemma {:induction false} SaveMonotone(t: seq<seq<Pair>>, i: nat)
    requires i <= |t|
    ensures |Save(t[..i])| <= |Save(t)|
  {
    hide Save, Records;
    if i < |t| {
      SaveMore(t);
      SaveMonotone(t[..|t| - 1], i);
      assert t[..|t| - 1][..i] == t[..i];
    } else {
      assert t[..i] == t;
    }
  }

  lemma RecordsLength(s: seq<Pair>)
    ensures |Records(s)| == |s|
  {
  }

  /** _nbfs2_write_htable, into a buffer of the size allocated at unload.  It overruns the buffer, where
      this stops, exactly if the records of all bindings are more than that. */
  method WriteTable(table: HashTable.Table, bufferSize: nat)
    returns (records: seq<Record>, dataSize: nat, overrun: bool)
    requires table.Valid()
    ensures overrun <==> bufferSize < |Save(table.contents)| * RECORD_SIZE
    ensures !overrun ==> records == Save(table.contents) && dataSize == |records| * RECORD_SIZE
  {
    hide HashTable.Table.BucketOk, Save, Records, Homed, Short, Occupied;
    records := [];
    EmptySave(table.contents);
    for i := 0 to CAPACITY
      invariant records == Save(table.contents[..i]) && |records| * RECORD_SIZE <= bufferSize
    {
      table.BucketHeads(i);
      SaveBucket(table.contents, i);
      EmptyRecords(table.contents[i]);
      RecordsLength(table.contents[i]);
      if table.items[i] != null {
        var more, beyond := WriteBucket(table, i, |records|, bufferSize);
        if beyond {
          SaveMonotone(table.contents, i + 1);
          return records, 0, true;
        }
        records := records + more;
      }
    }
    assert table.contents[..CAPACITY] == table.contents;
    dataSize := |records| * RECORD_SIZE;
    overrun := false;
  }

  /** _nbfs2_build_htable: the number of records comes from the size of the data. */
  method BuildTable(table: HashTable.Table, records: seq<Record>, dataSize: nat)
    requires table.Valid() && dataSize == |records| * RECORD_SIZE
    modifies table, table.items, table.overflow, table.nodes, table.cells
    ensures table.Valid() && table.contents == Build(old(table.contents), records)
    ensures fresh(table.nodes - old(table.nodes)) && fresh(table.cells - old(table.cells))
  {
    hide HashModel.Insert;
    var num := dataSize / RECORD_SIZE;
    for i := 0 to num
      invariant table.Valid() && table.contents == Build(old(table.contents), records[..i])
      invariant fresh(table.nodes - old(table.nodes)) && fresh(table.cells - old(table.cells))
    {
      assert records[..i + 1][..i] == records[..i];
      var text := Id2Char(records[i].id);
      table.Insert(records[i].name, text);
    }
    assert records[..num] == records;
  }

  /** Unloading a file system, with a write buffer of that size, and loading it again.  If the records
      fit the buffer, the new table has every bucket of the old one as it was, and so gives every answer
      the old one gave, exactly if every bucket is reloadable. */
  method Reload(table: HashTable.Table, bufferSize: nat)
    returns (again: HashTable.Table, dataSize: nat, overrun: bool)
    requires table.Valid()
    ensures fresh(again) && fresh(again.items) && fresh(again.overflow)
    ensures fresh(again.nodes) && fresh(again.cells) && again.Valid()
    ensures overrun <==> bufferSize < |Save(table.contents)| * RECORD_SIZE
    ensures !overrun ==>
      && dataSize == |Save(table.contents)| * RECORD_SIZE
      && again.contents == Build(Empty(), Save(table.contents))
      && (again.contents == table.contents
          <==> forall b :: 0 <= b < CAPACITY ==> Reloadable(table.contents[b]))
  {
    hide Build, Save, Homed, Short, Occupied, Reloadable;
    var records;
    records, dataSize, overrun := WriteTable(table, bufferSize);
    again := new HashTable.Table();
    if !overrun {
      BuildTable(again, records, dataSize);
      SaveReload(table.contents);
    }
  }
}
