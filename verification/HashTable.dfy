/**
  hash_table.h: an array of primary slots and an array of linked overflow chains, changed in place,
  proved against the association lists of HashModel.
*/
module HashTable {
  import opened Wrappers
  import opened HashModel

  /** Ht_item.  The ghosts say which bucket it belongs to and whether it may be a primary slot's. */
  class Cell {
    const key: Name
    var value: Name
    ghost const bucket: nat
    ghost const primary: bool

    constructor (key: Name, value: Name, ghost bucket: nat, ghost primary: bool)
      ensures this.key == key && this.value == value
      ensures this.bucket == bucket && this.primary == primary
    {
      this.key, this.value, this.bucket, this.primary := key, value, bucket, primary;
    }

    ghost function Pair(): HashModel.Pair
      reads this
    {
      HashModel.Pair(key, value)
    }
  }

  /** LinkedList.  `serial` numbers the nodes of a chain upwards. */
  class Node {
    const cell: Cell
    var next: Node?
    ghost const bucket: nat
    ghost const serial: nat

    constructor (cell: Cell, ghost bucket: nat, ghost serial: nat)
      ensures this.cell == cell && next == null && this.bucket == bucket && this.serial == serial
    {
      this.cell, next, this.bucket, this.serial := cell, null, bucket, serial;
    }
  }

  /** hash_function: the sum in an unsigned 64-bit integer. */
  method HashOf(key: Name) returns (h: nat)
    ensures h == Hash(key)
  {
    var i: nat := 0;
    for j := 0 to |key|
      invariant i % CAPACITY == Sum(key[..j]) % CAPACITY
    {
      assert key[..j + 1][..j] == key[..j];
      AddSigned(i, Sum(key[..j]), Signed(key[j]));
      i := (i + Signed(key[j])) % 0x1_0000_0000_0000_0000;
    }
    assert key[..|key|] == key;
    h := i % CAPACITY;
  }

  lemma AddMultiple(x: int, t: int)
    ensures (x + CAPACITY * t) % CAPACITY == x % CAPACITY
  {
  }

  /** Wrapping at 2^64 does not show modulo 2^16. */
  lemma AddSigned(i: nat, s: int, c: int)
    requires i % CAPACITY == s % CAPACITY
    ensures (i + c) % 0x1_0000_0000_0000_0000 % CAPACITY == (s + c) % CAPACITY
  {
    var x := i + c;
    var t := x / 0x1_0000_0000_0000_0000;
    assert x % 0x1_0000_0000_0000_0000 == x + CAPACITY * (-0x1_0000_0000_0000 * t);
    AddMultiple(x, -0x1_0000_0000_0000 * t);
    assert i == s + CAPACITY * (i / CAPACITY - s / CAPACITY);
    AddMultiple(s + c, i / CAPACITY - s / CAPACITY);
  }

  /** The nodes of a linked list in order. */
  ghost predicate Chained(chain: seq<Node>)
    reads chain
  {
    && (chain != [] ==> chain[|chain| - 1].next == null)
    && (forall i :: 0 <= i < |chain| - 1 ==> chain[i].next == chain[i + 1])
    && (forall i, j :: 0 <= i < j < |chain| ==> chain[i].serial < chain[j].serial)
  }

  /** A list with a new node: linked behind the last but one if there is one. */
  function Extended<T>(chain: seq<T>, node: T): seq<T> {
    if |chain| < 2 then chain + [node] else chain[..|chain| - 1] + [node]
  }

  ghost function NextSerial(chain: seq<Node>): nat {
    if chain == [] then 0 else chain[|chain| - 1].serial + 1
  }

  /** The node that linkedlist_insert links the new one to. */
  ghost function Joint(chain: seq<Node>): Node
    requires chain != []
  {
    if |chain| == 1 then chain[0] else chain[|chain| - 2]
  }

  twostate lemma Relinked(chain: seq<Node>, new node: Node)
    requires old(Chained(chain)) && chain != []
    requires Joint(chain).next == node && node.next == null && node.serial == NextSerial(chain)
    requires forall n :: n in chain && n != Joint(chain) ==> n.next == old(n.next)
    ensures Chained(Extended(chain, node))
  {
    var r := Extended(chain, node);
    forall i | 0 <= i < |r|
      ensures r[i].next == if i + 1 < |r| then r[i + 1] else null
    {
      if i + 1 < |r| {
        assert r[i] == chain[i];
        if i + 2 < |r| {
          assert chain[i].serial < Joint(chain).serial;
          assert chain[i] in chain && chain[i].next == old(chain[i].next) == chain[i + 1];
        }
      }
    }
  }

  /** linkedlist_insert */
  method LinkedListInsert(list: Node?, cell: Cell, ghost chain: seq<Node>, ghost b: nat)
    returns (head: Node, node: Node)
    requires Chained(chain) && list == (if chain == [] then null else chain[0])
    modifies chain
    ensures fresh(node) && node.cell == cell && node.bucket == b
    ensures Chained(Extended(chain, node)) && head == Extended(chain, node)[0]
  {
    NextLink(chain, 0);
    node := new Node(cell, b, NextSerial(chain));
    if list == null {
      return node, node;
    }
    assert list == chain[0];
    if list.next == null {
      list.next := node;
      Relinked(chain, node);
      return list, node;
    }
    var temp: Node := list;
    ghost var i := 0;
    while temp.next.next != null
      invariant 0 <= i < |chain| - 1 && temp == chain[i] && temp.next == chain[i + 1]
      invariant Chained(chain)
      modifies {}
      decreases |chain| - i
    {
      NextLink(chain, i + 1);
      temp := temp.next;
      i := i + 1;
    }
    NextLink(chain, i + 1);
    temp.next := node;
    Relinked(chain, node);
    head := list;
  }

  lemma NextLink(chain: seq<Node>, i: nat)
    requires Chained(chain)
    ensures i < |chain| && chain[i].next == null ==> |chain| == i + 1
    ensures i < |chain| && chain[i].next != null ==> i + 1 < |chain| && chain[i].next == chain[i + 1]
  {
    if i + 1 < |chain| {
      assert chain[i].next == chain[i + 1];
    }
  }

  /** The two branches of handle_collision; `next` of a first node is taken to be null. */
  method ChainInsert(list: Node?, cell: Cell, ghost chain: seq<Node>, ghost b: nat)
    returns (head: Node, node: Node)
    requires Chained(chain) && list == (if chain == [] then null else chain[0])
    modifies chain
    ensures fresh(node) && node.cell == cell && node.bucket == b
    ensures Chained(Extended(chain, node)) && head == Extended(chain, node)[0]
  {
    if list == null {
      node := new Node(cell, b, 0);
      head := node;
    } else {
      head, node := LinkedListInsert(list, cell, chain, b);
    }
  }

  /** A bucket with another value for the key in its primary slot. */
  function Rebound(s: seq<HashModel.Pair>, value: Name): seq<HashModel.Pair> {
    if s == [] then s else [HashModel.Pair(s[0].key, value)] + s[1..]
  }

  /** A bucket with a binding added to its chain. */
  function Collided(s: seq<HashModel.Pair>, p: HashModel.Pair): seq<HashModel.Pair> {
    if s == [] then s else [s[0]] + Extended(s[1..], p)
  }

  lemma CollidedIsInserted(s: seq<HashModel.Pair>, key: Name, value: Name)
    requires s != [] && s[0].key != key
    ensures Collided(s, HashModel.Pair(key, value)) == Inserted(s, key, value)
  {
  }

  /** HashTable */
  class Table {
    const items: array<Cell?>
    const overflow: array<Node?>
    var count: nat
    /** The bindings of each bucket, the nodes of each chain in order, and all nodes and items. */
    ghost var contents: HashModel.Table
    ghost var chains: seq<seq<Node>>
    ghost var nodes: set<Node>
    ghost var cells: set<Cell>

    ghost predicate Shape()
      reads `chains
    {
      items.Length == overflow.Length == |chains| == CAPACITY
    }

    /** The nodes of `chain` belong to the bucket `b` and hold `pairs`. */
    ghost predicate Members(chain: seq<Node>, b: nat, pairs: seq<HashModel.Pair>)
      reads `contents, `chains, `nodes, `cells, cells
    {
      && |pairs| == |chain|
      && forall i :: 0 <= i < |chain| ==>
          chain[i] in nodes && chain[i].cell in cells &&
          chain[i].bucket == chain[i].cell.bucket == b && !chain[i].cell.primary &&
          chain[i].cell.Pair() == pairs[i]
    }

    ghost predicate Linked(chain: seq<Node>, b: nat, pairs: seq<HashModel.Pair>)
      reads `contents, `chains, `nodes, `cells, nodes, cells
    {
      Members(chain, b, pairs) && Chained(chain)
    }

    ghost predicate BucketOk(b: nat)
      requires Shape() && b < CAPACITY
      reads `contents, `chains, `nodes, `cells, items, overflow, nodes, cells
    {
      && (items[b] == null <==> contents[b] == [])
      && (items[b] == null ==> chains[b] == [])
      && (items[b] != null ==>
            items[b] in cells && items[b].bucket == b && items[b].primary &&
            items[b].Pair() == contents[b][0] && Linked(chains[b], b, contents[b][1..]))
      && overflow[b] == (if chains[b] == [] then null else chains[b][0])
    }

    ghost predicate Links()
      reads `contents, `chains, `nodes, `cells, items, overflow, nodes, cells
    {
      Shape() && forall b :: 0 <= b < CAPACITY ==> BucketOk(b)
    }

    ghost predicate Valid()
      reads this, items, overflow, nodes, cells
    {
      Links() && count == Occupied(contents) && Homed(contents) && Short(contents)
    }

    /** create_table(CAPACITY) */
    constructor ()
      ensures Valid() && contents == Empty() && count == 0
      ensures fresh(items) && fresh(overflow) && fresh(nodes) && fresh(cells)
    {
      items := new Cell?[CAPACITY](_ => null);
      overflow := new Node?[CAPACITY](_ => null);
      count := 0;
      contents, nodes, cells := Empty(), {}, {};
      chains := seq(CAPACITY, _ => []);
      OccupiedNone(Empty());
      EmptyShort();
    }

    /** An item put into an empty primary slot. */
    method PutPrimary(b: nat, cell: Cell)
      requires Links() && b < CAPACITY && items[b] == null
      requires cell !in cells && cell.bucket == b && cell.primary
      modifies this`contents, this`cells, items
      ensures Links() && contents == old(contents)[b := [cell.Pair()]]
      ensures cells == old(cells) + {cell}
    {
      items[b] := cell;
      cells := cells + {cell};
      contents := contents[b := [cell.Pair()]];
      forall c | 0 <= c < CAPACITY
        ensures BucketOk(c)
      {
        assert old(BucketOk(c));
      }
    }

    /** Only bucket `b` was touched. */
    twostate predicate OnlyBucket(b: nat)
      requires old(Shape()) && Shape() && b < CAPACITY
      reads this, items, overflow, nodes, cells
    {
      && old(nodes) <= nodes && old(cells) <= cells
      && (forall c :: 0 <= c < CAPACITY && c != b ==>
            items[c] == old(items[c]) && overflow[c] == old(overflow[c]) &&
            chains[c] == old(chains[c]) && contents[c] == old(contents[c]))
      && (forall n :: n in old(nodes) && n.bucket != b ==> n.next == old(n.next))
      && (forall x :: x in old(cells) && x.bucket != b ==> x.value == old(x.value))
    }

    /** `strcpy(table->items[index]->value, value)` */
    method SetPrimary(b: nat, value: Name)
      requires Links() && b < CAPACITY && items[b] != null
      modifies this`contents, cells
      ensures Links() && contents == old(contents)[b := Rebound(old(contents)[b], value)]
      ensures cells == old(cells)
    {
      hide Members, Chained;
      Primary(b);
      items[b].value := value;
      contents := contents[b := Rebound(contents[b], value)];
      Revalued(b);
      Others(b);
    }

    lemma Primary(b: nat)
      requires Links() && b < CAPACITY && items[b] != null
      ensures items[b] in cells && items[b].bucket == b
    {
      assert BucketOk(b);
    }

    /** Another value in the primary slot. */
    twostate lemma Revalued(b: nat)
      requires old(Links()) && Shape() && b < CAPACITY && old(items[b]) != null
      requires items[b] == old(items[b]) && overflow[b] == old(overflow[b])
      requires chains[b] == old(chains[b]) && nodes == old(nodes) && cells == old(cells)
      requires contents[b] == Rebound(old(contents[b]), items[b].value)
      requires forall x :: x in cells && x != items[b] ==> x.value == old(x.value)
      requires forall n :: n in nodes ==> n.next == old(n.next)
      ensures BucketOk(b)
    {
      assert old(BucketOk(b));
      assert contents[b][1..] == old(contents[b])[1..];
    }

    /** handle_collision */
    method HandleCollision(b: nat, cell: Cell)
      requires Links() && b < CAPACITY && items[b] != null
      requires cell !in cells && cell.bucket == b && !cell.primary
      modifies this`contents, this`chains, this`nodes, this`cells, nodes, overflow
      ensures Links() && cells == old(cells) + {cell} && fresh(nodes - old(nodes))
      ensures contents == old(contents)[b := Collided(old(contents)[b], cell.Pair())]
    {
      hide BucketOk, Chained, Linked, Members;
      ghost var chain := BucketChain(b);
      var head, node := ChainInsert(overflow[b], cell, chain, b);
      overflow[b] := head;
      nodes := nodes + {node};
      cells := cells + {cell};
      chains := chains[b := Extended(chain, node)];
      contents := contents[b := Collided(contents[b], cell.Pair())];
      Grown(b, node);
      Others(b);
    }

    /** What is known of the chain of an occupied bucket. */
    lemma BucketChain(b: nat) returns (chain: seq<Node>)
      requires Links() && b < CAPACITY && items[b] != null
      ensures chain == chains[b] && Chained(chain)
      ensures overflow[b] == if chain == [] then null else chain[0]
      ensures forall n :: n in chain ==> n in nodes && n.bucket == b
    {
      chain := chains[b];
      assert BucketOk(b);
      forall n | n in chain
        ensures n in nodes && n.bucket == b
      {
        var i :| 0 <= i < |chain| && chain[i] == n;
      }
    }

    /** A node behind the chain of an occupied bucket, or in the place of its last node. */
    twostate lemma Grown(b: nat, new node: Node)
      requires old(Links()) && Shape() && b < CAPACITY && old(items[b]) != null
      requires items[b] == old(items[b]) && items[b].value == old(items[b].value)
      requires chains[b] == Extended(old(chains[b]), node) && Chained(chains[b])
      requires contents[b] == Collided(old(contents[b]), node.cell.Pair())
      requires overflow[b] == chains[b][0] && old(nodes) <= nodes && old(cells) <= cells
      requires node in nodes && node.cell in cells && node.bucket == node.cell.bucket == b
      requires !node.cell.primary
      requires forall x :: x in old(cells) ==> x.value == old(x.value)
      ensures BucketOk(b)
    {
      assert old(BucketOk(b));
      assert contents[b][1..] == Extended(old(contents[b])[1..], node.cell.Pair());
    }

    twostate lemma Others(b: nat)
      requires old(Links()) && Shape() && b < CAPACITY && OnlyBucket(b) && BucketOk(b)
      ensures Links()
    {
      forall c | 0 <= c < CAPACITY && c != b
        ensures BucketOk(c)
      {
        assert old(BucketOk(c));
        Unaffected(c);
      }
    }

    /** A bucket that was not touched. */
    twostate lemma Unaffected(c: nat)
      requires old(Shape()) && Shape() && c < CAPACITY && old(BucketOk(c))
      requires items[c] == old(items[c]) && overflow[c] == old(overflow[c])
      requires chains[c] == old(chains[c]) && contents[c] == old(contents[c])
      requires old(nodes) <= nodes && old(cells) <= cells
      requires items[c] != null ==> items[c].value == old(items[c].value)
      requires forall n :: n in old(chains[c]) ==> n.next == old(n.next) && n.cell.value == old(n.cell.value)
      ensures BucketOk(c)
    {
    }

    /** The slot for a key that no bucket is full up with: an empty slot means there is room. */
    lemma RoomLeft(b: nat)
      requires Valid() && b < CAPACITY && items[b] == null
      ensures count < CAPACITY && contents[b] == []
    {
      assert BucketOk(b);
      OccupiedAll(contents, b);
    }

    lemma Occupant(b: nat)
      requires Links() && b < CAPACITY && items[b] != null
      ensures contents[b] != [] && contents[b][0] == items[b].Pair()
    {
      assert BucketOk(b);
    }

    /** ht_insert.  The branch for a full table is never taken. */
    method Insert(key: Name, value: Name)
      requires Valid()
      modifies this, items, overflow, nodes, cells
      ensures Valid() && contents == HashModel.Insert(old(contents), key, value)
      ensures fresh(nodes - old(nodes)) && fresh(cells - old(cells))
    {
      hide BucketOk, Hash, Homed, Occupied, Short, Linked, Members;
      var index := HashOf(key);
      var item := new Cell(key, value, index, items[index] == null);
      InsertHomed(contents, key, value);
      OperationsShort(contents, key, value);
      var currentItem := items[index];
      if currentItem == null {
        RoomLeft(index);
        if count == CAPACITY {
          assert false;
        }
        OccupiedUpdate(contents, index, [item.Pair()]);
        assert Inserted(contents[index], key, value) == [item.Pair()];
        PutPrimary(index, item);
        count := count + 1;
      } else {
        Occupant(index);
        OccupiedUpdate(contents, index, Inserted(contents[index], key, value));
        if currentItem.key == key {
          SetPrimary(index, value);
        } else {
          CollidedIsInserted(contents[index], key, value);
          HandleCollision(index, item);
        }
      }
    }

    /** The items of a bucket in the order ht_search meets them. */
    lemma ChainItem(b: nat, i: nat)
      requires Links() && b < CAPACITY
      ensures items[b] != null ==> |contents[b]| == |chains[b]| + 1
      ensures
        i < |chains[b]| ==>
        && i + 1 < |contents[b]|
        && chains[b][i].cell.Pair() == contents[b][i + 1]
        && chains[b][i].next == if i + 1 < |chains[b]| then chains[b][i + 1] else null
    {
      assert BucketOk(b);
      if i < |chains[b]| {
        assert contents[b][1..][i] == contents[b][i + 1];
        NextLink(chains[b], i);
      }
    }

    lemma BucketHeads(b: nat)
      requires Links() && b < CAPACITY
      ensures items[b] == null <==> contents[b] == []
      ensures items[b] != null ==> contents[b][0] == items[b].Pair()
      ensures overflow[b] == if chains[b] == [] then null else chains[b][0]
    {
      assert BucketOk(b);
    }

    /** ht_search: the first binding of the key. */
    method Search(key: Name) returns (value: Option<Name>)
      requires Valid()
      ensures value == HashModel.Search(contents, key)
    {
      hide BucketOk, Hash, Homed, Occupied, Linked, Members;
      var index := HashOf(key);
      var item, head := items[index], overflow[index];
      ghost var s, chain, j := contents[index], chains[index], 0;
      BucketHeads(index);
      ChainItem(index, 0);
      while item != null
        invariant j <= |s| && Lookup(s, key) == Lookup(s[j..], key)
        invariant item == null ==> s == []
        invariant item != null ==> j < |s| == |chain| + 1 && item.Pair() == s[j]
        invariant item != null ==> head == if j < |chain| then chain[j] else null
        decreases |s| - j
      {
        if item.key == key {
          return Some(item.value);
        }
        assert s[j..][1..] == s[j + 1..];
        if head == null {
          return None;
        }
        ChainItem(index, j);
        item := head.cell;
        head := head.next;
        j := j + 1;
      }
      return None;
    }

    /** The primary slot of a bucket without a chain is emptied. */
    method ClearPrimary(b: nat)
      requires Links() && b < CAPACITY && items[b] != null && overflow[b] == null
      modifies this`contents, items
      ensures Links() && |old(contents)[b]| == 1 && contents == old(contents)[b := []]
    {
      hide Members, Chained;
      BucketHeads(b);
      ChainItem(b, 0);
      items[b] := null;
      contents := contents[b := []];
      Others(b);
    }

    /** The first node of the chain is unlinked and a copy of its item takes the primary slot. */
    method PromoteHead(b: nat)
      requires Links() && b < CAPACITY && items[b] != null && overflow[b] != null
      modifies this`contents, this`chains, this`cells, items, overflow, nodes
      ensures Links() && fresh(cells - old(cells))
      ensures |old(contents)[b]| > 1 && contents == old(contents)[b := old(contents)[b][1..]]
    {
      hide Members, Chained;
      BucketHeads(b);
      ChainItem(b, 0);
      HeadNode(b);
      var node := overflow[b];
      var head := node.next;
      node.next := null;
      var cell := new Cell(node.cell.key, node.cell.value, b, true);
      items[b] := cell;
      overflow[b] := head;
      cells := cells + {cell};
      chains := chains[b := chains[b][1..]];
      contents := contents[b := contents[b][1..]];
      Promoted(b);
      Others(b);
    }

    lemma HeadNode(b: nat)
      requires Links() && b < CAPACITY && overflow[b] != null
      ensures overflow[b] in nodes && overflow[b].bucket == b
    {
      assert BucketOk(b);
    }

    twostate lemma Promoted(b: nat)
      requires old(Links()) && Shape() && b < CAPACITY && old(items[b]) != null && old(chains[b]) != []
      requires old(nodes) <= nodes && old(cells) <= cells
      requires items[b] != null && items[b] in cells && items[b].bucket == b && items[b].primary
      requires |old(contents[b])| > 1 && items[b].Pair() == old(contents[b])[1]
      requires chains[b] == old(chains[b])[1..] && contents[b] == old(contents[b])[1..]
      requires overflow[b] == if chains[b] == [] then null else chains[b][0]
      requires forall x :: x in old(cells) ==> x.value == old(x.value)
      requires forall n :: n in old(nodes) && n != old(chains[b])[0] ==> n.next == old(n.next)
      ensures BucketOk(b)
    {
      assert old(BucketOk(b));
      ghost var chain, tail := old(chains[b]), chains[b];
      forall i | 0 <= i < |tail|
        ensures tail[i].next == old(chain[i + 1].next)
      {
        assert chain[0].serial < chain[i + 1].serial;
        assert chain[i + 1] in old(nodes);
      }
      assert contents[b][1..] == old(contents[b])[1..][1..];
    }

    twostate lemma Dropped(b: nat)
      requires old(Links()) && Shape() && b < CAPACITY && old(items[b]) != null
      requires items[b] == old(items[b]) && items[b].value == old(items[b].value)
      requires old(cells) <= cells && chains[b] == [] && overflow[b] == null
      requires old(contents[b]) != [] && contents[b] == old(contents[b])[..1]
      ensures BucketOk(b)
    {
      assert old(BucketOk(b));
    }

    /** `table->overflow_buckets[index] = NULL` */
    method DropChain(b: nat)
      requires Links() && b < CAPACITY && items[b] != null
      modifies this`contents, this`chains, overflow
      ensures Links() && old(contents)[b] != []
      ensures contents == old(contents)[b := old(contents)[b][..1]]
    {
      hide Members, Chained;
      BucketHeads(b);
      overflow[b] := null;
      chains := chains[b := []];
      contents := contents[b := contents[b][..1]];
      Dropped(b);
      Others(b);
    }

    /** ht_delete.  `dangling`: it has freed a node that stays linked, with its binding in it. */
    method Delete(key: Name) returns (dangling: bool)
      requires Valid()
      modifies this, items, overflow, nodes
      ensures Valid() && contents == HashModel.Delete(old(contents), key)
      ensures dangling <==> !Deletable(old(contents)[Hash(key)], key)
      ensures dangling ==> contents == old(contents)
      ensures nodes == old(nodes) && fresh(cells - old(cells))
    {
      hide BucketOk, Hash, Homed, Occupied, Short, Linked, Members, Chained;
      dangling := false;
      var index := HashOf(key);
      var item, head := items[index], overflow[index];
      BucketHeads(index);
      ChainItem(index, 0);
      DeleteHomed(contents, key);
      OperationsShort(contents, key, []);
      ShortBucket(contents, index);
      OccupiedUpdate(contents, index, Deleted(contents[index], key));
      if item == null {
        assert contents[index := Deleted(contents[index], key)] == contents;
        return;
      }
      if head == null && item.key == key {
        ClearPrimary(index);
        count := count - 1;
      } else if head != null {
        if item.key == key {
          PromoteHead(index);
          return;
        }
        dangling := DeleteFromChain(index, key);
      }
    }

    /** The loop of ht_delete along the chain; `prev` is `curr` itself from the second node on. */
    method DeleteFromChain(b: nat, key: Name) returns (dangling: bool)
      requires Links() && b < CAPACITY && items[b] != null && overflow[b] != null
      requires items[b].key != key && |contents[b]| <= 3
      modifies this`contents, this`chains, overflow, nodes
      ensures Links() && contents == old(contents)[b := Deleted(old(contents)[b], key)]
      ensures dangling <==> !Deletable(old(contents)[b], key)
      ensures dangling ==> contents == old(contents)
    {
      hide BucketOk, Linked, Members, Chained;
      BucketHeads(b);
      ChainItem(b, 0);
      ghost var s, chain, j := contents[b], chains[b], 0;
      var curr, prev := overflow[b], null;
      while curr != null
        invariant 0 <= j <= |chain| && (curr != null ==> prev == if j == 0 then null else curr)
        invariant curr == if j < |chain| then chain[j] else null
        invariant forall i :: 1 <= i <= j ==> s[i].key != key
        decreases |chain| - j
        modifies {}
      {
        ChainItem(b, j);
        if curr.cell.key == key {
          break;
        }
        curr := curr.next;
        prev := curr;
        j := j + 1;
      }
      if curr == null {
        assert contents[b := s] == contents;
        return false;
      }
      if prev == null {
        DropChain(b);
        return false;
      }
      assert s[j + 1].key == key;
      InChain(b, j);
      Unlink(b, prev, curr);
      assert contents[b := s] == contents;
      dangling := true;
    }

    lemma InChain(b: nat, j: nat)
      requires Links() && b < CAPACITY && j < |chains[b]|
      ensures chains[b][j] in nodes && chains[b][j].bucket == b
    {
      assert BucketOk(b);
    }

    /** The unlinking from `prev`, which is the last node itself: nothing is unlinked. */
    method Unlink(b: nat, prev: Node, curr: Node)
      requires Links() && b < CAPACITY
      requires prev == curr && curr in nodes && curr.bucket == b && curr.next == null
      modifies overflow, nodes
      ensures Links()
    {
      hide BucketOk, Linked, Members, Chained;
      prev.next := curr.next;
      curr.next := null;
      overflow[b] := overflow[b];
      Same(b);
      Others(b);
    }

    twostate lemma Same(b: nat)
      requires old(Links()) && Shape() && b < CAPACITY
      requires items[b] == old(items[b]) && overflow[b] == old(overflow[b])
      requires chains[b] == old(chains[b]) && contents[b] == old(contents[b])
      requires nodes == old(nodes) && cells == old(cells)
      requires forall x :: x in cells ==> x.value == old(x.value)
      requires forall n :: n in nodes ==> n.next == old(n.next)
      ensures BucketOk(b)
    {
      assert old(BucketOk(b));
      Unaffected(b);
    }
  }

  // ------------------------------------------------------------------ whole runs

  datatype Op = Put(key: Name, value: Name) | Remove(key: Name)

  function Step(t: HashModel.Table, op: Op): HashModel.Table {
    match op
    case Put(key, value) => HashModel.Insert(t, key, value)
    case Remove(key) => HashModel.Delete(t, key)
  }

  /** The table after a sequence of operations. */
  function After(ops: seq<Op>): HashModel.Table {
    if ops == [] then Empty()
    else Step(After(ops[..|ops| - 1]), ops[|ops| - 1])
  }

  predicate Harmless(t: HashModel.Table, op: Op) {
    op.Remove? ==> Deletable(t[Hash(op.key)], op.key)
  }

  /** No removal comes to a key behind the head of a chain. */
  predicate Removable(ops: seq<Op>) {
    forall i :: 0 <= i < |ops| ==> Harmless(After(ops[..i]), ops[i])
  }

  /** Three keys of one bucket, and the third removed: it is behind the head of the chain. */
  lemma ThirdDangles(v: Name)
    ensures
      var a, b, c := [1, 4], [2, 3], [3, 2];
      var ops := [Put(a, v), Put(b, v), Put(c, v)];
      !Harmless(After(ops), Remove(c)) && !Removable(ops + [Remove(c)])
  {
    hide Hash;
    HashOfTwo(1, 4);
    HashOfTwo(2, 3);
    HashOfTwo(3, 2);
    var a, b, c: Name := [1, 4], [2, 3], [3, 2];
    assert a[0] == 1 && b[0] == 2 && c[0] == 3;
    var pa, pb, pc := HashModel.Pair(a, v), HashModel.Pair(b, v), HashModel.Pair(c, v);
    assert Inserted([], a, v) == [pa];
    assert Inserted([pa], b, v) == [pa, pb];
    assert Inserted([pa, pb], c, v) == [pa, pb, pc];
    var ops := [Put(a, v), Put(b, v), Put(c, v)];
    assert ops[..3] == ops && ops[..0] == [];
    AfterMore(ops, 0);
    AfterMore(ops, 1);
    AfterMore(ops, 2);
    var s := After(ops)[5];
    assert s == [pa, pb, pc] && s[2].key == c;
    assert (ops + [Remove(c)])[..3] == ops;
  }

  lemma AfterNone(ops: seq<Op>)
    ensures After(ops[..0]) == Empty()
  {
  }

  lemma AfterMore(ops: seq<Op>, i: nat)
    requires i < |ops|
    ensures After(ops[..i + 1]) == Step(After(ops[..i]), ops[i])
  {
    assert ops[..i + 1][..i] == ops[..i];
  }

  /** The operations are carried out in order up to the first removal that leaves a freed node linked,
      and all of them exactly if there is none.  The table has its links, its count of occupied slots,
      chains of at most two nodes and the bindings that the model has. */
  method Run(ops: seq<Op>) returns (table: Table, done: nat)
    ensures fresh(table) && table.Valid() && done <= |ops| && table.contents == After(ops[..done])
    ensures done < |ops| ==> !Harmless(After(ops[..done]), ops[done])
    ensures done == |ops| <==> Removable(ops)
  {
    hide Table.Valid, Hash, Deletable, After, HashModel.Insert, HashModel.Delete;
    table := new Table();
    done := 0;
    AfterNone(ops);
    while done < |ops|
      invariant fresh(table) && fresh(table.items) && fresh(table.overflow)
      invariant fresh(table.nodes) && fresh(table.cells)
      invariant table.Valid() && done <= |ops| && table.contents == After(ops[..done])
      invariant forall i :: 0 <= i < done ==> Harmless(After(ops[..i]), ops[i])
    {
      AfterMore(ops, done);
      match ops[done] {
        case Put(key, value) =>
          table.Insert(key, value);
        case Remove(key) =>
          var dangling := table.Delete(key);
          if dangling {
            return;
          }
      }
      done := done + 1;
    }
    assert ops[..|ops|] == ops;
  }
}
