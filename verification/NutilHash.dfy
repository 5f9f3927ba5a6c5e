/**
 The intrusive hash table: rows of rings. Keys, their hash values and their equality with objects are
 parameters.
 */
module NutilHash {
  import opened LinkRings
  import opened LinkWorld
  import opened NutilList

  // sizeof(TLink<T>)
  const LINK_SIZE := 16

  class THash<Key> {
    const memory: LinkMemory
    const rows: nat
    const offset: int
    // `&m_buckets[i]`
    const buckets: seq<Address>
    // `node->GetHashValue()`, `key.GetHashValue()` and `key == *node`
    const nodeHash: Address -> nat
    const hashValue: Key -> nat
    const equals: (Key, Address) -> bool

    ghost predicate Valid()
      reads memory
    {
      && memory.Valid() && rows == |buckets| > 0
      && (forall i :: 0 <= i < rows ==> buckets[i] in memory.lists && memory.lists[buckets[i]].off == offset)
      && (forall i, j :: 0 <= i < j < rows ==> buckets[i] != buckets[j])
    }

    /** The objects of row `i` in order. */
    ghost function Row(i: nat): seq<Address>
      requires Valid() && i < rows
      reads memory
    {
      memory.lists[buckets[i]].objs
    }

    /** Every object is in the row of its own hash value. */
    ghost predicate InTheirRows()
      requires Valid()
      reads memory
    {
      RowsOk(memory.lists, buckets, nodeHash)
    }

    /** `THash(rows, offset)`; `base` is where `new TLink<T>[rows]` puts the heads. */
    constructor (memory: LinkMemory, rows: nat, offset: int, base: Address,
        nodeHash: Address -> nat, hashValue: Key -> nat, equals: (Key, Address) -> bool)
      requires memory.Valid() && rows > 0 && offset % 2 == 0 && base % 2 == 0
      requires forall i :: 0 <= i < rows ==> base + LINK_SIZE * i !in memory.owner
      modifies memory
      ensures Valid() && this.memory == memory && this.rows == rows && forall i: nat :: i < rows ==> Row(i) == []
      ensures this.nodeHash == nodeHash && this.hashValue == hashValue && this.equals == equals
      ensures InTheirRows()
      ensures forall h :: h in old(memory.lists) ==> h in memory.lists && memory.lists[h] == old(memory.lists)[h]
    {
      this.memory, this.rows, this.offset := memory, rows, offset;
      this.nodeHash, this.hashValue, this.equals := nodeHash, hashValue, equals;
      this.buckets := seq(rows, i => base + LINK_SIZE * i);
      new;
      MakeBuckets(base);
    }

    /** The default constructors of the heads, then `SetOffset` on each. */
    method MakeBuckets(base: Address)
      requires memory.Valid() && rows == |buckets| && base % 2 == 0 && offset % 2 == 0
      requires forall i :: 0 <= i < rows ==> buckets[i] == base + LINK_SIZE * i && buckets[i] !in memory.owner
      modifies memory
      ensures memory.Valid() && forall i :: 0 <= i < rows ==>
        buckets[i] in memory.lists && memory.lists[buckets[i]] == Ring(offset, [])
      ensures forall h :: h in old(memory.lists) ==> h in memory.lists && memory.lists[h] == old(memory.lists)[h]
    {
      hide Ok;
      HeadsOwned(memory.View());
      for i := 0 to rows
        invariant memory.Valid() && memory.lists == old(memory.lists)
        invariant forall k :: 0 <= k < i ==> buckets[k] in memory.owner && memory.owner[buckets[k]] == buckets[k]
        invariant forall k :: i <= k < rows ==> buckets[k] !in memory.owner
      {
        memory.NewLink(buckets[i]);
      }
      for i := 0 to rows
        invariant memory.Valid()
        invariant forall h :: h in old(memory.lists) ==> h in memory.lists && memory.lists[h] == old(memory.lists)[h]
        invariant forall k :: 0 <= k < rows ==> buckets[k] in memory.owner && memory.owner[buckets[k]] == buckets[k]
        invariant forall k :: 0 <= k < i ==> buckets[k] in memory.lists && memory.lists[buckets[k]] == Ring(offset, [])
        invariant forall k :: i <= k < rows ==> buckets[k] !in memory.lists
      {
        memory.SetOffset(buckets[i], offset);
      }
    }

    /** `Add`: the object goes to the end of the row of its hash value. */
    method Add(node: Address, hashVal: nat)
      requires Valid() && node % 2 == 0 && node != 0
      requires node + offset in memory.owner && node + offset !in memory.lists
      modifies memory
      ensures Valid()
      ensures var h := buckets[hashVal % rows];
        var d := Detached(old(memory.lists), old(memory.owner), node + offset);
        && memory.lists == d[h := Ring(offset, d[h].objs + [node])]
        && memory.owner == old(memory.owner)[node + offset := h]
    {
      hide Ok, LinkWorld.PutBefore;
      var h := buckets[hashVal % rows];
      ghost var w := memory.View();
      HeadsOwned(w);
      StillNotNull(w, h, node + offset);
      PutBeforeNone(Detached(w.lists, w.owner, node + offset)[h].objs, h - offset, node);
      memory.InsertBefore(node + offset, node, h, h);
    }

    /** `Add` of an object alone: it goes to the row of its own hash value, and stays findable there. */
    method AddNode(node: Address)
      requires Valid() && node % 2 == 0 && node != 0
      requires node + offset in memory.owner && node + offset !in memory.lists
      modifies memory
      ensures Valid() && node in Row(nodeHash(node) % rows)
      ensures old(InTheirRows()) ==> InTheirRows()
    {
      hide Ok, RowsOk;
      ghost var lists, owner := memory.lists, memory.owner;
      Add(node, nodeHash(node));
      if RowsOk(lists, buckets, nodeHash) {
        DetachKeepsRows(lists, owner, node + offset, buckets, nodeHash);
      }
      AppendKeepsRows(Detached(lists, owner, node + offset), buckets, nodeHash, node, offset);
    }

    /** `FindInternal`, from position `i` of row `row` on: the first match, or null if there is none. */
    method FindInternal(key: Key, start: Address, ghost row: nat, ghost i: nat) returns (node: Address)
      requires Valid() && row < rows && i <= |Row(row)|
      requires start == if i < |Row(row)| then Row(row)[i] else 0
      ensures node == FirstMatch(Row(row)[i..], key, equals)
    {
      hide Ok;
      node := start;
      ghost var j := i;
      ItemsNotNull(memory.View(), buckets[row]);
      while node != 0
        invariant i <= j <= |Row(row)| && node == if j < |Row(row)| then Row(row)[j] else 0
        invariant FirstMatch(Row(row)[i..], key, equals) == FirstMatch(Row(row)[j..], key, equals)
        decreases |Row(row)| - j
      {
        if equals(key, node) { return; }
        Neighbours(memory.View(), buckets[row], j + 1);
        node := Next(memory, node + offset);
        j := j + 1;
      }
    }

    method Find(key: Key) returns (node: Address)
      requires Valid()
      ensures node == FirstMatch(Row(hashValue(key) % rows), key, equals)
    {
      hide Ok;
      var i := hashValue(key) % rows;
      Neighbours(memory.View(), buckets[i], 0);
      var first := Next(memory, buckets[i]);
      node := FindInternal(key, first, i, 0);
      assert Row(i)[0..] == Row(i);
    }

    /** The next match after an object of a row. */
    method FindNext(key: Key, node: Address, ghost row: nat, ghost i: nat) returns (n: Address)
      requires Valid() && row < rows && i < |Row(row)| && Row(row)[i] == node
      ensures n == FirstMatch(Row(row)[i + 1..], key, equals)
    {
      hide Ok;
      Neighbours(memory.View(), buckets[row], i + 1);
      var after := Next(memory, node + offset);
      n := FindInternal(key, after, row, i + 1);
    }

    method AllRowsEmpty() returns (e: bool)
      requires Valid()
      ensures e <==> forall i: nat :: i < rows ==> Row(i) == []
    {
      hide Ok;
      for i := 0 to rows
        invariant forall k: nat :: k < i ==> Row(k) == []
      {
        Neighbours(memory.View(), buckets[i], 0);
        ItemsNotNull(memory.View(), buckets[i]);
        var node := Next(memory, buckets[i]);
        if node != 0 {
          assert Row(i) != [];
          return false;
        }
      }
      return true;
    }

    /** Every row ends up empty, and no other list changes. */
    method UnlinkAll()
      requires Valid()
      modifies memory
      ensures Valid() && forall i: nat :: i < rows ==> Row(i) == []
      ensures memory.lists.Keys == old(memory.lists).Keys
      ensures forall h :: h in memory.lists && h !in buckets ==> memory.lists[h] == old(memory.lists)[h]
    {
      hide Ok;
      for i := 0 to rows
        invariant Valid() && memory.lists.Keys == old(memory.lists).Keys
        invariant forall k :: 0 <= k < i ==> memory.lists[buckets[k]].objs == []
        invariant forall h :: h in memory.lists && h !in buckets ==> memory.lists[h] == old(memory.lists)[h]
      {
        assert forall k :: 0 <= k < i ==> buckets[k] != buckets[i];
        UnlinkRing(memory, buckets[i]);
      }
    }

    /** When every object is in the row of the keys it equals, `Find` finds one exactly if the table has one. */
    lemma FindDecides(key: Key)
      requires Valid()
      requires forall i: nat, o :: i < rows && o in Row(i) && equals(key, o) ==> i == hashValue(key) % rows
      ensures FirstMatch(Row(hashValue(key) % rows), key, equals) != 0 <==>
        exists i: nat :: i < rows && exists o :: o in Row(i) && equals(key, o)
    {
      hide Ok;
      var i := hashValue(key) % rows;
      ItemsNotNull(memory.View(), buckets[i]);
      MatchFound(Row(i), key, equals);
    }

    /** That is so if the objects are in their rows and a key has the hash value of the objects it equals. */
    lemma InRowOfKey(key: Key)
      requires Valid() && InTheirRows()
      requires forall i: nat, o :: i < rows && o in Row(i) && equals(key, o) ==> nodeHash(o) == hashValue(key)
      ensures forall i: nat, o :: i < rows && o in Row(i) && equals(key, o) ==> i == hashValue(key) % rows
    {
      hide Ok;
      forall i: nat, o | i < rows && o in Row(i) && equals(key, o)
        ensures i == hashValue(key) % rows
      {
        assert InRow(memory.lists, buckets, i, o);
      }
    }
  }

  ghost predicate InRow(lists: map<Address, Ring>, buckets: seq<Address>, i: nat, o: Address) {
    i < |buckets| && buckets[i] in lists && o in lists[buckets[i]].objs
  }

  ghost predicate RowsOk(lists: map<Address, Ring>, buckets: seq<Address>, nodeHash: Address -> nat) {
    forall i: nat, o :: InRow(lists, buckets, i, o) ==> nodeHash(o) % |buckets| == i
  }

  /** Leaving a row, as `Unlink` and every move to another place do, keeps all others in theirs. */
  lemma DetachKeepsRows(
    lists: map<Address, Ring>, owner: map<Address, Address>, l: Address, buckets: seq<Address>,
    nodeHash: Address -> nat)
    requires RowsOk(lists, buckets, nodeHash)
    ensures RowsOk(Detached(lists, owner, l), buckets, nodeHash)
  {
    var after := Detached(lists, owner, l);
    forall i: nat, o | InRow(after, buckets, i, o)
      ensures nodeHash(o) % |buckets| == i
    {
      if l in owner && owner[l] == buckets[i] {
        MinusInside(lists[buckets[i]].objs, l - lists[buckets[i]].off);
      }
      assert InRow(lists, buckets, i, o);
    }
  }

  lemma AppendKeepsRows(
    lists: map<Address, Ring>, buckets: seq<Address>, nodeHash: Address -> nat, node: Address, offset: int)
    requires |buckets| > 0 && (forall i, j :: 0 <= i < j < |buckets| ==> buckets[i] != buckets[j])
    requires var h := buckets[nodeHash(node) % |buckets|]; h in lists
    ensures var h := buckets[nodeHash(node) % |buckets|];
      RowsOk(lists, buckets, nodeHash) ==> RowsOk(lists[h := Ring(offset, lists[h].objs + [node])], buckets, nodeHash)
  {
    var h := buckets[nodeHash(node) % |buckets|];
    var after := lists[h := Ring(offset, lists[h].objs + [node])];
    if RowsOk(lists, buckets, nodeHash) {
      forall i: nat, o | InRow(after, buckets, i, o)
        ensures nodeHash(o) % |buckets| == i
      {
        if buckets[i] != h || o != node {
          assert InRow(lists, buckets, i, o);
        }
      }
    }
  }

  /** The first object of `s` that equals the key, or null. */
  function FirstMatch<Key>(s: seq<Address>, key: Key, equals: (Key, Address) -> bool): Address {
    if s == [] then 0 else if equals(key, s[0]) then s[0] else FirstMatch(s[1..], key, equals)
  }

  /** A match is found exactly when there is one. */
  lemma {:induction false} MatchFound<Key>(s: seq<Address>, key: Key, equals: (Key, Address) -> bool)
    requires 0 !in s
    ensures FirstMatch(s, key, equals) != 0 <==> exists o :: o in s && equals(key, o)
    ensures FirstMatch(s, key, equals) != 0 ==>
      FirstMatch(s, key, equals) in s && equals(key, FirstMatch(s, key, equals))
  {
    if s != [] && !equals(key, s[0]) {
      MatchFound(s[1..], key, equals);
      assert forall o :: o in s <==> o == s[0] || o in s[1..];
    }
  }
}
