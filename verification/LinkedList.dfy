/** The chained lists of rpckeyvaluestore.cpp: singly linked nodes, updated in place. */
module LinkedList {
  import opened Types
  import opened LogText
  import opened Listing

  /** LinkedListNodeObj. The key is copied in when the node is made and never changes; `flag` says
      whether `name` (1) or `value` (0) is meant. */
  class Node {
    const key: Text
    var name: Text
    var value: int64
    var flag: byte
    var next: Node?
    ghost const owner: List

    constructor (key: Text, name: Text, value: int64, flag: byte, ghost owner: List)
      ensures this.key == key && this.name == name && this.value == value && this.flag == flag
      ensures next == null && this.owner == owner
    {
      this.key, this.name, this.value, this.flag := key, name, value, flag;
      next := null;
      this.owner := owner;
    }
  }

  /** What a node's flag, name and value stand for. */
  ghost function Meaning(flag: byte, name: Text, value: int64): Value {
    if flag == 1 then Ref(name) else Num(value)
  }

  /** Following `next` from head visits exactly these nodes. */
  ghost predicate Linked(head: Node?, nodes: seq<Node>)
    reads nodes`next
  {
    && head == (if nodes == [] then null else nodes[0])
    && forall i {:trigger nodes[i].next} | 0 <= i < |nodes| ::
         nodes[i].next == if i + 1 < |nodes| then nodes[i + 1] else null
  }

  lemma LinkedPush(node: Node, nodes: seq<Node>)
    requires Linked(node.next, nodes)
    ensures Linked(node, [node] + nodes)
  {
  }

  lemma LinkedTail(head: Node, nodes: seq<Node>)
    requires nodes != [] && Linked(head, nodes)
    ensures Linked(head.next, RemoveAt(nodes, 0))
  {
  }

  /** The nodes belong to a list and stand, one by one, for these entries. */
  ghost predicate Spells(owner: List, nodes: seq<Node>, entries: seq<Record>)
    reads nodes`name, nodes`value, nodes`flag
  {
    && |entries| == |nodes|
    && (forall i | 0 <= i < |nodes| :: nodes[i].owner == owner && nodes[i].flag <= 1)
    && (forall i | 0 <= i < |nodes| ::
          entries[i] == Put(nodes[i].key, Meaning(nodes[i].flag, nodes[i].name, nodes[i].value)))
  }

  lemma SpellsPush(owner: List, node: Node, nodes: seq<Node>, entries: seq<Record>)
    requires Spells(owner, nodes, entries)
    requires node.owner == owner && node.flag <= 1
    ensures Spells(owner, [node] + nodes, [Put(node.key, Meaning(node.flag, node.name, node.value))] + entries)
  {
  }

  lemma SpellsRemove(owner: List, nodes: seq<Node>, entries: seq<Record>, p: nat)
    requires Spells(owner, nodes, entries) && p < |nodes|
    ensures Spells(owner, RemoveAt(nodes, p), RemoveAt(entries, p))
  {
  }

  lemma DistinctNodes(owner: List, nodes: seq<Node>, entries: seq<Record>, i: nat, j: nat)
    requires Spells(owner, nodes, entries) && IsListing(entries)
    requires i < |nodes| && j < |nodes| && nodes[i] == nodes[j]
    ensures i == j
  {
  }

  /** LinkedListObj. */
  class List {
    var head: Node?
    var numItems: nat
    ghost var nodes: seq<Node>
    ghost var entries: seq<Record>

    /** The nodes from head on are exactly `nodes`, so the list is acyclic; they spell out
        `entries`, whose keys are distinct; and each node belongs to this list alone. */
    ghost predicate Chain()
      reads this, nodes
    {
      && Linked(head, nodes)
      && Spells(this, nodes, entries)
      && IsListing(entries)
    }

    ghost predicate Valid()
      reads this, nodes
    {
      Chain() && numItems == |nodes|
    }

    ghost function Contents(): Variables
      reads this
    {
      AsMap(entries)
    }

    constructor ()
      ensures Valid() && nodes == [] && entries == []
    {
      head, numItems := null, 0;
      nodes, entries := [], [];
    }

    /** find_node: the node that holds the key, at ghost position i. */
    method Find(key: Text) returns (node: Node?, ghost i: nat)
      requires Valid()
      ensures node == null <==> key !in Contents()
      ensures node != null ==> i < |nodes| && node == nodes[i] && node.key == key
      ensures node != null ==> Contents()[key] == Meaning(node.flag, node.name, node.value)
    {
      AsMapEntries(entries);
      node := head;
      i := 0;
      while node != null
        invariant 0 <= i <= |nodes|
        invariant node == if i < |nodes| then nodes[i] else null
        invariant forall j | 0 <= j < i :: entries[j].key != key
        decreases |nodes| - i
      {
        if node.key == key {
          assert entries[i].key == key;
          return;
        }
        node := node.next;
        i := i + 1;
      }
    }

    /** linked_list_insert_item_name. */
    method InsertName(key: Text, name: Text)
      requires Valid()
      modifies this, nodes
      ensures Valid()
      ensures Contents() == old(Contents())[key := Ref(name)]
      ensures forall n | n in nodes :: n in old(nodes) || fresh(n)
    {
      var found, i := Find(key);
      if found != null {
        Overwrite(found, i, name, 0, 1);
        return;
      }
      var node := new Node(key, name, 0, 1, this);
      Push(node);
    }

    /** linked_list_insert_item_value. */
    method InsertValue(key: Text, value: int64)
      requires Valid()
      modifies this, nodes
      ensures Valid()
      ensures Contents() == old(Contents())[key := Num(value)]
      ensures forall n | n in nodes :: n in old(nodes) || fresh(n)
    {
      var found, i := Find(key);
      if found != null {
        Overwrite(found, i, [], value, 0);
        return;
      }
      var node := new Node(key, [], value, 0, this);
      Push(node);
    }

    /** The three assignments to a node that already holds the key. */
    method Overwrite(node: Node, ghost i: nat, name: Text, value: int64, flag: byte)
      requires Valid() && i < |nodes| && node == nodes[i] && flag <= 1
      modifies this`entries, node
      ensures Valid() && nodes == old(nodes)
      ensures Contents() == old(Contents())[node.key := Meaning(flag, name, value)]
    {
      AsMapUpdate(entries, i, Meaning(flag, name, value));
      forall j | 0 <= j < |nodes| && nodes[j] == node
        ensures j == i
      {
        DistinctNodes(this, nodes, entries, i, j);
      }
      hide AsMap, IsListing;
      node.name, node.value, node.flag := name, value, flag;
      entries := entries[i := Put(node.key, Meaning(flag, name, value))];
    }

    /** The tail the two insertions share: a new node becomes the head. */
    method Push(node: Node)
      requires Valid() && node !in nodes && node.owner == this
      requires node.flag <= 1 && node.key !in Contents()
      modifies this, node`next
      ensures Valid()
      ensures nodes == [node] + old(nodes)
      ensures Contents() == old(Contents())[node.key := Meaning(node.flag, node.name, node.value)]
    {
      hide Linked, Spells, IsListing, AsMap;
      ghost var meaning := Meaning(node.flag, node.name, node.value);
      AsMapPush(entries, node.key, meaning);
      SpellsPush(this, node, nodes, entries);
      node.next := head;
      LinkedPush(node, nodes);
      head := node;
      numItems := numItems + 1;
      nodes := [node] + nodes;
      entries := [Put(node.key, meaning)] + entries;
    }

    /** linked_list_delete_item: unlinks the node that holds the key, or reports that none does. */
    method Delete(key: Text) returns (status: byte, ghost p: nat)
      requires Valid()
      modifies this, nodes`next
      ensures Valid()
      ensures status == if key in old(Contents()) then OK else ENOENT
      ensures Contents() == old(Contents()) - {key}
      ensures forall n | n in nodes :: n in old(nodes)
      ensures status == OK ==> p < |old(nodes)| && old(nodes)[p].key == key && nodes == RemoveAt(old(nodes), p)
      ensures status != OK ==> nodes == old(nodes) && entries == old(entries)
    {
      var found, i := Find(key);
      p := i;
      if found == null {
        return ENOENT, i;
      }
      AsMapRemove(entries, p);
      if head.key == key {
        assert p == 0;
        Behead();
      } else {
        Unlink(key, p);
      }
      numItems := numItems - 1;
      return OK, p;
    }

    method Behead()
      requires Chain() && nodes != []
      modifies this`head, this`nodes, this`entries
      ensures Chain()
      ensures nodes == RemoveAt(old(nodes), 0)
      ensures entries == RemoveAt(old(entries), 0)
    {
      SpellsRemove(this, nodes, entries, 0);
      AsMapRemove(entries, 0);
      LinkedTail(head, nodes);
      head := head.next;
      nodes, entries := RemoveAt(nodes, 0), RemoveAt(entries, 0);
    }

    /** The scan past the head. It runs to the end of the list and unlinks every match; the keys
        being distinct, that is the one node at position p. */
    method Unlink(key: Text, ghost p: nat)
      requires Chain() && 1 <= p < |nodes| && nodes[p].key == key
      modifies this`nodes, this`entries, nodes`next
      ensures Chain()
      ensures nodes == RemoveAt(old(nodes), p)
      ensures entries == RemoveAt(old(entries), p)
    {
      ghost var all, allEntries := nodes, entries;
      assert forall i | 0 <= i < |all| && i != p :: allEntries[i].key != key;
      assert forall i | 0 <= i < |all| && i != p :: all[i].key != key;
      assert forall n | n in RemoveAt(all, p) :: n.key != key;
      hide Spells, IsListing;
      ghost var i := 0;
      var node := head;
      while node != null && node.next != null
        invariant Chain() && 0 <= i <= |nodes|
        invariant i < p ==> nodes == all && entries == allEntries
        invariant i >= p ==> nodes == RemoveAt(all, p) && entries == RemoveAt(allEntries, p)
        invariant node == if i < |nodes| then nodes[i] else null
        decreases |nodes| - i
      {
        if node.next.key == key {
          assert node.next == nodes[i + 1];
          UnlinkNext(node, i);
        }
        assert node == nodes[i];
        assert nodes[i].next == if i + 1 < |nodes| then nodes[i + 1] else null;
        node := node.next;
        i := i + 1;
      }
    }

    /** before->next = del_node->next. */
    method UnlinkNext(before: Node, ghost i: nat)
      requires Chain() && i + 1 < |nodes| && before == nodes[i]
      modifies this`nodes, this`entries, before`next
      ensures Chain()
      ensures nodes == RemoveAt(old(nodes), i + 1)
      ensures entries == RemoveAt(old(entries), i + 1)
    {
      SpellsRemove(this, nodes, entries, i + 1);
      AsMapRemove(entries, i + 1);
      forall j | 0 <= j < |nodes| && nodes[j] == before
        ensures j == i
      {
        DistinctNodes(this, nodes, entries, i, j);
      }
      Relink(before, i);
      entries := RemoveAt(entries, i + 1);
    }

    method Relink(before: Node, ghost i: nat)
      requires Linked(head, nodes) && i + 1 < |nodes| && before == nodes[i]
      requires forall j | 0 <= j < |nodes| && nodes[j] == before :: j == i
      modifies this`nodes, before`next
      ensures nodes == RemoveAt(old(nodes), i + 1)
      ensures Linked(head, nodes)
    {
      ghost var all := nodes;
      assert all[i + 1].next == if i + 2 < |all| then all[i + 2] else null;
      before.next := before.next.next;
      nodes := RemoveAt(all, i + 1);
      assert forall j | 0 <= j < |nodes| :: nodes[j] == all[if j <= i then j else j + 1];
    }
  }
}
