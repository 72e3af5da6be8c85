/** The chained hash table of rpckeyvaluestore.cpp, kept equal to a map of variables. */
module KeyValueStore {
  import opened Types
  import opened LogText
  import opened Listing
  import opened LinkedList
  import StoreCalls

  /** Bucket maps make up one map: a key lies in its own bucket or nowhere. */
  ghost predicate Scattered(bucket: Text -> nat, maps: seq<Variables>, m: Variables) {
    && (forall b, k | 0 <= b < |maps| && k in maps[b] :: bucket(k) == b)
    && (forall k | bucket(k) < |maps| :: k in m <==> k in maps[bucket(k)])
    && (forall k | k in m && bucket(k) < |maps| :: m[k] == maps[bucket(k)][k])
  }

  lemma ScatteredInsert(bucket: Text -> nat, maps: seq<Variables>, m: Variables, key: Text, v: Value)
    requires Scattered(bucket, maps, m) && bucket(key) < |maps|
    ensures Scattered(bucket, maps[bucket(key) := maps[bucket(key)][key := v]], m[key := v])
    ensures |m[key := v]| <= |m| + 1
  {
  }

  lemma ScatteredDelete(bucket: Text -> nat, maps: seq<Variables>, m: Variables, key: Text)
    requires Scattered(bucket, maps, m) && bucket(key) < |maps|
    ensures Scattered(bucket, maps[bucket(key) := maps[bucket(key)] - {key}], m - {key})
    ensures |m - {key}| == if key in m then |m| - 1 else |m|
    ensures key in m <==> key in maps[bucket(key)]
  {
    assert (m - {key}).Keys == m.Keys - {key};
  }

  lemma NothingScattered(bucket: Text -> nat, maps: seq<Variables>)
    requires forall b | 0 <= b < |maps| :: maps[b] == map[]
    ensures Scattered(bucket, maps, map[])
  {
  }

  /** The part of a map that lies in the first i buckets. */
  ghost function Upto(bucket: Text -> nat, m: Variables, i: nat): Variables {
    map k | k in m && bucket(k) < i :: m[k]
  }

  /** Listing one bucket after another lists the whole map. */
  lemma ScatteredList(bucket: Text -> nat, maps: seq<Variables>, m: Variables, i: nat, done: seq<Record>, es: seq<Record>)
    requires Scattered(bucket, maps, m) && i < |maps|
    requires IsListing(done) && AsMap(done) == Upto(bucket, m, i)
    requires IsListing(es) && AsMap(es) == maps[i]
    ensures IsListing(done + es) && AsMap(done + es) == Upto(bucket, m, i + 1)
  {
    ListingAppend(done, es);
  }

  /** The loop of create_key_value_store. */
  method MakeLists(size: nat) returns (made: seq<List>)
    ensures |made| == size && fresh(made)
    ensures forall b | 0 <= b < |made| :: made[b].Valid() && made[b].nodes == [] && made[b].Contents() == map[]
    ensures forall a, b | 0 <= a < b < |made| :: made[a] != made[b]
  {
    made := [];
    while |made| < size
      invariant |made| <= size
      invariant fresh(made)
      invariant forall b | 0 <= b < |made| :: made[b].Valid() && made[b].nodes == [] && made[b].entries == []
      invariant forall a, b | 0 <= a < b < |made| :: made[a] != made[b]
    {
      var list := new List();
      made := made + [list];
    }
  }

  class Store {
    var numKeys: nat
    const lists: seq<List>
    /** hash(key, num_lists): any function of the name alone whose results are bucket numbers. */
    const bucket: Text -> nat
    ghost var maps: seq<Variables>
    ghost var contents: Variables
    ghost var Repr: set<object>

    /** Each bucket is a well-formed list of its own, and the lists are different objects. */
    ghost predicate Buckets()
      reads this, Repr
    {
      && this in Repr && |maps| == |lists| > 0
      && (forall k: Text :: bucket(k) < |lists|)
      && (forall b | 0 <= b < |lists| :: lists[b] in Repr && forall n | n in lists[b].nodes :: n in Repr)
      && (forall a, b | 0 <= a < b < |lists| :: lists[a] != lists[b])
      && (forall b | 0 <= b < |lists| :: lists[b].Valid() && lists[b].Contents() == maps[b])
    }

    ghost predicate Valid()
      reads this, Repr
    {
      Buckets() && Scattered(bucket, maps, contents) && |contents| <= numKeys
    }

    constructor (size: nat, bucket: Text -> nat)
      requires size > 0 && forall k: Text :: bucket(k) < size
      ensures Valid() && fresh(Repr) && contents == map[] && numKeys == 0
      ensures |lists| == size && this.bucket == bucket
    {
      hide Listing.IsListing, ApplyAll, AsMap, List.Valid, List.Contents, Scattered;
      var made := MakeLists(size);
      numKeys := 0;
      lists, this.bucket := made, bucket;
      maps := seq(size, _ => map[]);
      contents := map[];
      Repr := {this} + (set l: object | l in made);
      new;
      NothingScattered(bucket, maps);
    }

    /** A list operation on one bucket leaves every other bucket as it was: a node knows its list,
        so no node is in two buckets. */
    twostate lemma OthersKept(b: nat)
      requires old(Buckets()) && b < |lists| && old(maps) == maps
      requires forall o | o in old(Repr) && o != this && o != lists[b] && o !in old(lists[b].nodes) :: unchanged(o)
      ensures forall a | 0 <= a < |lists| && a != b :: unchanged(lists[a])
      ensures forall a | 0 <= a < |lists| && a != b :: lists[a].Valid() && lists[a].Contents() == old(maps[a])
    {
      forall a | 0 <= a < |lists| && a != b
        ensures unchanged(lists[a]) && lists[a].Valid() && lists[a].Contents() == old(maps[a])
      {
        assert forall n | n in old(lists[a].nodes) :: n.owner == lists[a];
        assert forall n | n in old(lists[b].nodes) :: n.owner == lists[b];
        assert unchanged(lists[a]);
        assert forall n | n in old(lists[a].nodes) :: unchanged(n);
      }
    }

    twostate lemma BucketKept(list: List)
      requires old(list.Valid()) && unchanged(list) && unchanged(list.nodes)
      ensures list.Valid() && list.Contents() == old(list.Contents())
    {
    }

    /** The list of bucket b is well-formed and stands for m, all other buckets are as `maps` says. */
    ghost predicate Ready(b: nat, m: Variables)
      requires b < |lists|
      reads this, Repr, lists[b], lists[b].nodes
    {
      && |lists| == |maps| && this in Repr && (forall k: Text :: bucket(k) < |lists|)
      && (forall a | 0 <= a < |lists| :: lists[a] in Repr)
      && (forall a, c | 0 <= a < c < |lists| :: lists[a] != lists[c])
      && (forall a, n | 0 <= a < |lists| && a != b && n in lists[a].nodes :: n in Repr)
      && (forall a | 0 <= a < |lists| && a != b :: lists[a].Valid() && lists[a].Contents() == maps[a])
      && lists[b].Valid() && lists[b].Contents() == m
    }

    /** After a list operation on bucket b. */
    twostate lemma BucketChanged(b: nat)
      requires old(Buckets()) && b < |lists| && old(maps) == maps && old(Repr) == Repr
      requires forall o | o in old(Repr) && o != this && o != lists[b] && o !in old(lists[b].nodes) :: unchanged(o)
      requires lists[b].Valid()
      ensures Ready(b, lists[b].Contents())
      ensures forall a | 0 <= a < |lists| && a != b :: lists[a].nodes == old(lists[a].nodes)
    {
      hide List.Valid, List.Contents;
      OthersKept(b);
    }

    method KeyCheck(key: Option<Text>) returns (status: byte)
      requires Valid()
      ensures status == StoreCalls.KeyCheck(contents, key)
    {
      if key.None? {
        return ENOENT;
      }
      var node, _ := lists[bucket(key.value)].Find(key.value);
      return if node == null then ENOENT else OK;
    }

    method FlagLookup(key: Option<Text>) returns (flag: byte)
      requires Valid()
      ensures flag == StoreCalls.FlagLookup(contents, key)
    {
      if key.None? {
        return ENOENT;
      }
      var node, _ := lists[bucket(key.value)].Find(key.value);
      if node == null {
        return ENOENT;
      }
      return node.flag;
    }

    method ValueLookup(key: Option<Text>) returns (value: int64)
      requires Valid()
      ensures value == StoreCalls.ValueLookup(contents, key)
    {
      if key.None? {
        return ENOENT;
      }
      var node, _ := lists[bucket(key.value)].Find(key.value);
      if node == null {
        return ENOENT;
      }
      if node.flag == 1 {
        return EFAULT;
      }
      return node.value;
    }

    method NameLookup(key: Option<Text>) returns (name: Option<Text>)
      requires Valid()
      ensures name == StoreCalls.NameLookup(contents, key)
    {
      if key.None? {
        return None;
      }
      var node, _ := lists[bucket(key.value)].Find(key.value);
      if node == null {
        return None;
      }
      if node.flag == 0 {
        return None;
      }
      return Some(node.name);
    }

    method InsertName(key: Option<Text>, name: Text) returns (status: byte)
      requires Valid()
      modifies Repr
      ensures Valid() && fresh(Repr - old(Repr))
      ensures status == if key.None? then ENOENT else OK
      ensures contents == if key.None? then old(contents) else old(contents)[key.value := Ref(name)]
    {
      if key.None? {
        return ENOENT;
      }
      InsertInBucket(key.value, Ref(name));
      return OK;
    }

    method InsertValue(key: Option<Text>, value: int64) returns (status: byte)
      requires Valid()
      modifies Repr
      ensures Valid() && fresh(Repr - old(Repr))
      ensures status == if key.None? then ENOENT else OK
      ensures contents == if key.None? then old(contents) else old(contents)[key.value := Num(value)]
    {
      if key.None? {
        return ENOENT;
      }
      InsertInBucket(key.value, Num(value));
      return OK;
    }

    /** The bookkeeping after an operation on the list of bucket b. */
    ghost method Account(b: nat, m: Variables, all: Variables)
      requires b < |lists| && Ready(b, m)
      modifies this`maps, this`contents, this`Repr
      ensures Buckets() && maps == old(maps)[b := m] && contents == all
      ensures Repr == old(Repr) + set n: object | n in lists[b].nodes
    {
      hide List.Valid, List.Contents;
      maps, contents := maps[b := m], all;
      Repr := Repr + set n: object | n in lists[b].nodes;
      forall a | 0 <= a < |lists|
        ensures lists[a].Valid() && lists[a].Contents() == maps[a]
      {
        BucketKept(lists[a]);
      }
    }

    /** The common part of the two insertions: the list operation and num_keys++, which also counts
        overwrites. */
    method InsertInBucket(key: Text, v: Value)
      requires Valid()
      modifies Repr
      ensures Valid() && fresh(Repr - old(Repr))
      ensures contents == old(contents)[key := v]
      ensures numKeys == old(numKeys) + 1
    {
      hide List.Valid, List.Contents, Scattered, Ready;
      var b := bucket(key);
      ghost var m, all := maps[b][key := v], contents[key := v];
      ScatteredInsert(bucket, maps, contents, key, v);
      if v.Ref? {
        lists[b].InsertName(key, v.target);
      } else {
        lists[b].InsertValue(key, v.n);
      }
      numKeys := numKeys + 1;
      BucketChanged(b);
      Account(b, m, all);
    }

    /** key_value_store_delete_key. The decrement of num_keys never goes below zero. */
    method DeleteKey(key: Option<Text>) returns (status: byte)
      requires Valid()
      modifies Repr
      ensures Valid() && fresh(Repr - old(Repr))
      ensures status == StoreCalls.KeyCheck(old(contents), key)
      ensures contents == if key.None? then old(contents) else old(contents) - {key.value}
      ensures numKeys == if status == OK then old(numKeys) - 1 else old(numKeys)
    {
      if key.None? {
        return ENOENT;
      }
      ghost var p;
      status, p := DeleteFromBucket(key.value);
    }

    method DeleteFromBucket(key: Text) returns (status: byte, ghost p: nat)
      requires Valid()
      modifies Repr
      ensures Valid() && fresh(Repr - old(Repr))
      ensures status == StoreCalls.KeyCheck(old(contents), Some(key))
      ensures contents == old(contents) - {key}
      ensures numKeys == if status == OK then old(numKeys) - 1 else old(numKeys)
      ensures forall a | 0 <= a < |lists| && a != bucket(key) :: lists[a].nodes == old(lists[a].nodes)
      ensures status == OK ==> var before := old(lists[bucket(key)].nodes);
                p < |before| && before[p].key == key && lists[bucket(key)].nodes == RemoveAt(before, p)
    {
      hide List.Valid, List.Contents, Scattered, RemoveAt, Ready;
      var b := bucket(key);
      ghost var m, all := maps[b] - {key}, contents - {key};
      ScatteredDelete(bucket, maps, contents, key);
      status, p := lists[b].Delete(key);
      if status == OK {
        numKeys := numKeys - 1;
      }
      BucketChanged(b);
      Account(b, m, all);
    }

    /** The loops of dump_key_value_store and log_key_value_store: one line for each node, bucket by
        bucket. What is printed lists the whole map, each variable once. */
    method Dump() returns (text: Text)
      requires Valid()
      ensures IsDump(text, contents)
    {
      hide Valid, Buckets, Scattered, List.Valid, AsMap, IsListing, Print;
      text := [];
      ghost var records: seq<Record> := [];
      DumpBegins();
      var i := 0;
      while i < |lists|
        invariant 0 <= i <= |lists|
        invariant text == Print(records)
        invariant IsListing(records) && AsMap(records) == Upto(bucket, contents, i)
      {
        BucketListing(i);
        var part := DumpList(lists[i]);
        PrintConcat(records, lists[i].entries);
        ScatteredList(bucket, maps, contents, i, records, lists[i].entries);
        text, records := text + part, records + lists[i].entries;
        i := i + 1;
      }
      assert Upto(bucket, contents, |lists|) == contents;
    }

    lemma DumpBegins()
      requires Valid()
      ensures IsListing([]) && AsMap([]) == Upto(bucket, contents, 0) && Print([]) == []
      ensures forall k: Text :: bucket(k) < |lists|
    {
    }

    lemma BucketListing(i: nat)
      requires Valid() && i < |lists|
      ensures |maps| == |lists| && Scattered(bucket, maps, contents)
      ensures lists[i].Valid() && IsListing(lists[i].entries) && AsMap(lists[i].entries) == maps[i]
    {
    }

    method DumpList(list: List) returns (text: Text)
      requires list.Valid()
      ensures text == Print(list.entries)
    {
      text := [];
      var node := list.head;
      ghost var i := 0;
      while node != null
        invariant 0 <= i <= |list.nodes|
        invariant node == if i < |list.nodes| then list.nodes[i] else null
        invariant text == Print(list.entries[..i])
        decreases |list.nodes| - i
      {
        var record := if node.flag == 1 then Put(node.key, Ref(node.name)) else Put(node.key, Num(node.value));
        assert list.entries[i] == record;
        PrintConcat(list.entries[..i], [record]);
        assert list.entries[..i + 1] == list.entries[..i] + [record];
        assert Print([record]) == PrintRecord(record);
        text := text + PrintRecord(record);
        node := node.next;
        i := i + 1;
      }
      assert list.entries[..i] == list.entries;
    }

    /** load_log and load_key_value_store: scan a line, check its two fields, apply it. The two
        buffers are not initialised, so what they hold at first is a parameter. */
    method Load(text: Text, junkKey: Text, junkWord: Text) returns (status: byte)
      requires Valid() && LogText.Load(text, junkKey, junkWord, contents) != Overrun
      modifies Repr
      ensures Valid() && fresh(Repr - old(Repr))
      ensures match LogText.Load(text, junkKey, junkWord, old(contents))
              case Complete(m) => status == OK && contents == m
              case Refused(m) => status == EINVAL && contents == m
              case Overrun => false
    {
      hide Valid;
      var rest, key, word := text, junkKey, junkWord;
      while true
        invariant Valid() && fresh(Repr - old(Repr))
        invariant LogText.Load(rest, key, word, contents) == LogText.Load(text, junkKey, junkWord, old(contents))
        decreases |rest|, |key|
      {
        match Fscanf(rest, key, word)
        case Eof =>
          return OK;
        case Scanned(k, w, unread) =>
          status := LoadLine(CString(k), CString(w));
          if status != OK {
            return;
          }
          rest, key, word := unread, [], [];
      }
    }

    /** The body of the loading loop for one line. */
    method LoadLine(key: Text, word: Text) returns (status: byte)
      requires Valid() && |key| <= 31 && |word| <= 31
      modifies Repr
      ensures Valid() && fresh(Repr - old(Repr))
      ensures match Decode(key, word)
              case None => status == EINVAL && contents == old(contents)
              case Some(r) => status == OK && contents == ApplyRecord(old(contents), r)
    {
      hide Valid, Strtol;
      var ok := CheckKey(key);
      if !ok {
        return EINVAL;
      }
      var number := IsNumber(word);
      if number {
        var _ := InsertValue(Some(key), Strtol(word));
      } else {
        ok := CheckWord(key, word);
        if !ok {
          return EINVAL;
        }
        if word[0] == TILDE {
          var _ := DeleteKey(Some(key));
        } else {
          var _ := InsertName(Some(key), word);
        }
      }
      return OK;
    }

    /** clear_key_value_store: delete every visited node by its key. */
    method Clear()
      requires Valid()
      modifies Repr
      ensures Valid() && fresh(Repr - old(Repr))
      ensures contents == map[]
      ensures forall b | 0 <= b < |lists| :: lists[b].head == null && lists[b].numItems == 0
    {
      hide Valid;
      var i := 0;
      while i < |lists|
        invariant Valid() && fresh(Repr - old(Repr))
        invariant 0 <= i <= |lists|
        invariant forall b | 0 <= b < i :: lists[b].nodes == []
      {
        ClearBucket(i);
        i := i + 1;
      }
      AllEmpty();
    }

    lemma AllEmpty()
      requires Valid() && forall b | 0 <= b < |lists| :: lists[b].nodes == []
      ensures contents == map[]
      ensures forall b | 0 <= b < |lists| :: lists[b].head == null && lists[b].numItems == 0
    {
    }

    /** The walk over one bucket. The node it stands on is always the head of the list that the
        delete works on; `next` is read before the node is unlinked. */
    method ClearBucket(i: nat)
      requires Valid() && i < |lists|
      modifies Repr
      ensures Valid() && fresh(Repr - old(Repr))
      ensures lists[i].nodes == []
      ensures forall b | 0 <= b < |lists| && b != i :: lists[b].nodes == old(lists[b].nodes)
    {
      hide Valid, Buckets;
      HeadOf(i);
      var list := lists[i];
      var node := list.head;
      while node != null
        invariant Valid() && fresh(Repr - old(Repr))
        invariant node == list.head == if list.nodes == [] then null else list.nodes[0]
        invariant forall b | 0 <= b < |lists| && b != i :: lists[b].nodes == old(lists[b].nodes)
        decreases |list.nodes|
      {
        var key, next := node.key, node.next;
        HeadKey(i);
        var _, p := DeleteFromBucket(key);
        assert p == 0;
        HeadOf(i);
        node := next;
      }
    }

    lemma HeadOf(i: nat)
      requires Valid() && i < |lists|
      ensures lists[i].head == if lists[i].nodes == [] then null else lists[i].nodes[0]
    {
    }

    /** The head of a bucket holds a key of that bucket, no other node of it holds the same key, and
        its successor is the second node. */
    lemma HeadKey(i: nat)
      requires Valid() && i < |lists| && lists[i].nodes != []
      ensures var list := lists[i];
              && list.head == list.nodes[0] && list.head.key in contents && bucket(list.head.key) == i
              && (forall p | 0 < p < |list.nodes| :: list.nodes[p].key != list.head.key)
              && list.head.next == if |list.nodes| > 1 then list.nodes[1] else null
    {
      var list := lists[i];
      AsMapEntries(list.entries);
      assert list.entries[0].key in list.Contents();
      assert list.nodes[0].next == if 1 < |list.nodes| then list.nodes[1] else null;
      assert forall p | 0 < p < |list.nodes| :: list.entries[p].key != list.entries[0].key;
    }
  }
}
