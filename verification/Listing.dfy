/** Association lists with distinct keys - what a bucket's nodes, a bucket array and a dump all
    are - and the map they stand for. */
module Listing {
  import opened Types
  import opened LogText

  ghost predicate IsListing(es: seq<Record>) {
    && (forall i | 0 <= i < |es| :: es[i].Put?)
    && (forall i, j | 0 <= i < j < |es| :: es[i].key != es[j].key)
  }

  /** The map a list of entries builds up from nothing. */
  ghost function AsMap(es: seq<Record>): Variables {
    ApplyAll(map[], es)
  }

  /** A dump of a map: its variables in some order, one line each. */
  ghost predicate IsDump(text: Text, m: Variables) {
    exists records :: IsListing(records) && AsMap(records) == m && text == Print(records)
  }

  ghost function RemoveAt<T>(s: seq<T>, p: nat): seq<T>
    requires p < |s|
  {
    s[..p] + s[p + 1..]
  }

  ghost predicate HasKey(es: seq<Record>, k: Text) {
    exists i :: 0 <= i < |es| && es[i].key == k
  }

  /** Entries with distinct keys override a map, in whatever order they are applied. */
  lemma {:induction false} ApplyListing(m: Variables, es: seq<Record>)
    requires IsListing(es)
    ensures forall k :: k in ApplyAll(m, es) <==> k in m || HasKey(es, k)
    ensures forall i | 0 <= i < |es| :: es[i].key in ApplyAll(m, es) && ApplyAll(m, es)[es[i].key] == es[i].value
    ensures forall k | k in m && !HasKey(es, k) :: ApplyAll(m, es)[k] == m[k]
    decreases |es|
  {
    if es != [] {
      var m', rest := ApplyRecord(m, es[0]), es[1..];
      ApplyListing(m', rest);
      assert forall i | 0 <= i < |rest| :: rest[i] == es[i + 1];
      forall k
        ensures HasKey(es, k) <==> k == es[0].key || HasKey(rest, k)
      {
        if HasKey(es, k) && k != es[0].key {
          var i :| 0 <= i < |es| && es[i].key == k;
          assert rest[i - 1].key == k;
        }
        if HasKey(rest, k) {
          var i :| 0 <= i < |rest| && rest[i].key == k;
          assert es[i + 1].key == k;
        }
      }
      assert !HasKey(rest, es[0].key);
      forall i | 0 <= i < |es|
        ensures es[i].key in ApplyAll(m, es) && ApplyAll(m, es)[es[i].key] == es[i].value
      {
        if i > 0 {
          assert rest[i - 1] == es[i];
        }
      }
    }
  }

  lemma AsMapEntries(es: seq<Record>)
    requires IsListing(es)
    ensures forall k :: k in AsMap(es) <==> HasKey(es, k)
    ensures forall i | 0 <= i < |es| :: es[i].key in AsMap(es) && AsMap(es)[es[i].key] == es[i].value
  {
    ApplyListing(map[], es);
  }

  /** Applying a listing to a map is overriding the map by the one the listing stands for. */
  lemma ApplyOverrides(m: Variables, es: seq<Record>)
    requires IsListing(es)
    ensures ApplyAll(m, es) == m + AsMap(es)
  {
    ApplyListing(m, es);
    AsMapEntries(es);
  }

  lemma AsMapPush(es: seq<Record>, k: Text, v: Value)
    requires IsListing(es) && k !in AsMap(es)
    ensures IsListing([Put(k, v)] + es)
    ensures AsMap([Put(k, v)] + es) == AsMap(es)[k := v]
  {
    AsMapEntries(es);
    var es' := [Put(k, v)] + es;
    forall i | 0 <= i < |es|
      ensures es[i].key != k
    {
      assert HasKey(es, es[i].key);
    }
    assert es'[1..] == es;
    assert AsMap(es') == ApplyAll(map[k := v], es);
    ApplyOverrides(map[k := v], es);
  }

  /** The map of a listing is the only one that has its entries and no other key. */
  lemma AsMapUnique(es: seq<Record>, m: Variables)
    requires IsListing(es)
    requires forall i | 0 <= i < |es| :: es[i].key in m && m[es[i].key] == es[i].value
    requires forall k | k in m :: HasKey(es, k)
    ensures AsMap(es) == m
  {
    AsMapEntries(es);
    forall k | k in m
      ensures k in AsMap(es) && AsMap(es)[k] == m[k]
    {
      var i :| 0 <= i < |es| && es[i].key == k;
    }
    assert forall k | k in AsMap(es) :: HasKey(es, k);
    assert AsMap(es).Keys == m.Keys;
  }

  lemma AsMapUpdate(es: seq<Record>, p: nat, v: Value)
    requires IsListing(es) && p < |es|
    ensures IsListing(es[p := Put(es[p].key, v)])
    ensures AsMap(es[p := Put(es[p].key, v)]) == AsMap(es)[es[p].key := v]
  {
    var es' := es[p := Put(es[p].key, v)];
    var m := AsMap(es)[es[p].key := v];
    AsMapEntries(es);
    assert forall i | 0 <= i < |es| :: es'[i].key == es[i].key;
    forall k | k in m
      ensures HasKey(es', k)
    {
      if k != es[p].key {
        var i :| 0 <= i < |es| && es[i].key == k;
        assert es'[i].key == k;
      } else {
        assert es'[p].key == k;
      }
    }
    AsMapUnique(es', m);
  }

  lemma RemoveAtKeys(es: seq<Record>, p: nat, k: Text)
    requires p < |es| && HasKey(es, k) && k != es[p].key
    ensures HasKey(RemoveAt(es, p), k)
  {
    var i :| 0 <= i < |es| && es[i].key == k;
    assert RemoveAt(es, p)[if i < p then i else i - 1].key == k;
  }

  lemma RemoveAtListing(es: seq<Record>, p: nat)
    requires IsListing(es) && p < |es|
    ensures IsListing(RemoveAt(es, p))
    ensures forall i | 0 <= i < |es| - 1 :: RemoveAt(es, p)[i] == es[if i < p then i else i + 1]
    ensures forall r | r in RemoveAt(es, p) :: r in es && r.key != es[p].key
  {
  }

  lemma AsMapRemove(es: seq<Record>, p: nat)
    requires IsListing(es) && p < |es|
    ensures IsListing(RemoveAt(es, p))
    ensures AsMap(RemoveAt(es, p)) == AsMap(es) - {es[p].key}
  {
    var m := AsMap(es) - {es[p].key};
    AsMapEntries(es);
    RemoveAtListing(es, p);
    hide AsMap, RemoveAt;
    forall k | k in m
      ensures HasKey(RemoveAt(es, p), k)
    {
      RemoveAtKeys(es, p, k);
    }
    AsMapUnique(RemoveAt(es, p), m);
  }

  lemma ListingAppend(a: seq<Record>, b: seq<Record>)
    requires IsListing(a) && IsListing(b) && AsMap(a).Keys !! AsMap(b).Keys
    ensures IsListing(a + b)
    ensures AsMap(a + b) == AsMap(a) + AsMap(b)
  {
    AsMapEntries(a);
    AsMapEntries(b);
    forall i, j | 0 <= i < |a| && 0 <= j < |b|
      ensures a[i].key != b[j].key
    {
      assert a[i].key in AsMap(a) && b[j].key in AsMap(b);
    }
    ApplyConcat(map[], a, b);
    ApplyOverrides(AsMap(a), b);
  }
}
