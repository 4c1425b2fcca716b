/** A map that remembers insertion order, as a list with one entry per key. */
module OrderedMap {
  import opened KernelEvents

  predicate HasKey<T>(entries: seq<T>, keyOf: T -> string, key: string) {
    exists k :: 0 <= k < |entries| && keyOf(entries[k]) == key
  }

  ghost predicate DistinctKeys<T>(entries: seq<T>, keyOf: T -> string) {
    forall a, b :: 0 <= a < b < |entries| ==> keyOf(entries[a]) != keyOf(entries[b])
  }

  /** Setting a key: a known key keeps its place and takes the new value, a new one goes to the end. */
  function Put<T>(entries: seq<T>, keyOf: T -> string, x: T): (r: seq<T>) {
    if entries == [] then [x]
    else if keyOf(entries[0]) == keyOf(x) then [x] + entries[1..]
    else [entries[0]] + Put(entries[1..], keyOf, x)
  }

  function FromList<T>(items: seq<T>, keyOf: T -> string): (r: seq<T>) {
    if items == [] then [] else Put(FromList(items[..|items| - 1], keyOf), keyOf, items[|items| - 1])
  }

  function Find<T>(entries: seq<T>, keyOf: T -> string, key: string): (r: Option<T>)
    ensures r.Some? <==> HasKey(entries, keyOf, key)
    ensures r.Some? ==> r.value in entries && keyOf(r.value) == key
  {
    if entries == [] then None
    else if keyOf(entries[0]) == key then Some(entries[0])
    else
      assert forall k :: 0 < k < |entries| ==> entries[k] == entries[1..][k - 1];
      Find(entries[1..], keyOf, key)
  }

  lemma {:induction false} PutFind<T>(entries: seq<T>, keyOf: T -> string, x: T, key: string)
    ensures Find(Put(entries, keyOf, x), keyOf, key) == if key == keyOf(x) then Some(x) else Find(entries, keyOf, key)
  {
    if entries != [] && keyOf(entries[0]) != keyOf(x) {
      PutFind(entries[1..], keyOf, x, key);
      assert ([entries[0]] + Put(entries[1..], keyOf, x))[1..] == Put(entries[1..], keyOf, x);
    } else if entries != [] {
      assert ([x] + entries[1..])[1..] == entries[1..];
    }
  }

  lemma HasKeyOfTail<T>(entries: seq<T>, keyOf: T -> string, key: string)
    requires entries != [] && HasKey(entries[1..], keyOf, key)
    ensures HasKey(entries, keyOf, key)
    ensures DistinctKeys(entries, keyOf) ==> key != keyOf(entries[0])
  {
    var m :| 0 <= m < |entries| - 1 && keyOf(entries[1..][m]) == key;
    assert keyOf(entries[m + 1]) == key;
  }

  lemma {:induction false} PutDistinct<T>(entries: seq<T>, keyOf: T -> string, x: T)
    requires DistinctKeys(entries, keyOf)
    ensures DistinctKeys(Put(entries, keyOf, x), keyOf)
  {
    if entries != [] && keyOf(entries[0]) != keyOf(x) {
      var rest := Put(entries[1..], keyOf, x);
      PutDistinct(entries[1..], keyOf, x);
      forall k | 0 <= k < |rest|
        ensures keyOf(rest[k]) != keyOf(entries[0])
      {
        PutFind(entries[1..], keyOf, x, keyOf(rest[k]));
        assert HasKey(rest, keyOf, keyOf(rest[k]));
        if keyOf(rest[k]) != keyOf(x) {
          HasKeyOfTail(entries, keyOf, keyOf(rest[k]));
        }
      }
    }
  }

  lemma {:induction false} PutNew<T>(entries: seq<T>, keyOf: T -> string, x: T)
    requires !HasKey(entries, keyOf, keyOf(x))
    ensures Put(entries, keyOf, x) == entries + [x]
  {
    if entries != [] {
      assert keyOf(entries[0]) != keyOf(x);
      if HasKey(entries[1..], keyOf, keyOf(x)) {
        HasKeyOfTail(entries, keyOf, keyOf(x));
      }
      PutNew(entries[1..], keyOf, x);
    }
  }

  /** One entry per key. */
  lemma {:induction false} FromListDistinct<T>(items: seq<T>, keyOf: T -> string)
    ensures DistinctKeys(FromList(items, keyOf), keyOf)
  {
    if items != [] {
      FromListDistinct(items[..|items| - 1], keyOf);
      PutDistinct(FromList(items[..|items| - 1], keyOf), keyOf, items[|items| - 1]);
    }
  }

  /** The entry of a key is the last item given for it. */
  lemma {:induction false} FromListLast<T>(items: seq<T>, keyOf: T -> string, k: nat)
    requires k < |items| && forall m :: k < m < |items| ==> keyOf(items[m]) != keyOf(items[k])
    ensures Find(FromList(items, keyOf), keyOf, keyOf(items[k])) == Some(items[k])
  {
    var n := |items| - 1;
    PutFind(FromList(items[..n], keyOf), keyOf, items[n], keyOf(items[k]));
    if k < n {
      FromListLast(items[..n], keyOf, k);
    }
  }

  lemma {:induction false} FromListKeys<T>(items: seq<T>, keyOf: T -> string, key: string)
    ensures HasKey(FromList(items, keyOf), keyOf, key) <==> HasKey(items, keyOf, key)
  {
    if items != [] {
      var n := |items| - 1;
      FromListKeys(items[..n], keyOf, key);
      PutFind(FromList(items[..n], keyOf), keyOf, items[n], key);
      assert HasKey(items, keyOf, key) <==> HasKey(items[..n], keyOf, key) || keyOf(items[n]) == key;
    }
  }

  function KeysOf<T>(entries: seq<T>, keyOf: T -> string): (keys: seq<string>)
    ensures |keys| == |entries| && forall k :: 0 <= k < |entries| ==> keys[k] == keyOf(entries[k])
  {
    seq(|entries|, k requires 0 <= k < |entries| => keyOf(entries[k]))
  }

  lemma KeysOfCons<T>(entries: seq<T>, keyOf: T -> string)
    requires entries != []
    ensures KeysOf(entries, keyOf) == [keyOf(entries[0])] + KeysOf(entries[1..], keyOf)
  {
  }

  lemma KeyInTail<T>(entries: seq<T>, keyOf: T -> string, key: string)
    requires entries != [] && keyOf(entries[0]) != key
    ensures HasKey(entries, keyOf, key) <==> HasKey(entries[1..], keyOf, key)
  {
    if HasKey(entries[1..], keyOf, key) {
      HasKeyOfTail(entries, keyOf, key);
    }
    if HasKey(entries, keyOf, key) {
      var k :| 0 <= k < |entries| && keyOf(entries[k]) == key;
      assert entries[1..][k - 1] == entries[k];
    }
  }

  /** A known key keeps its place, a new one goes behind the others. */
  lemma {:induction false} PutKeepsPlaces<T>(entries: seq<T>, keyOf: T -> string, x: T)
    ensures KeysOf(Put(entries, keyOf, x), keyOf)
         == KeysOf(entries, keyOf) + if HasKey(entries, keyOf, keyOf(x)) then [] else [keyOf(x)]
  {
    if entries != [] && keyOf(entries[0]) != keyOf(x) {
      PutKeepsPlaces(entries[1..], keyOf, x);
      KeysOfCons(entries, keyOf);
      KeysOfCons(Put(entries, keyOf, x), keyOf);
      assert Put(entries, keyOf, x)[1..] == Put(entries[1..], keyOf, x);
      KeyInTail(entries, keyOf, keyOf(x));
    } else if entries != [] {
      assert keyOf(entries[0]) == keyOf(x);
    }
  }

  /** The entries after one more item: the same keys in the same places, and perhaps a new one behind. */
  lemma PutPlaces<T>(entries: seq<T>, keyOf: T -> string, x: T, k: nat)
    requires k < |Put(entries, keyOf, x)|
    ensures k < |entries| ==> keyOf(Put(entries, keyOf, x)[k]) == keyOf(entries[k])
    ensures k >= |entries| ==>
              k == |entries| && keyOf(Put(entries, keyOf, x)[k]) == keyOf(x) && !HasKey(entries, keyOf, keyOf(x))
  {
    var keys := KeysOf(Put(entries, keyOf, x), keyOf);
    PutKeepsPlaces(entries, keyOf, x);
    assert keys[k] == keyOf(Put(entries, keyOf, x)[k]);
  }

  lemma ItemOfEntry<T>(items: seq<T>, keyOf: T -> string, a: nat) returns (i: nat)
    requires a < |FromList(items, keyOf)|
    ensures i < |items| && keyOf(items[i]) == keyOf(FromList(items, keyOf)[a])
  {
    var key := keyOf(FromList(items, keyOf)[a]);
    FromListKeys(items, keyOf, key);
    assert HasKey(FromList(items, keyOf), keyOf, key);
    i :| 0 <= i < |items| && keyOf(items[i]) == key;
  }

  /** Of two entries the first is the one whose key was given first. */
  lemma {:induction false} FromListByFirst<T>(items: seq<T>, keyOf: T -> string, a: nat, b: nat) returns (i: nat)
    requires a < b < |FromList(items, keyOf)|
    ensures i < |items| && keyOf(items[i]) == keyOf(FromList(items, keyOf)[a])
    ensures forall m :: 0 <= m <= i ==> keyOf(items[m]) != keyOf(FromList(items, keyOf)[b])
  {
    var front, x := items[..|items| - 1], items[|items| - 1];
    PutPlaces(FromList(front, keyOf), keyOf, x, a);
    PutPlaces(FromList(front, keyOf), keyOf, x, b);
    if b < |FromList(front, keyOf)| {
      i := FromListByFirst(front, keyOf, a, b);
    } else {
      i := ItemOfEntry(front, keyOf, a);
      NotAmong(front, keyOf, keyOf(x));
    }
    assert forall m :: 0 <= m < |front| ==> front[m] == items[m];
  }

  lemma NotAmong<T>(items: seq<T>, keyOf: T -> string, key: string)
    requires !HasKey(FromList(items, keyOf), keyOf, key)
    ensures forall m :: 0 <= m < |items| ==> keyOf(items[m]) != key
  {
    FromListKeys(items, keyOf, key);
  }

  lemma {:induction false} FromListFixed<T>(items: seq<T>, keyOf: T -> string)
    requires DistinctKeys(items, keyOf)
    ensures FromList(items, keyOf) == items
  {
    if items != [] {
      var n := |items| - 1;
      FromListFixed(items[..n], keyOf);
      PutNew(items[..n], keyOf, items[n]);
    }
  }

  /** With distinct keys, an entry is what its key finds. */
  lemma {:induction false} FindEntry<T>(entries: seq<T>, keyOf: T -> string, k: nat)
    requires DistinctKeys(entries, keyOf) && k < |entries|
    ensures Find(entries, keyOf, keyOf(entries[k])) == Some(entries[k])
  {
    if k > 0 {
      assert keyOf(entries[0]) != keyOf(entries[k]);
      assert entries[1..][k - 1] == entries[k];
      FindEntry(entries[1..], keyOf, k - 1);
    }
  }

  /** Every entry is the last item given for its key. */
  lemma {:induction false} EntryIsLast<T>(items: seq<T>, keyOf: T -> string, x: T) returns (k: nat)
    requires x in FromList(items, keyOf)
    ensures k < |items| && items[k] == x && forall m :: k < m < |items| ==> keyOf(items[m]) != keyOf(x)
  {
    var entries := FromList(items, keyOf);
    var i :| 0 <= i < |entries| && entries[i] == x;
    FromListDistinct(items, keyOf);
    FindEntry(entries, keyOf, i);
    FromListKeys(items, keyOf, keyOf(x));
    assert HasKey(items, keyOf, keyOf(x));
    k := LastWithKey(items, keyOf, keyOf(x));
    FromListLast(items, keyOf, k);
  }

  lemma {:induction false} LastWithKey<T>(items: seq<T>, keyOf: T -> string, key: string) returns (k: nat)
    requires HasKey(items, keyOf, key)
    ensures k < |items| && keyOf(items[k]) == key && forall m :: k < m < |items| ==> keyOf(items[m]) != key
  {
    var n := |items| - 1;
    if keyOf(items[n]) == key {
      k := n;
    } else {
      k := LastWithKey(items[..n], keyOf, key);
    }
  }
}
