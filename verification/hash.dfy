/** The self-expanding hash table (lib/hash.cc): an index that agrees with a plain map. */
module HashTables {
  import opened Common
  import opened Lists

  const INITIAL_BUCKETS := 4
  const RESIZE_RATIO := 3
  const INCREASE_SIZE_BY := 4

  /** The key of an item and the hash of a key. */
  datatype Scheme<!Key, !T> = Scheme(getKey: T -> Key, hash: Key -> nat)

  /** HashValue: the bucket that would contain `key`. */
  function Home<Key, T>(s: Scheme<Key, T>, key: Key, numBuckets: nat): (r: nat)
    requires numBuckets > 0
    ensures r < numBuckets
  {
    s.hash(key) % numBuckets
  }

  type Buckets<T> = seq<seq<T>>

  /** Every item in a bucket is the table's item for its key, in the right bucket. */
  ghost predicate InPlace<Key, T>(s: Scheme<Key, T>, bs: Buckets<T>, table: map<Key, T>, i: nat, item: T)
    requires |bs| > 0
  {
    var key := s.getKey(item); Home(s, key, |bs|) == i && key in table && table[key] == item
  }

  /** An item of the table is in its bucket. */
  ghost predicate Indexed<Key, T>(s: Scheme<Key, T>, bs: Buckets<T>, table: map<Key, T>, key: Key)
    requires |bs| > 0 && key in table
  {
    s.getKey(table[key]) == key && table[key] in bs[Home(s, key, |bs|)]
  }

  /** The buckets hold exactly the items of the table, each once and where its key hashes to. */
  ghost predicate Agrees<Key(!new), T(!new)>(s: Scheme<Key, T>, bs: Buckets<T>, table: map<Key, T>) {
    && |bs| > 0
    && (forall i, x :: 0 <= i < |bs| && x in bs[i] ==> InPlace(s, bs, table, i, x))
    && (forall i :: 0 <= i < |bs| ==> Distinct(bs[i]))
    && (forall key :: key in table ==> Indexed(s, bs, table, key))
  }

  lemma PutAgrees<Key(!new), T(!new)>(s: Scheme<Key, T>, bs: Buckets<T>, table: map<Key, T>, item: T)
    requires Agrees(s, bs, table) && s.getKey(item) !in table
    ensures var i := Home(s, s.getKey(item), |bs|);
      item !in bs[i] && Agrees(s, bs[i := bs[i] + [item]], table[s.getKey(item) := item])
  {
    var key := s.getKey(item);
    var i := Home(s, key, |bs|);
    forall x | x in bs[i] ensures x != item {
      assert InPlace(s, bs, table, i, x);
    }
    var bs', table' := bs[i := bs[i] + [item]], table[key := item];
    DistinctAppend(bs[i], item);
    forall j, x | 0 <= j < |bs'| && x in bs'[j] ensures InPlace(s, bs', table', j, x) {
      if x in bs[j] {
        assert InPlace(s, bs, table, j, x);
      }
    }
    forall k | k in table' ensures Indexed(s, bs', table', k) {
      if k != key {
        assert Indexed(s, bs, table, k);
      }
    }
  }

  lemma RemoveAgrees<Key(!new), T(!new)>(s: Scheme<Key, T>, bs: Buckets<T>, table: map<Key, T>, i: nat, n: nat)
    requires Agrees(s, bs, table) && i < |bs| && n < |bs[i]|
    ensures var key := s.getKey(bs[i][n]);
      key in table && table[key] == bs[i][n] && Agrees(s, bs[i := Cut(bs[i], n)], table - {key})
  {
    var item := bs[i][n];
    var key := s.getKey(item);
    assert InPlace(s, bs, table, i, item);
    var bs', table' := bs[i := Cut(bs[i], n)], table - {key};
    CutIs(bs[i], n);
    forall j, x | 0 <= j < |bs'| && x in bs'[j] ensures InPlace(s, bs', table', j, x) {
      assert x in bs[j] && InPlace(s, bs, table, j, x);
    }
    forall k | k in table' ensures Indexed(s, bs', table', k) {
      assert Indexed(s, bs, table, k);
    }
  }

  lemma CutIs<T>(s: seq<T>, n: nat)
    requires n < |s| && Distinct(s)
    ensures Distinct(Cut(s, n)) && forall x :: x in Cut(s, n) <==> x in s && x != s[n]
  {
    hide Cut;
    forall x | x in s && x != s[n] ensures x in Cut(s, n) {
      var j :| 0 <= j < |s| && s[j] == x;
      assert Cut(s, n)[if j < n then j else j - 1] == x;
    }
  }

  /** Empty buckets hold an empty table, and no other. */
  lemma EmptyAgrees<Key(!new), T(!new)>(s: Scheme<Key, T>, bs: Buckets<T>)
    requires |bs| > 0 && forall i :: 0 <= i < |bs| ==> bs[i] == []
    ensures Agrees(s, bs, map[])
  {
  }

  lemma IndexedSomewhere<Key(!new), T(!new)>(s: Scheme<Key, T>, bs: Buckets<T>, table: map<Key, T>, key: Key)
    requires Agrees(s, bs, table) && key in table
    ensures |bs| > 0 && bs[Home(s, key, |bs|)] != []
  {
    assert Indexed(s, bs, table, key);
  }

  lemma AgreesEmpty<Key(!new), T(!new)>(s: Scheme<Key, T>, bs: Buckets<T>, table: map<Key, T>)
    requires Agrees(s, bs, table) && forall i :: 0 <= i < |bs| ==> bs[i] == []
    ensures table == map[]
  {
    hide Agrees;
    forall key ensures key !in table {
      if key in table {
        IndexedSomewhere(s, bs, table, key);
      }
    }
  }

  // ---------------------------------------------------------------- the items in the order of iteration

  function Flatten<T>(bs: Buckets<T>, i: nat): seq<T>
    decreases |bs| - i
  {
    if i >= |bs| then [] else bs[i] + Flatten(bs, i + 1)
  }

  lemma {:induction false} FlattenHas<T(!new)>(bs: Buckets<T>, i: nat)
    ensures forall x :: x in Flatten(bs, i) <==> exists j :: i <= j < |bs| && x in bs[j]
    decreases |bs| - i
  {
    if i < |bs| {
      FlattenHas(bs, i + 1);
      forall x ensures x in Flatten(bs, i) <==> exists j :: i <= j < |bs| && x in bs[j] {
        assert x in Flatten(bs, i) <==> x in bs[i] || x in Flatten(bs, i + 1);
      }
    }
  }

  lemma OneHome<Key(!new), T(!new)>(s: Scheme<Key, T>, bs: Buckets<T>, table: map<Key, T>, i: nat, j: nat, x: T)
    requires Agrees(s, bs, table) && i < |bs| && j < |bs| && i != j && x in bs[i]
    ensures x !in bs[j]
  {
    assert InPlace(s, bs, table, i, x);
  }

  lemma {:induction false} FlattenDistinct<Key(!new), T(!new)>(s: Scheme<Key, T>, bs: Buckets<T>, table: map<Key, T>, i: nat)
    requires Agrees(s, bs, table)
    ensures Distinct(Flatten(bs, i))
    decreases |bs| - i
  {
    if i < |bs| {
      FlattenDistinct(s, bs, table, i + 1);
      FlattenHas(bs, i + 1);
      forall x, j | x in bs[i] && i < j < |bs| ensures x !in bs[j] {
        OneHome(s, bs, table, i, j, x);
      }
      DistinctJoin(bs[i], Flatten(bs, i + 1));
    }
  }

  lemma DistinctJoin<T>(s: seq<T>, t: seq<T>)
    requires Distinct(s) && Distinct(t) && forall x :: x in s ==> x !in t
    ensures Distinct(s + t)
  {
    forall i, j | 0 <= i < j < |s + t| ensures (s + t)[i] != (s + t)[j] {
      if j < |s| {
        assert s[i] != s[j];
      } else if i < |s| {
        assert (s + t)[i] in s && (s + t)[j] == t[j - |s|];
      } else {
        assert t[i - |s|] != t[j - |s|];
      }
    }
  }

  /** Stepping through the buckets meets every item of the table exactly once, and nothing else. */
  lemma EachItemOnce<Key(!new), T(!new)>(s: Scheme<Key, T>, bs: Buckets<T>, table: map<Key, T>)
    requires Agrees(s, bs, table)
    ensures Distinct(Flatten(bs, 0))
    ensures forall x :: x in Flatten(bs, 0) <==> s.getKey(x) in table && table[s.getKey(x)] == x
  {
    FlattenDistinct(s, bs, table, 0);
    FlattenHas(bs, 0);
    forall x ensures x in Flatten(bs, 0) <==> s.getKey(x) in table && table[s.getKey(x)] == x {
      var key := s.getKey(x);
      if key in table && table[key] == x {
        assert Indexed(s, bs, table, key);
      }
      if x in Flatten(bs, 0) {
        var j :| 0 <= j < |bs| && x in bs[j];
        assert InPlace(s, bs, table, j, x);
      }
    }
  }

  // ---------------------------------------------------------------- the table's own form

  /** The table in two parts: what has been moved and what is left to move. */
  ghost predicate Split<Key, T>(table: map<Key, T>, moved: map<Key, T>, left: map<Key, T>) {
    moved.Keys !! left.Keys && moved + left == table
  }

  class HashTable<Key(==,!new), T(==,!new)> {
    const scheme: Scheme<Key, T>
    var buckets: array<seq<T>>
    var numItems: nat
    ghost var table: map<Key, T>

    ghost predicate Valid()
      reads this, buckets
    {
      && Agrees(scheme, buckets[..], table)
      && numItems == |table| && numItems <= RESIZE_RATIO * buckets.Length
    }

    constructor (getKey: T -> Key, hash: Key -> nat)
      ensures Valid() && table == map[] && scheme == Scheme(getKey, hash) && fresh(buckets)
    {
      scheme := Scheme(getKey, hash);
      numItems, table := 0, map[];
      buckets := new seq<T>[INITIAL_BUCKETS](i => []);
      new;
      EmptyAgrees(scheme, buckets[..]);
    }

    /** HashValue and Append. */
    method AppendItem(bs: array<seq<T>>, item: T, ghost t: map<Key, T>)
      requires Agrees(scheme, bs[..], t) && scheme.getKey(item) !in t
      modifies bs
      ensures Agrees(scheme, bs[..], t[scheme.getKey(item) := item])
    {
      AgreesMeans(scheme, bs[..], t);
      PutAgrees(scheme, bs[..], t, item);
      hide Agrees, Home;
      ghost var was := bs[..];
      var home := Home(scheme, scheme.getKey(item), bs.Length);
      bs[home] := bs[home] + [item];
      assert bs[..] == was[home := was[home] + [item]];
    }

    /** RemoveFront on one bucket. */
    method TakeFirst(bs: array<seq<T>>, i: nat, ghost t: map<Key, T>) returns (item: T)
      requires Agrees(scheme, bs[..], t) && i < bs.Length && bs[i] != []
      modifies bs
      ensures scheme.getKey(item) in t && t[scheme.getKey(item)] == item
      ensures Agrees(scheme, bs[..], t - {scheme.getKey(item)})
      ensures bs[i] == old(bs[i])[1..] && forall j :: 0 <= j < bs.Length && j != i ==> bs[j] == old(bs[j])
    {
      RemoveAgrees(scheme, bs[..], t, i, 0);
      assert Cut(bs[i], 0) == bs[i][1..];
      hide Agrees, Cut;
      ghost var was := bs[..];
      item := bs[i][0];
      bs[i] := bs[i][1..];
      assert bs[..] == was[i := Cut(was[i], 0)];
    }

    method Insert(item: T)
      requires Valid() && scheme.getKey(item) !in table
      modifies this, buckets
      ensures Valid() && table == old(table)[scheme.getKey(item) := item]
      ensures buckets == old(buckets) || fresh(buckets)
    {
      hide Agrees;
      AgreesMeans(scheme, buckets[..], table);
      if numItems / buckets.Length >= RESIZE_RATIO {
        ReHash();
      }
      AppendItem(buckets, item, table);
      numItems := numItems + 1;
      table := table[scheme.getKey(item) := item];
    }

    /** Moves every item to a table four times as large. */
    method ReHash()
      requires Valid()
      modifies this, buckets
      ensures Valid() && table == old(table) && numItems == old(numItems)
      ensures fresh(buckets) && buckets.Length == INCREASE_SIZE_BY * old(buckets.Length)
    {
      hide Agrees;
      var oldTable := buckets;
      AgreesMeans(scheme, oldTable[..], table);
      buckets := new seq<T>[oldTable.Length * INCREASE_SIZE_BY](i => []);
      EmptyAgrees(scheme, buckets[..]);
      ghost var moved: map<Key, T>, left := map[], table;
      var i := 0;
      while i < oldTable.Length
        invariant 0 <= i <= oldTable.Length
        invariant Agrees(scheme, oldTable[..], left) && Agrees(scheme, buckets[..], moved)
        invariant Split(table, moved, left)
        invariant forall j :: 0 <= j < i ==> oldTable[j] == []
        modifies oldTable, buckets
      {
        moved, left := MoveBucket(oldTable, i, moved, left);
        i := i + 1;
      }
      AgreesEmpty(scheme, oldTable[..], left);
      assert moved + map[] == moved;
    }

    method MoveBucket(oldTable: array<seq<T>>, i: nat, ghost moved0: map<Key, T>, ghost left0: map<Key, T>)
        returns (ghost moved: map<Key, T>, ghost left: map<Key, T>)
      requires oldTable != buckets && i < oldTable.Length
      requires Agrees(scheme, oldTable[..], left0) && Agrees(scheme, buckets[..], moved0) && Split(table, moved0, left0)
      modifies oldTable, buckets
      ensures Agrees(scheme, oldTable[..], left) && Agrees(scheme, buckets[..], moved) && Split(table, moved, left)
      ensures oldTable[i] == [] && forall j :: 0 <= j < oldTable.Length && j != i ==> oldTable[j] == old(oldTable[j])
    {
      hide Agrees;
      moved, left := moved0, left0;
      while oldTable[i] != []
        invariant Agrees(scheme, oldTable[..], left) && Agrees(scheme, buckets[..], moved)
        invariant Split(table, moved, left)
        invariant forall j :: 0 <= j < oldTable.Length && j != i ==> oldTable[j] == old(oldTable[j])
        decreases |oldTable[i]|
      {
        var item := TakeFirst(oldTable, i, left);
        AppendItem(buckets, item, moved);
        moved, left := moved[scheme.getKey(item) := item], left - {scheme.getKey(item)};
      }
    }

    method FindInBucket(bucket: nat, key: Key) returns (found: Option<T>)
      requires bucket < buckets.Length
      ensures match found
        case None => forall x :: x in buckets[bucket] ==> scheme.getKey(x) != key
        case Some(x) => x in buckets[bucket] && scheme.getKey(x) == key
    {
      var i := 0;
      while i < |buckets[bucket]|
        invariant 0 <= i <= |buckets[bucket]|
        invariant forall j :: 0 <= j < i ==> scheme.getKey(buckets[bucket][j]) != key
      {
        if scheme.getKey(buckets[bucket][i]) == key {
          return Some(buckets[bucket][i]);
        }
        i := i + 1;
      }
      return None;
    }

    /** The table's item for the key, if it has one. */
    method Find(key: Key) returns (found: Option<T>)
      requires Valid()
      ensures found == if key in table then Some(table[key]) else None
    {
      var home := Home(scheme, key, buckets.Length);
      found := FindInBucket(home, key);
      if found.Some? {
        assert InPlace(scheme, buckets[..], table, home, found.value);
      }
      if key in table {
        assert Indexed(scheme, buckets[..], table, key);
      }
    }

    method Remove(key: Key) returns (item: T)
      requires Valid() && key in table
      modifies this, buckets
      ensures Valid() && item == old(table)[key] && table == old(table) - {key} && buckets == old(buckets)
    {
      var home := Home(scheme, key, buckets.Length);
      var found := FindInBucket(home, key);
      assert Indexed(scheme, buckets[..], table, key);
      item := found.value;
      assert InPlace(scheme, buckets[..], table, home, item);
      ghost var bs := buckets[..];
      var n := IndexOf(buckets[home], item);
      RemoveAgrees(scheme, bs, table, home, n);
      buckets[home] := Cut(buckets[home], n);
      assert buckets[..] == bs[home := Cut(bs[home], n)];
      numItems := numItems - 1;
      table := table - {key};
      TableShrinks(old(table), key);
    }

    method FindNextFullBucket(start: nat) returns (bucket: nat)
      requires start <= buckets.Length
      ensures start <= bucket <= buckets.Length
      ensures Flatten(buckets[..], start) == Flatten(buckets[..], bucket)
      ensures bucket < buckets.Length ==> buckets[bucket] != []
    {
      bucket := start;
      while bucket < buckets.Length
        invariant start <= bucket <= buckets.Length
        invariant Flatten(buckets[..], start) == Flatten(buckets[..], bucket)
      {
        if buckets[bucket] != [] {
          return;
        }
        bucket := bucket + 1;
      }
    }
  }

  lemma TableShrinks<Key, T>(table: map<Key, T>, key: Key)
    requires key in table
    ensures |table - {key}| == |table| - 1
  {
    assert (table - {key}).Keys == table.Keys - {key};
  }

  lemma AgreesMeans<Key(!new), T(!new)>(s: Scheme<Key, T>, bs: Buckets<T>, table: map<Key, T>)
    requires Agrees(s, bs, table)
    ensures |bs| > 0
  {
  }

  class HashIterator<Key(==,!new), T(==,!new)> {
    const table: HashTable<Key, T>
    var bucket: nat
    var position: nat

    /** The table has not changed since the iterator was made. */
    ghost predicate Valid()
      reads this, table, table.buckets
    {
      && bucket <= table.buckets.Length
      && (bucket < table.buckets.Length ==> position < |table.buckets[bucket]|)
    }

    /** The items still to come. */
    ghost function Rest(): seq<T>
      requires Valid()
      reads this, table, table.buckets
    {
      if bucket == table.buckets.Length then []
      else table.buckets[bucket][position..] + Flatten(table.buckets[..], bucket + 1)
    }

    constructor (table: HashTable<Key, T>)
      ensures Valid() && this.table == table && Rest() == Flatten(table.buckets[..], 0)
    {
      this.table := table;
      position := 0;
      new;
      bucket := table.FindNextFullBucket(0);
    }

    predicate IsDone()
      requires Valid()
      reads this, table, table.buckets
      ensures IsDone() <==> Rest() == []
    {
      bucket == table.buckets.Length
    }

    function Item(): (x: T)
      requires Valid() && !IsDone()
      reads this, table, table.buckets
      ensures x == Rest()[0]
    {
      table.buckets[bucket][position]
    }

    method Next()
      requires Valid() && !IsDone()
      modifies this
      ensures Valid() && Rest() == old(Rest())[1..]
    {
      position := position + 1;
      if position == |table.buckets[bucket]| {
        position := 0;
        bucket := table.FindNextFullBucket(bucket + 1);
      }
    }
  }
}
