/** A hash map of 100 buckets, each a growable array of nodes. */
module Hashmaps {
  import opened Common
  import opened DArrays

  const DEFAULT_NUMBER_OF_BUCKETS := 100

  type Hash = h: int | 0 <= h < 0x1_0000_0000

  // A node is never written to once it has been made.
  class Node<K, V> {
    const key: K
    const data: V
    const hash: Hash

    constructor (hash: Hash, key: K, data: V)
      ensures this.hash == hash && this.key == key && this.data == data
    {
      this.hash, this.key, this.data := hash, key, data;
    }
  }

  // ---------------------------------------------------------------- what the buckets hold

  function Pairs<K, V>(nodes: seq<Node<K, V>>): (r: seq<(K, V)>)
    ensures |r| == |nodes|
    ensures forall i :: 0 <= i < |r| ==> r[i] == (nodes[i].key, nodes[i].data)
  {
    seq(|nodes|, i requires 0 <= i < |nodes| => (nodes[i].key, nodes[i].data))
  }

  ghost function RowPairs<K, V>(row: seq<Node<K, V>>): multiset<(K, V)> {
    multiset(Pairs(row))
  }

  ghost function AllPairs<K, V>(rows: seq<seq<Node<K, V>>>): multiset<(K, V)> {
    if rows == [] then multiset{}
    else AllPairs(rows[..|rows| - 1]) + RowPairs(rows[|rows| - 1])
  }

  lemma SameAdded<T>(a: multiset<T>, x: multiset<T>, b: multiset<T>, y: multiset<T>, l: multiset<T>)
    requires a + x == b + y
    ensures a + l + x == b + l + y
  {
    forall e ensures (a + l + x)[e] == (b + l + y)[e] {
      assert (a + x)[e] == (b + y)[e];
    }
  }

  lemma AllPairsSnoc<K, V>(rows: seq<seq<Node<K, V>>>, row: seq<Node<K, V>>)
    ensures AllPairs(rows + [row]) == AllPairs(rows) + RowPairs(row)
  {
    assert (rows + [row])[..|rows|] == rows;
  }

  lemma {:induction false} RowChanges<K, V>(rows: seq<seq<Node<K, V>>>, i: nat, row: seq<Node<K, V>>)
    requires i < |rows|
    ensures AllPairs(rows[i := row]) + RowPairs(rows[i]) == AllPairs(rows) + RowPairs(row)
    decreases |rows|
  {
    var n := |rows| - 1;
    var most, last := rows[..n], rows[n];
    assert rows == most + [last];
    AllPairsSnoc(most, last);
    if i == n {
      assert rows[i := row] == most + [row];
      AllPairsSnoc(most, row);
      assert AllPairs(most) + RowPairs(row) + RowPairs(last) == AllPairs(most) + RowPairs(last) + RowPairs(row);
    } else {
      assert rows[i := row] == most[i := row] + [last];
      AllPairsSnoc(most[i := row], last);
      RowChanges(most, i, row);
      SameAdded(AllPairs(most[i := row]), RowPairs(rows[i]), AllPairs(most), RowPairs(row), RowPairs(last));
    }
  }

  lemma {:induction false} PairInRow<K, V>(rows: seq<seq<Node<K, V>>>, pair: (K, V)) returns (i: nat, j: nat)
    requires pair in AllPairs(rows)
    ensures i < |rows| && j < |rows[i]| && (rows[i][j].key, rows[i][j].data) == pair
    decreases |rows|
  {
    var n := |rows| - 1;
    if pair in RowPairs(rows[n]) {
      i := n;
      assert pair in Pairs(rows[n]);
      j :| 0 <= j < |rows[n]| && Pairs(rows[n])[j] == pair;
    } else {
      i, j := PairInRow(rows[..n], pair);
    }
  }

  // The last node takes the place of the one at i.
  function Dropped<T>(nodes: seq<T>, i: nat): (r: seq<T>)
    requires i < |nodes|
    ensures |r| == |nodes| - 1
  {
    var n := |nodes| - 1;
    if i == n then nodes[..n] else nodes[..n][i := nodes[n]]
  }

  lemma DroppedIsOneLess<T>(s: seq<T>, i: nat)
    requires i < |s|
    ensures multiset(Dropped(s, i)) + multiset{s[i]} == multiset(s)
  {
    var n := |s| - 1;
    assert s == s[..n] + [s[n]];
    if i < n {
      assert s[..n] == s[..i] + [s[i]] + s[i + 1..n];
      assert Dropped(s, i) == s[..i] + [s[n]] + s[i + 1..n];
    }
  }

  lemma DroppedPairs<K, V>(nodes: seq<Node<K, V>>, i: nat)
    requires i < |nodes|
    ensures Pairs(Dropped(nodes, i)) == Dropped(Pairs(nodes), i)
  {
  }

  function Wrapped<T>(s: seq<T>): (r: seq<Option<T>>)
    ensures |r| == |s| && forall i :: 0 <= i < |r| ==> r[i] == Some(s[i])
  {
    seq(|s|, i requires 0 <= i < |s| => Some(s[i]))
  }

  lemma NodeAdded<K, V>(rows: seq<seq<Node<K, V>>>, n: nat, node: Node<K, V>)
    requires n < |rows|
    ensures AllPairs(rows[n := rows[n] + [node]]) == AllPairs(rows) + multiset{(node.key, node.data)}
    ensures Wrapped(rows[n] + [node]) == Wrapped(rows[n]) + [Some(node)]
  {
    var row, pair := rows[n] + [node], (node.key, node.data);
    RowChanges(rows, n, row);
    assert Pairs(row) == Pairs(rows[n]) + [pair];
    assert RowPairs(row) == RowPairs(rows[n]) + multiset{pair};
    Cancelled(AllPairs(rows[n := row]), RowPairs(rows[n]), AllPairs(rows), multiset{pair});
  }

  lemma Cancelled<T>(a: multiset<T>, x: multiset<T>, b: multiset<T>, p: multiset<T>)
    requires a + x == b + (x + p)
    ensures a == b + p
  {
    assert a + x == b + p + x;
    forall e ensures a[e] == (b + p)[e] {
      assert (a + x)[e] == (b + p + x)[e];
    }
  }

  lemma NodeDropped<K, V>(rows: seq<seq<Node<K, V>>>, n: nat, i: nat)
    requires n < |rows| && i < |rows[n]|
    ensures AllPairs(rows) == AllPairs(rows[n := Dropped(rows[n], i)]) + multiset{(rows[n][i].key, rows[n][i].data)}
  {
    var row, pair := Dropped(rows[n], i), (rows[n][i].key, rows[n][i].data);
    RowChanges(rows, n, row);
    DroppedPairs(rows[n], i);
    DroppedIsOneLess(Pairs(rows[n]), i);
    assert RowPairs(rows[n]) == RowPairs(row) + multiset{pair};
    Cancelled(AllPairs(rows), RowPairs(row), AllPairs(rows[n := row]), multiset{pair});
  }

  type Bucket<K, V> = DArray<Node<K, V>>

  // What the bucket in a slot holds; a slot without one holds nothing.
  ghost predicate RowOf<K, V>(slot: Option<Bucket<K, V>>, row: seq<Node<K, V>>)
    reads if slot.Some? then {slot.value, slot.value.contents} else {}
  {
    match slot
    case None => row == []
    case Some(b) => b.Roomy() && b.Items() == Wrapped(row)
  }

  ghost predicate Unlike<K, V>(a: Option<Bucket<K, V>>, b: Option<Bucket<K, V>>)
    reads if a.Some? then {a.value} else {}, if b.Some? then {b.value} else {}
  {
    a.Some? && b.Some? ==> a.value != b.value && a.value.contents != b.value.contents
  }

  lemma {:induction false} NothingYet<K, V>(rows: seq<seq<Node<K, V>>>)
    requires forall i :: 0 <= i < |rows| ==> rows[i] == []
    ensures AllPairs(rows) == multiset{}
  {
    if rows != [] {
      NothingYet(rows[..|rows| - 1]);
    }
  }

  // ---------------------------------------------------------------- the map

  class Hashmap<K(==,!new), V(==,!new)> {
    const buckets: DArray<Bucket<K, V>>
    const hash: K -> Hash
    const compare: (K, K) -> int
    ghost var rows: seq<seq<Node<K, V>>>
    ghost var repr: set<object>

    constructor (hash: K -> Hash, compare: (K, K) -> int)
      ensures Valid() && fresh(repr) && Content() == multiset{}
      ensures this.hash == hash && this.compare == compare
    {
      this.hash, this.compare := hash, compare;
      var table := new DArray<Bucket<K, V>>(DEFAULT_NUMBER_OF_BUCKETS);
      buckets := table;
      rows := seq(DEFAULT_NUMBER_OF_BUCKETS, _ => []);
      new;
      buckets.end := buckets.max;
      repr := {this, buckets, buckets.contents};
      NothingYet(rows);
    }

    // Two keys are taken for the same one.
    predicate Matches(a: K, b: K) {
      hash(a) == hash(b) && compare(a, b) == 0
    }

    // Only one key matches a key: itself.
    ghost predicate Exact() {
      forall a, b :: Matches(a, b) <==> a == b
    }

    ghost predicate Table()
      reads this, repr
    {
      && this in repr && buckets in repr && buckets.contents in repr
      && buckets.Valid() && buckets.end == buckets.max == DEFAULT_NUMBER_OF_BUCKETS == |rows|
    }

    // Every bucket is its own.
    ghost predicate Apart()
      requires Table()
      reads this, repr
    {
      && (forall i :: 0 <= i < DEFAULT_NUMBER_OF_BUCKETS && buckets.contents[i].Some? ==>
            buckets.contents[i].value in repr && Kept(buckets.contents[i].value))
      && (forall i, j :: 0 <= i < DEFAULT_NUMBER_OF_BUCKETS && 0 <= j < DEFAULT_NUMBER_OF_BUCKETS && i != j ==>
            Unlike(buckets.contents[i], buckets.contents[j]))
    }

    ghost predicate Kept(b: Bucket<K, V>)
      reads this, buckets, b
    {
      b in repr && b.contents in repr && b as object != buckets && b.contents as object != buckets.contents
    }

    ghost predicate Hashed() reads this {
      forall i, j :: 0 <= i < |rows| && 0 <= j < |rows[i]| ==>
        rows[i][j].hash == hash(rows[i][j].key) && rows[i][j].hash % DEFAULT_NUMBER_OF_BUCKETS == i
    }

    ghost predicate Valid()
      reads this, repr
    {
      && Table() && Apart() && Hashed()
      && (forall i :: 0 <= i < DEFAULT_NUMBER_OF_BUCKETS ==> RowOf(buckets.contents[i], rows[i]))
    }

    ghost function Content(): multiset<(K, V)>
      reads this
    {
      AllPairs(rows)
    }

    method FindBucket(key: K, create: bool) returns (bucket: Option<Bucket<K, V>>, hashOut: Hash)
      requires Valid()
      modifies this`repr, buckets, buckets.contents
      ensures Valid() && fresh(repr - old(repr)) && rows == old(rows)
      ensures hashOut == hash(key) && bucket == buckets.contents[hashOut % DEFAULT_NUMBER_OF_BUCKETS]
      ensures create ==> bucket.Some?
    {
      hashOut := hash(key);
      var n := hashOut % DEFAULT_NUMBER_OF_BUCKETS;
      bucket := buckets.Get(n);
      if bucket == None && create {
        var b := new DArray<Node<K, V>>(DEFAULT_NUMBER_OF_BUCKETS);
        bucket := Some(b);
        buckets.Set(n, bucket);
        repr := repr + {b, b.contents};
      }
    }

    // The bucket n now holds row; all others are as they were.
    ghost method Note(n: nat, row: seq<Node<K, V>>)
      requires Table() && n < DEFAULT_NUMBER_OF_BUCKETS && Hashed()
      requires forall i :: 0 <= i < DEFAULT_NUMBER_OF_BUCKETS && i != n ==> RowOf(buckets.contents[i], rows[i])
      requires buckets.contents[n].Some? && Apart() && RowOf(buckets.contents[n], row)
      requires forall j :: 0 <= j < |row| ==>
        row[j].hash == hash(row[j].key) && row[j].hash % DEFAULT_NUMBER_OF_BUCKETS == n
      modifies this`rows
      ensures Valid() && rows == old(rows)[n := row]
    {
      rows := rows[n := row];
    }

    method Set(key: K, data: V) returns (rc: int)
      requires Valid()
      modifies repr
      ensures Valid() && fresh(repr - old(repr))
      ensures rc == 0 && Content() == old(Content()) + multiset{(key, data)}
      ensures Step(old(Content()), SetOp(key, data), Content())
    {
      var bucket, h := FindBucket(key, true);
      var node := new Node(h, key, data);
      AddNode(h % DEFAULT_NUMBER_OF_BUCKETS, bucket.value, node);
      return 0;
    }

    // All is well but for what the bucket n is noted to hold.
    ghost predicate ValidBut(n: nat)
      reads this, repr
    {
      && Table() && Apart() && Hashed()
      && forall i :: 0 <= i < DEFAULT_NUMBER_OF_BUCKETS && i != n ==> RowOf(buckets.contents[i], rows[i])
    }

    method AddNode(n: nat, bucket: Bucket<K, V>, node: Node<K, V>)
      requires Valid() && n < DEFAULT_NUMBER_OF_BUCKETS && buckets.contents[n] == Some(bucket)
      requires node.hash == hash(node.key) && node.hash % DEFAULT_NUMBER_OF_BUCKETS == n
      modifies this`rows, this`repr, bucket, bucket.contents
      ensures Valid() && fresh(repr - old(repr))
      ensures Content() == old(Content()) + multiset{(node.key, node.data)}
    {
      NodeAdded(rows, n, node);
      hide AllPairs, Wrapped;
      PushNode(n, bucket, node);
      Note(n, rows[n] + [node]);
    }

    method PushNode(n: nat, bucket: Bucket<K, V>, node: Node<K, V>)
      requires Valid() && n < DEFAULT_NUMBER_OF_BUCKETS && buckets.contents[n] == Some(bucket)
      modifies this`repr, bucket, bucket.contents
      ensures ValidBut(n) && fresh(repr - old(repr)) && buckets.contents[n] == Some(bucket)
      ensures bucket.Roomy() && bucket.Items() == old(bucket.Items()) + [Some(node)]
    {
      var _ := bucket.Push(Some(node));
      repr := repr + {bucket.contents};
      forall i | 0 <= i < DEFAULT_NUMBER_OF_BUCKETS && i != n
        ensures RowOf(buckets.contents[i], rows[i])
        ensures Unlike(buckets.contents[i], buckets.contents[n])
      {
        assert old(Unlike(buckets.contents[i], buckets.contents[n]));
      }
    }

    // Hashmap_get_node: the first node of the bucket that matches
    method GetNode(h: Hash, bucket: Bucket<K, V>, key: K, ghost row: seq<Node<K, V>>) returns (i: int)
      requires bucket.Roomy() && bucket.Items() == Wrapped(row)
      ensures i == -1 ==> forall j :: 0 <= j < |row| ==> !(row[j].hash == h && compare(row[j].key, key) == 0)
      ensures i != -1 ==> 0 <= i < |row| && row[i].hash == h && compare(row[i].key, key) == 0
    {
      for k := 0 to bucket.end
        invariant forall j :: 0 <= j < k ==> !(row[j].hash == h && compare(row[j].key, key) == 0)
      {
        var node := bucket.Get(k);
        assert node == Wrapped(row)[k];
        if node.value.hash == h && compare(node.value.key, key) == 0 {
          return k;
        }
      }
      return -1;
    }

    // Nothing matches in the whole map when nothing does in its bucket.
    lemma MissingEverywhere(key: K)
      requires Valid()
      requires var row := rows[hash(key) % DEFAULT_NUMBER_OF_BUCKETS];
        forall j :: 0 <= j < |row| ==> !(row[j].hash == hash(key) && compare(row[j].key, key) == 0)
      ensures Absent(Content(), key)
    {
      forall pair | pair in Content() ensures !Matches(pair.0, key) {
        var i, j := PairInRow(rows, pair);
        assert rows[i][j].hash == hash(rows[i][j].key);
      }
    }

    ghost predicate Absent(content: multiset<(K, V)>, key: K) {
      forall pair :: pair in content ==> !Matches(pair.0, key)
    }

    // The first node in the bucket of key that matches it.
    method Find(key: K) returns (found: Option<Node<K, V>>, bucket: Option<Bucket<K, V>>, i: nat, ghost n: nat)
      requires Valid()
      modifies this`repr, buckets, buckets.contents
      ensures Valid() && fresh(repr - old(repr)) && rows == old(rows)
      ensures found == None ==> Absent(Content(), key)
      ensures found.Some? ==>
        && n < DEFAULT_NUMBER_OF_BUCKETS && bucket.Some? && buckets.contents[n] == bucket
        && i < |rows[n]| && found.value == rows[n][i] && Matches(found.value.key, key)
    {
      var h;
      bucket, h := FindBucket(key, false);
      n, i := h % DEFAULT_NUMBER_OF_BUCKETS, 0;
      assert RowOf(buckets.contents[n], rows[n]);
      if bucket == None {
        MissingEverywhere(key);
        return None, bucket, i, n;
      }
      var k := GetNode(h, bucket.value, key, rows[n]);
      if k == -1 {
        MissingEverywhere(key);
        return None, bucket, i, n;
      }
      found, i := bucket.value.Get(k), k;
      assert found == Wrapped(rows[n])[i];
    }

    lemma NodeIsHeld(n: nat, i: nat)
      requires n < |rows| && i < |rows[n]|
      ensures (rows[n][i].key, rows[n][i].data) in Content()
    {
      NodeDropped(rows, n, i);
    }

    /** Finds a pair exactly when one has a matching key. */
    method Get(key: K) returns (r: Option<V>)
      requires Valid()
      modifies this`repr, buckets, buckets.contents
      ensures Valid() && fresh(repr - old(repr)) && Content() == old(Content())
      ensures r == None <==>
        forall pair :: pair in Content() ==> !(hash(pair.0) == hash(key) && compare(pair.0, key) == 0)
      ensures r.Some? ==>
        exists k :: hash(k) == hash(key) && compare(k, key) == 0 && (k, r.value) in Content()
    {
      var node, bucket, i, n := Find(key);
      if node == None {
        return None;
      }
      NodeIsHeld(n, i);
      return Some(node.value.data);
    }

    // The node at i goes: the last one is popped and, unless it is the same, put in its place.
    static method DropFrom(bucket: Bucket<K, V>, i: nat, node: Node<K, V>, ghost row: seq<Node<K, V>>)
      requires bucket.Roomy() && bucket.Items() == Wrapped(row) && i < |row| && node == row[i]
      modifies bucket, bucket.contents
      ensures bucket.Roomy() && bucket.Items() == Wrapped(Dropped(row, i))
      ensures bucket.contents == old(bucket.contents) || fresh(bucket.contents)
    {
      assert bucket.Items() != [];
      var ending := bucket.Pop();
      assert bucket.Items() == Wrapped(row)[..|row| - 1] && ending == Wrapped(row)[|row| - 1];
      if ending != Some(node) {
        bucket.Set(i, ending);
      }
    }

    method DropNode(ghost n: nat, bucket: Bucket<K, V>, i: nat, node: Node<K, V>)
      requires Valid() && n < DEFAULT_NUMBER_OF_BUCKETS && buckets.contents[n] == Some(bucket)
      requires i < |rows[n]| && node == rows[n][i]
      modifies this`repr, bucket, bucket.contents
      ensures ValidBut(n) && fresh(repr - old(repr)) && buckets.contents[n] == Some(bucket)
      ensures bucket.Roomy() && bucket.Items() == Wrapped(Dropped(rows[n], i))
    {
      assert RowOf(buckets.contents[n], rows[n]);
      DropFrom(bucket, i, node, rows[n]);
      repr := repr + {bucket.contents};
      forall k | 0 <= k < DEFAULT_NUMBER_OF_BUCKETS && k != n
        ensures RowOf(buckets.contents[k], rows[k])
        ensures Unlike(buckets.contents[k], buckets.contents[n])
      {
        assert old(Unlike(buckets.contents[k], buckets.contents[n]));
      }
    }

    method DeleteNode(ghost n: nat, bucket: Bucket<K, V>, i: nat, node: Node<K, V>)
      requires Valid() && n < DEFAULT_NUMBER_OF_BUCKETS && buckets.contents[n] == Some(bucket)
      requires i < |rows[n]| && node == rows[n][i]
      modifies this`rows, this`repr, bucket, bucket.contents
      ensures Valid() && fresh(repr - old(repr))
      ensures old(Content()) == Content() + multiset{(node.key, node.data)}
    {
      NodeDropped(rows, n, i);
      DropNode(n, bucket, i, node);
      DroppedFrom(rows[n], i);
      Note(n, Dropped(rows[n], i));
    }

    /** Takes out one pair with a matching key, when there is one, and leaves all others. */
    method Delete(key: K) returns (r: Option<V>)
      requires Valid()
      modifies repr
      ensures Valid() && fresh(repr - old(repr))
      ensures r == None <==>
        forall pair :: pair in old(Content()) ==> !(hash(pair.0) == hash(key) && compare(pair.0, key) == 0)
      ensures r == None ==> Content() == old(Content())
      ensures r.Some? ==>
        exists k :: && hash(k) == hash(key) && compare(k, key) == 0
                    && old(Content()) == Content() + multiset{(k, r.value)}
      ensures Exact() ==> Step(old(Content()), DeleteOp(key), Content())
    {
      var node, bucket, i, n := Find(key);
      if node == None {
        return None;
      }
      NodeIsHeld(n, i);
      DeleteNode(n, bucket.value, i, node.value);
      return Some(node.value.data);
    }
  }

  lemma DroppedFrom<T>(s: seq<T>, i: nat)
    requires i < |s|
    ensures forall x :: x in Dropped(s, i) ==> x in s
  {
  }

  // ---------------------------------------------------------------- as a map

  // The pairs are those of m, each once.
  ghost predicate IsMap<K(!new), V(!new)>(content: multiset<(K, V)>, m: map<K, V>) {
    forall k, v {:trigger content[(k, v)]} :: content[(k, v)] == if k in m && m[k] == v then 1 else 0
  }

  ghost predicate IsSomeMap<K(!new), V(!new)>(content: multiset<(K, V)>) {
    exists m: map<K, V> :: IsMap(content, m)
  }

  lemma AddingNewKey<K(!new), V(!new)>(content: multiset<(K, V)>, m: map<K, V>, key: K, data: V)
    requires IsMap(content, m) && key !in m
    ensures IsMap(content + multiset{(key, data)}, m[key := data])
  {
    forall k, v ensures (content + multiset{(key, data)})[(k, v)] ==
      if k in m[key := data] && m[key := data][k] == v then 1 else 0
    {
      assert content[(k, v)] == if k in m && m[k] == v then 1 else 0;
    }
  }

  lemma AddingKnownKey<K(!new), V(!new)>(content: multiset<(K, V)>, m: map<K, V>, key: K, data: V)
    requires IsMap(content, m) && key in m
    ensures !IsSomeMap(content + multiset{(key, data)})
  {
    var more := content + multiset{(key, data)};
    assert content[(key, m[key])] == 1;
    assert more[(key, data)] >= 1 && more[(key, m[key])] >= 1;
    assert data == m[key] ==> more[(key, data)] == 2;
  }

  lemma Removing<K(!new), V(!new)>(content: multiset<(K, V)>, m: map<K, V>, left: multiset<(K, V)>, key: K, data: V)
    requires IsMap(content, m) && content == left + multiset{(key, data)}
    ensures key in m && m[key] == data && IsMap(left, m - {key})
  {
    assert content[(key, data)] >= 1;
    assert content[(key, data)] == if key in m && m[key] == data then 1 else 0;
    forall k, v ensures left[(k, v)] == if k in m - {key} && (m - {key})[k] == v then 1 else 0 {
      assert content[(k, v)] == if k in m && m[k] == v then 1 else 0;
      assert content[(k, v)] == left[(k, v)] + if (k, v) == (key, data) then 1 else 0;
    }
  }

  datatype Op<K, V> = SetOp(key: K, data: V) | DeleteOp(key: K)

  // What the contracts of Set and Delete allow, when two keys match just if they are the same.
  ghost predicate Step<K(!new), V(!new)>(a: multiset<(K, V)>, op: Op<K, V>, b: multiset<(K, V)>) {
    match op
    case SetOp(k, d) => b == a + multiset{(k, d)}
    case DeleteOp(k) =>
      || (b == a && forall v :: (k, v) !in a)
      || (exists v :: a == b + multiset{(k, v)})
  }

  ghost predicate IsRun<K(!new), V(!new)>(contents: seq<multiset<(K, V)>>, ops: seq<Op<K, V>>) {
    && |contents| == |ops| + 1 && contents[0] == multiset{}
    && forall i :: 0 <= i < |ops| ==> Step(contents[i], ops[i], contents[i + 1])
  }

  function MapAfter<K, V>(ops: seq<Op<K, V>>): map<K, V> {
    if ops == [] then map[]
    else
      var m := MapAfter(ops[..|ops| - 1]);
      match ops[|ops| - 1]
      case SetOp(k, d) => m[k := d]
      case DeleteOp(k) => m - {k}
  }

  // Only keys that are not there are ever set.
  ghost predicate SetsOnlyAbsent<K(!new), V(!new)>(ops: seq<Op<K, V>>) {
    forall i :: 0 <= i < |ops| && ops[i].SetOp? ==> ops[i].key !in MapAfter(ops[..i])
  }

  lemma StepKeepsMap<K(!new), V(!new)>(a: multiset<(K, V)>, op: Op<K, V>, b: multiset<(K, V)>, m: map<K, V>)
    requires IsMap(a, m) && Step(a, op, b)
    ensures op.SetOp? && op.key !in m ==> IsMap(b, m[op.key := op.data])
    ensures op.SetOp? && op.key in m ==> !IsSomeMap(b)
    ensures op.DeleteOp? ==> IsMap(b, m - {op.key})
  {
    match op
    case SetOp(k, d) =>
      if k in m {
        AddingKnownKey(a, m, k, d);
      } else {
        AddingNewKey(a, m, k, d);
      }
    case DeleteOp(k) =>
      if v :| a == b + multiset{(k, v)} {
        Removing(a, m, b, k, v);
      } else {
        assert k in m ==> a[(k, m[k])] == 1;
        assert m - {k} == m;
      }
  }

  lemma {:induction false} RunRefinesMap<K(!new), V(!new)>(contents: seq<multiset<(K, V)>>, ops: seq<Op<K, V>>)
    requires IsRun(contents, ops) && SetsOnlyAbsent(ops)
    ensures IsMap(contents[|ops|], MapAfter(ops))
    decreases |ops|
  {
    if ops != [] {
      var n := |ops| - 1;
      PrefixIsRun(contents, ops, n);
      OneMoreOp(ops);
      RunRefinesMap(contents[..n + 1], ops[..n]);
      StepKeepsMap(contents[n], ops[n], contents[n + 1], MapAfter(ops[..n]));
    }
  }

  lemma PrefixIsRun<K(!new), V(!new)>(contents: seq<multiset<(K, V)>>, ops: seq<Op<K, V>>, n: nat)
    requires IsRun(contents, ops) && n <= |ops|
    ensures IsRun(contents[..n + 1], ops[..n])
  {
    forall i | 0 <= i < n ensures Step(contents[..n + 1][i], ops[..n][i], contents[..n + 1][i + 1]) {
      assert Step(contents[i], ops[i], contents[i + 1]);
    }
  }

  lemma OneMoreOp<K(!new), V(!new)>(ops: seq<Op<K, V>>)
    requires ops != []
    ensures var n := |ops| - 1;
      SetsOnlyAbsent(ops) <==> SetsOnlyAbsent(ops[..n]) && (ops[n].SetOp? ==> ops[n].key !in MapAfter(ops[..n]))
  {
    var n := |ops| - 1;
    assert forall i :: 0 <= i < n ==> ops[..n][..i] == ops[..i] && ops[..n][i] == ops[i];
  }

  /** The content is that of a map all along exactly when only absent keys are set. */
  lemma {:induction false} MapAllAlongIff<K(!new), V(!new)>(contents: seq<multiset<(K, V)>>, ops: seq<Op<K, V>>)
    requires IsRun(contents, ops)
    ensures (forall i :: 0 <= i <= |ops| ==> IsSomeMap(contents[i])) <==> SetsOnlyAbsent(ops)
    decreases |ops|
  {
    if ops == [] {
      RunRefinesMap(contents, ops);
    } else {
      var n := |ops| - 1;
      PrefixIsRun(contents, ops, n);
      MapAllAlongIff(contents[..n + 1], ops[..n]);
      if SetsOnlyAbsent(ops[..n]) {
        RunRefinesMap(contents[..n + 1], ops[..n]);
        StepKeepsMap(contents[n], ops[n], contents[n + 1], MapAfter(ops[..n]));
      }
      OneMoreOp(ops);
      assert forall i :: 0 <= i <= n ==> contents[i] == contents[..n + 1][i];
    }
  }
}
