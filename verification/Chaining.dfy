/** The chained hash table behind large hashes: an array of linked buckets.

`chains` lists the nodes of every bucket in link order; `contents` is the map the
table represents. */
module Chaining {
  import opened Ordering
  import opened Bits
  import opened ProbeSequence
  import opened OpenAddressing

  class ChainNode {
    const hashCode: Hash32
    const key: Text
    var value: Text
    var next: ChainNode?

    constructor (hashCode: Hash32, key: Text, value: Text, next: ChainNode?)
      ensures this.hashCode == hashCode && this.key == key && this.value == value && this.next == next
    {
      this.hashCode, this.key, this.value, this.next := hashCode, key, value, next;
    }
  }

  ghost function NodeAt(chain: seq<ChainNode>, i: nat): ChainNode? {
    if i < |chain| then chain[i] else null
  }

  ghost predicate LinkedFrom(head: ChainNode?, chain: seq<ChainNode>)
    reads chain`next
  {
    head == NodeAt(chain, 0) && forall i :: 0 <= i < |chain| ==> chain[i].next == NodeAt(chain, i + 1)
  }

  ghost predicate ValuesOf(chain: seq<ChainNode>, m: map<Text, Text>)
    reads chain`value
  {
    forall i :: 0 <= i < |chain| ==> chain[i].key in m && m[chain[i].key] == chain[i].value
  }

  ghost function Keys(chain: seq<ChainNode>): (ks: seq<Text>)
    ensures |ks| == |chain| && forall i :: 0 <= i < |chain| ==> ks[i] == chain[i].key
  {
    seq(|chain|, i requires 0 <= i < |chain| => chain[i].key)
  }

  /** All keys, bucket by bucket. */
  ghost function AllKeys(chains: seq<seq<ChainNode>>): seq<Text> {
    if chains == [] then [] else AllKeys(chains[..|chains| - 1]) + Keys(chains[|chains| - 1])
  }

  ghost predicate Distinct(ks: seq<Text>) {
    forall i, j :: 0 <= i < j < |ks| ==> ks[i] != ks[j]
  }

  function BucketIndex(hashCode: Hash32, capacity: nat): nat
    requires capacity > 0
  {
    And(hashCode, capacity - 1)
  }

  lemma BucketIndexBound(hashCode: Hash32, capacity: nat)
    requires IsCapacity(capacity)
    ensures BucketIndex(hashCode, capacity) < capacity
  {
    MaskIsMod(hashCode, capacity);
  }

  /** Every node of the chain hashes to bucket `b`, and no key occurs twice. */
  ghost predicate Homed(chain: seq<ChainNode>, b: nat, hasher: Hasher, capacity: nat)
    requires capacity > 0
  {
    && (forall i :: 0 <= i < |chain| ==>
      chain[i].hashCode == hasher(chain[i].key) && BucketIndex(chain[i].hashCode, capacity) == b)
    && Distinct(Keys(chain))
  }

  ghost predicate Placed(chains: seq<seq<ChainNode>>, hasher: Hasher, capacity: nat) {
    && IsCapacity(capacity) && |chains| == capacity
    && forall b :: 0 <= b < |chains| ==> Homed(chains[b], b, hasher, capacity)
  }

  /** A key can only be in its own bucket. */
  lemma KeyAtHome(chains: seq<seq<ChainNode>>, hasher: Hasher, capacity: nat, b: nat, i: nat)
    requires Placed(chains, hasher, capacity) && b < |chains| && i < |chains[b]|
    ensures chains[b][i].hashCode == hasher(chains[b][i].key)
    ensures b == BucketIndex(hasher(chains[b][i].key), capacity)
  {
    assert Homed(chains[b], b, hasher, capacity);
  }

  /** A key stands in one place only, and so does a node. */
  lemma PlaceUnique(chains: seq<seq<ChainNode>>, hasher: Hasher, capacity: nat, b: nat, i: nat, c: nat, j: nat)
    requires Placed(chains, hasher, capacity)
    requires b < |chains| && i < |chains[b]| && c < |chains| && j < |chains[c]|
    requires chains[b][i].key == chains[c][j].key
    ensures b == c && i == j
  {
    KeyAtHome(chains, hasher, capacity, b, i);
    KeyAtHome(chains, hasher, capacity, c, j);
    assert Homed(chains[b], b, hasher, capacity);
    assert Keys(chains[b])[i] == Keys(chains[b])[j];
  }

  lemma KeysDiffer(chains: seq<seq<ChainNode>>, hasher: Hasher, capacity: nat, b: nat, i: nat, c: nat, j: nat)
    requires Placed(chains, hasher, capacity)
    requires b < |chains| && i < |chains[b]| && c < |chains| && j < |chains[c]|
    requires b != c || i != j
    ensures chains[b][i].key != chains[c][j].key
  {
    if chains[b][i].key == chains[c][j].key {
      PlaceUnique(chains, hasher, capacity, b, i, c, j);
    }
  }

  lemma {:induction false} AllKeysAfterUpdate(chains: seq<seq<ChainNode>>, b: nat, chain: seq<ChainNode>)
    requires b < |chains|
    ensures |AllKeys(chains[b := chain])| == |AllKeys(chains)| - |chains[b]| + |chain|
  {
    var last := |chains| - 1;
    if b == last {
      assert chains[b := chain][..last] == chains[..last];
    } else {
      assert chains[b := chain][..last] == chains[..last][b := chain];
      AllKeysAfterUpdate(chains[..last], b, chain);
    }
  }

  lemma {:induction false} InAllKeys(chains: seq<seq<ChainNode>>, k: Text)
    ensures k in AllKeys(chains) <==> exists b :: 0 <= b < |chains| && k in Keys(chains[b])
  {
    if chains != [] {
      var last := |chains| - 1;
      InAllKeys(chains[..last], k);
      if k in AllKeys(chains[..last]) {
        var b :| 0 <= b < last && k in Keys(chains[..last][b]);
        assert k in Keys(chains[b]);
      }
      if exists b :: 0 <= b < |chains| && k in Keys(chains[b]) {
        var b :| 0 <= b < |chains| && k in Keys(chains[b]);
        assert b < last ==> k in Keys(chains[..last][b]);
      }
    }
  }

  lemma KeyNotEarlier(chains: seq<seq<ChainNode>>, hasher: Hasher, capacity: nat, n: nat, j: nat)
    requires Placed(chains, hasher, capacity) && n < |chains| && j < |chains[n]|
    ensures chains[n][j].key !in AllKeys(chains[..n])
  {
    var k := chains[n][j].key;
    KeyAtHome(chains, hasher, capacity, n, j);
    forall b | 0 <= b < n ensures k !in Keys(chains[..n][b]) {
      assert Homed(chains[b], b, hasher, capacity);
    }
    InAllKeys(chains[..n], k);
  }

  /** No key is listed twice over the whole table. */
  lemma {:induction false} AllKeysDistinct(chains: seq<seq<ChainNode>>, hasher: Hasher, capacity: nat, n: nat)
    requires Placed(chains, hasher, capacity) && n <= |chains|
    ensures Distinct(AllKeys(chains[..n]))
  {
    if n > 0 {
      assert chains[..n][..n - 1] == chains[..n - 1];
      AllKeysDistinct(chains, hasher, capacity, n - 1);
      assert Homed(chains[n - 1], n - 1, hasher, capacity);
      var before, last := AllKeys(chains[..n - 1]), Keys(chains[n - 1]);
      forall i, j | 0 <= i < |before| && 0 <= j < |last| ensures before[i] != last[j] {
        KeyNotEarlier(chains, hasher, capacity, n - 1, j);
      }
    }
  }

  class ChainedHashTable {
    const hasher: Hasher
    var capacity: nat
    var liveCount: nat
    var buckets: array<ChainNode?>
    ghost var chains: seq<seq<ChainNode>>
    ghost var contents: map<Text, Text>
    ghost var Repr: set<object>

    ghost predicate Footprint()
      reads this
    {
      && this in Repr && buckets in Repr && buckets.Length == capacity == |chains|
      && forall b, i :: 0 <= b < |chains| && 0 <= i < |chains[b]| ==> chains[b][i] in Repr
    }

    ghost predicate BucketHolds(b: nat)
      requires Footprint() && b < capacity
      reads this, Repr
    {
      LinkedFrom(buckets[b], chains[b]) && ValuesOf(chains[b], contents)
    }

    /** The table holds `contents` and counts it right. */
    ghost predicate Consistent()
      reads this, Repr
    {
      && Footprint() && Placed(chains, hasher, capacity)
      && (forall b :: 0 <= b < capacity ==> BucketHolds(b))
      && (forall k :: k in contents ==> k in AllKeys(chains))
      && liveCount == |AllKeys(chains)|
    }

    ghost predicate Valid()
      reads this, Repr
      ensures Valid() ==> this in Repr
    {
      Consistent() && !NeedsGrow(liveCount, capacity)
    }

    /** The space bound of a table that started at the default capacity. */
    ghost predicate Tight()
      reads this
    {
      !NeedsShrink(liveCount, capacity)
    }

    /** For the capacities `__init__` accepts. */
    constructor (hasher: Hasher, capacity: nat := INITIAL_CAPACITY)
      requires capacity < INITIAL_CAPACITY || And(capacity, capacity - 1) == 0
      ensures Valid() && fresh(Repr) && contents == map[] && this.hasher == hasher
      ensures this.capacity == if capacity < INITIAL_CAPACITY then INITIAL_CAPACITY else capacity
      ensures capacity <= INITIAL_CAPACITY ==> Tight()
    {
      this.hasher := hasher;
      this.capacity := if capacity < INITIAL_CAPACITY then INITIAL_CAPACITY else capacity;
      liveCount := 0;
      buckets := new ChainNode?[if capacity < INITIAL_CAPACITY then INITIAL_CAPACITY else capacity](_ => null);
      chains := seq(if capacity < INITIAL_CAPACITY then INITIAL_CAPACITY else capacity, _ => []);
      contents := map[];
      new;
      hide Consistent, And, Pow2;
      Repr := {this, buckets};
      GivenCapacity(capacity);
      NothingStored();
    }

    lemma NothingStored()
      requires Repr == {this, buckets} && IsCapacity(capacity) && buckets.Length == capacity == |chains|
      requires forall b :: 0 <= b < capacity ==> buckets[b] == null && chains[b] == []
      requires contents == map[] && liveCount == 0
      ensures Consistent()
    {
      hide Placed, AllKeys;
      NoChains(chains, hasher, capacity);
    }

    /** `__init__`, with None for its ValueError. */
    static method Create(hasher: Hasher, capacity: nat) returns (table: Option<ChainedHashTable>)
      ensures table.None? <==> capacity >= 8 && !IsPow2(capacity)
      ensures table.Some? ==>
        && fresh(table.value.Repr) && table.value.Valid() && table.value.contents == map[]
        && table.value.capacity == if capacity < 8 then 8 else capacity
    {
      if capacity >= INITIAL_CAPACITY {
        PowerOfTwoTest(capacity);
        if And(capacity, capacity - 1) != 0 {
          return None;
        }
      }
      var made := new ChainedHashTable(hasher, capacity);
      table := Some(made);
    }

    /** The walk along a bucket that `set`, `get` and `delete` make: the node that holds the
    key, with the node before it, and null when the walk runs off the end. */
    method Find(key: Text, hashCode: Hash32, index: nat) returns (previous: ChainNode?, current: ChainNode?, ghost i: nat)
      requires Consistent() && hashCode == hasher(key) && index < capacity && index == BucketIndex(hashCode, capacity)
      ensures i <= |chains[index]| && current == NodeAt(chains[index], i)
      ensures previous == if i == 0 then null else chains[index][i - 1]
      ensures current != null ==> current.key == key
      ensures current == null <==> key !in contents
    {
      hide Distinct, BucketIndex, IsCapacity, Keys, AllKeys;
      ghost var chain := chains[index];
      assert BucketHolds(index) && Homed(chain, index, hasher, capacity);
      previous, current, i := null, buckets[index], 0;
      while current != null && !(current.hashCode == hashCode && current.key == key)
        invariant i <= |chain| && current == NodeAt(chain, i)
        invariant previous == if i == 0 then null else chain[i - 1]
        invariant forall j :: 0 <= j < i ==> chain[j].key != key
        decreases |chain| - i
      {
        previous := current;
        current := current.next;
        i := i + 1;
      }
      if current == null {
        KeyAbsent(key, index);
      }
    }

    lemma KeyAbsent(key: Text, index: nat)
      requires Consistent() && index < capacity && index == BucketIndex(hasher(key), capacity)
      requires forall j :: 0 <= j < |chains[index]| ==> chains[index][j].key != key
      ensures key !in contents
    {
      InAllKeys(chains, key);
      forall b | 0 <= b < |chains| ensures key !in Keys(chains[b]) {
        assert Homed(chains[b], b, hasher, capacity);
      }
    }

    method Get(key: Text) returns (value: Option<Text>)
      requires Valid()
      ensures value == if key in contents then Some(contents[key]) else None
    {
      hide Distinct, BucketIndex, IsCapacity, Keys, AllKeys, Placed;
      assert IsCapacity(capacity) by { PlacedCapacity(chains, hasher, capacity); }
      BucketIndexBound(hasher(key), capacity);
      var index := BucketIndex(hasher(key), capacity);
      var _, current, i := Find(key, hasher(key), index);
      if current == null {
        return None;
      }
      assert BucketHolds(index) && current == chains[index][i];
      value := Some(current.value);
    }

    method Contains(key: Text) returns (found: bool)
      requires Valid()
      ensures found == (key in contents)
    {
      var value := Get(key);
      found := value.Some?;
    }

    /** Puts a new node at the front of its bucket. */
    method PushFront(index: nat, hashCode: Hash32, key: Text, value: Text)
      requires Consistent() && key !in contents && hashCode == hasher(key)
      requires index < capacity && index == BucketIndex(hashCode, capacity)
      modifies this`liveCount, this`chains, this`contents, this`Repr, buckets
      ensures Consistent() && fresh(Repr - old(Repr)) && contents == old(contents)[key := value]
      ensures liveCount == old(liveCount) + 1
    {
      hide Distinct, BucketIndex, IsCapacity, Keys, AllKeys, Placed, LinkedFrom, ValuesOf;
      assert BucketHolds(index);
      var node := new ChainNode(hashCode, key, value, buckets[index]);
      ghost var chain := [node] + chains[index];
      KeysAreContents(chains[index], contents);
      PlacedAfterPush(chains, hasher, capacity, index, node);
      AllKeysAfterUpdate(chains, index, chain);
      forall k | k in contents || k == key ensures k in AllKeys(chains[index := chain]) {
        ListedAfterPush(chains, index, node, k);
      }
      label Before:
      buckets[index] := node;
      chains := chains[index := chain];
      contents := contents[key := value];
      liveCount := liveCount + 1;
      Repr := Repr + {node};
      forall b | 0 <= b < capacity ensures BucketHolds(b) {
        assert old@Before(BucketHolds(b));
        if b == index {
          HoldsAfterPush(node, old@Before(chains[b]), old@Before(contents));
        } else {
          ValuesWithNew(chains[b], old@Before(contents), key, value);
        }
      }
    }

    /** Replaces the value in a node. */
    method Overwrite(index: nat, current: ChainNode, ghost i: nat, value: Text)
      requires Consistent() && index < capacity && i < |chains[index]| && current == chains[index][i]
      modifies this`contents, current`value
      ensures Consistent() && contents == old(contents)[current.key := value]
    {
      hide Distinct, BucketIndex, IsCapacity, Keys, AllKeys, Placed, LinkedFrom;
      forall b | 0 <= b < capacity ensures LinkedFrom(buckets[b], chains[b]) && ValuesOf(chains[b], contents) {
        assert BucketHolds(b);
      }
      assert ValuesOf(chains[index], contents) && current.key in contents;
      current.value := value;
      forall b | 0 <= b < capacity ensures ValuesOf(chains[b], contents[current.key := value]) {
        assert old(ValuesOf(chains[b], contents));
        forall j | 0 <= j < |chains[b]| ensures chains[b][j].key != current.key || (b == index && j == i) {
          if b != index || j != i {
            KeysDiffer(chains, hasher, capacity, b, j, index, i);
          }
        }
      }
      contents := contents[current.key := value];
    }

    /** The pointer surgery of `delete`: the bucket's links then skip node `i`. */
    method Bypass(index: nat, previous: ChainNode?, current: ChainNode, ghost i: nat)
      requires buckets.Length == capacity == |chains| && Placed(chains, hasher, capacity) && index < capacity
      requires forall b :: 0 <= b < capacity ==> LinkedFrom(buckets[b], chains[b])
      requires i < |chains[index]| && current == chains[index][i]
      requires previous == if i == 0 then null else chains[index][i - 1]
      modifies buckets, chains[index]`next
      ensures forall b :: 0 <= b < capacity ==>
        LinkedFrom(buckets[b], if b == index then Without(chains[b], i) else chains[b])
    {
      hide Distinct, BucketIndex, IsCapacity, Keys, Placed;
      ghost var chain := chains[index];
      assert LinkedFrom(buckets[index], chain);
      if previous == null {
        buckets[index] := current.next;
      } else {
        previous.next := current.next;
      }
      forall b | 0 <= b < capacity
        ensures LinkedFrom(buckets[b], if b == index then Without(chains[b], i) else chains[b])
      {
        assert old(LinkedFrom(buckets[b], chains[b]));
        forall j | 0 <= j < |chains[b]| && !(b == index && j + 1 == i)
          ensures chains[b][j].next == NodeAt(chains[b], j + 1)
        {
          if previous != null && chains[b][j] == previous {
            PlaceUnique(chains, hasher, capacity, b, j, index, i - 1);
          }
        }
        if b == index {
          SkipsOne(buckets[b], chain, i);
        }
      }
    }

    /** Takes a node out of its bucket. */
    method Unlink(index: nat, previous: ChainNode?, current: ChainNode, ghost i: nat)
      requires Consistent() && index < capacity && i < |chains[index]| && current == chains[index][i]
      requires previous == if i == 0 then null else chains[index][i - 1]
      modifies Repr
      ensures Consistent() && contents == old(contents) - {current.key} && Repr == old(Repr)
      ensures liveCount == old(liveCount) - 1 && capacity == old(capacity) && buckets == old(buckets)
    {
      hide Distinct, BucketIndex, IsCapacity, Keys, AllKeys, Placed, LinkedFrom, ValuesOf, Without;
      ghost var chain := Without(chains[index], i);
      PlacedAfterRemoval(chains, hasher, capacity, index, i);
      AllKeysAfterUpdate(chains, index, chain);
      forall k | k in contents && k != current.key ensures k in AllKeys(chains[index := chain]) {
        ListedAfterRemoval(chains, index, i, k);
      }
      forall b | 0 <= b < capacity ensures LinkedFrom(buckets[b], chains[b]) && ValuesOf(chains[b], contents) {
        assert BucketHolds(b);
      }
      Bypass(index, previous, current, i);
      forall b | 0 <= b < capacity
        ensures ValuesOf(if b == index then chain else chains[b], contents - {current.key})
      {
        ValuesWithout(chains, hasher, capacity, contents, index, i, b);
      }
      InWithout(chains[index], i);
      liveCount := liveCount - 1;
      chains := chains[index := chain];
      contents := contents - {current.key};
    }

    /** `_insert_rehashed`: a pair known to be new goes to the front of its bucket. */
    method InsertRehashed(hashCode: Hash32, key: Text, value: Text)
      requires Consistent() && key !in contents && hashCode == hasher(key)
      modifies this`liveCount, this`chains, this`contents, this`Repr, buckets
      ensures Consistent() && fresh(Repr - old(Repr)) && contents == old(contents)[key := value]
      ensures liveCount == old(liveCount) + 1
    {
      PlacedCapacity(chains, hasher, capacity);
      hide Footprint, Placed, BucketHolds, BucketIndex, IsCapacity, AllKeys;
      BucketIndexBound(hashCode, capacity);
      PushFront(BucketIndex(hashCode, capacity), hashCode, key, value);
    }

    /** Moves one old bucket, whose keys are all new to this table, over to it. */
    method RehashBucket(head: ChainNode?, ghost chain: seq<ChainNode>, ghost m: map<Text, Text>)
      requires Consistent() && LinkedFrom(head, chain) && ValuesOf(chain, m)
      requires forall i :: 0 <= i < |chain| ==> chain[i] !in Repr && chain[i].hashCode == hasher(chain[i].key)
      requires Distinct(Keys(chain)) && forall k :: k in Keys(chain) ==> k !in contents
      modifies this`liveCount, this`chains, this`contents, this`Repr, buckets
      ensures Consistent() && fresh(Repr - old(Repr))
      ensures liveCount == old(liveCount) + |chain|
      ensures Extends(old(contents), Keys(chain), m, contents)
    {
      hide Consistent, Keys, Distinct, Extends;
      var current, i := head, 0;
      ghost var ks := Keys(chain);
      NothingMoved(ks, contents, m);
      while current != null
        invariant i <= |chain| && current == NodeAt(chain, i)
        invariant Consistent() && fresh(Repr - old(Repr)) && liveCount == old(liveCount) + i
        invariant Extends(old(contents), ks[..i], m, contents)
        decreases |chain| - i
      {
        FreshKey(ks, i, old(contents), m, contents);
        InsertRehashed(current.hashCode, current.key, current.value);
        current := current.next;
        i := i + 1;
      }
      assert ks[..i] == ks;
    }

    /** New, empty buckets. */
    method Renew(newCapacity: nat)
      requires IsCapacity(newCapacity)
      modifies this
      ensures Consistent() && fresh(Repr - {this}) && contents == map[] && liveCount == 0 && capacity == newCapacity
      ensures fresh(buckets)
    {
      hide LinkedFrom, ValuesOf, Placed, BucketIndex, Keys, AllKeys, Distinct, NeedsGrow;
      capacity := newCapacity;
      liveCount := 0;
      buckets := new ChainNode?[newCapacity](_ => null);
      chains, contents, Repr := seq(newCapacity, _ => []), map[], {this, buckets};
      NoChains(chains, hasher, newCapacity);
      EmptyBuckets(buckets, chains);
    }

    /** Moves every pair into a fresh bucket array of the given capacity. */
    method Resize(requested: nat)
      requires Consistent() && (requested < INITIAL_CAPACITY || IsPow2(requested))
      modifies this
      ensures Consistent() && fresh(Repr - {this}) && contents == old(contents) && liveCount == old(liveCount)
      ensures capacity == if requested < INITIAL_CAPACITY then INITIAL_CAPACITY else requested
    {
      hide LinkedFrom, ValuesOf, Placed, BucketIndex, Keys, AllKeys, Distinct, NeedsGrow;
      var newCapacity := if requested < INITIAL_CAPACITY then INITIAL_CAPACITY else requested;
      assert IsCapacity(newCapacity) by { assert Pow2(3) == INITIAL_CAPACITY; }
      var oldBuckets := buckets;
      ghost var before, m, oldCapacity := chains, contents, capacity;
      forall b | 0 <= b < |before| ensures LinkedFrom(oldBuckets[b], before[b]) && ValuesOf(before[b], m) {
        assert BucketHolds(b);
      }
      NoKeys(before[..0]);
      Renew(newCapacity);
      hide Consistent;
      for b := 0 to oldBuckets.Length
        invariant Consistent() && capacity == newCapacity && fresh(Repr - {this}) && oldBuckets !in Repr
        invariant forall c :: 0 <= c < |before| ==> LinkedFrom(oldBuckets[c], before[c]) && ValuesOf(before[c], m)
        invariant liveCount == |AllKeys(before[..b])|
        invariant Extends(map[], AllKeys(before[..b]), m, contents)
      {
        RehashStep(before, hasher, oldCapacity, b, m, contents);
        RehashBucket(oldBuckets[b], before[b], m);
      }
      assert before[..|before|] == before;
    }

    /** Stores a value; true when the key is new. */
    method Set(key: Text, value: Text) returns (added: bool)
      requires Valid()
      modifies Repr
      ensures Valid() && fresh(Repr - old(Repr))
      ensures contents == old(contents)[key := value] && added == (key !in old(contents))
      ensures old(Tight()) ==> Tight()
      ensures 10 * liveCount <= 7 * capacity
    {
      hide BucketHolds, Placed, BucketIndex, AllKeys;
      PlacedCapacity(chains, hasher, capacity);
      BucketIndexBound(hasher(key), capacity);
      var hashCode := hasher(key);
      var index := BucketIndex(hashCode, capacity);
      var _, current, i := Find(key, hashCode, index);
      if current != null {
        Overwrite(index, current, i, value);
        return false;
      }
      PushFront(index, hashCode, key, value);
      if NeedsGrow(liveCount, capacity) {
        CapacityDoubles(capacity);
        Resize(capacity * 2);
      }
      added := true;
    }

    /** Removes a key; true when it was there. */
    method Delete(key: Text) returns (removed: bool)
      requires Valid()
      modifies Repr
      ensures Valid() && fresh(Repr - old(Repr))
      ensures contents == old(contents) - {key} && removed == (key in old(contents))
      ensures old(Tight()) ==> Tight() && (capacity <= 8 || capacity <= 5 * liveCount)
    {
      hide BucketHolds, Placed, BucketIndex, AllKeys;
      PlacedCapacity(chains, hasher, capacity);
      BucketIndexBound(hasher(key), capacity);
      var hashCode := hasher(key);
      var index := BucketIndex(hashCode, capacity);
      var previous, current, i := Find(key, hashCode, index);
      if current == null {
        assert contents - {key} == contents;
        return false;
      }
      Unlink(index, previous, current, i);
      if NeedsShrink(liveCount, capacity) {
        CapacityHalves(capacity);
        Resize(if INITIAL_CAPACITY > capacity / 2 then INITIAL_CAPACITY else capacity / 2);
      }
      removed := true;
    }

    /** The pairs, bucket by bucket. */
    method Items() returns (result: seq<(Text, Text)>)
      requires Valid()
      ensures ListsMap(result, contents)
    {
      hide Placed, IsCapacity, LinkedFrom, ValuesOf, Keys, AllKeys;
      result := [];
      NoKeys(chains[..0]);
      for b := 0 to buckets.Length
        invariant PairsFor(AllKeys(chains[..b]), contents, result)
      {
        assert BucketHolds(b);
        var bucket := BucketItems(buckets[b], chains[b], contents);
        AllKeysStep(chains, b);
        result := result + bucket;
      }
      assert chains[..|chains|] == chains;
      KeysListContents();
      PairsForLists(AllKeys(chains), contents, result);
    }

    method BucketItems(head: ChainNode?, ghost chain: seq<ChainNode>, ghost m: map<Text, Text>) returns (result: seq<(Text, Text)>)
      requires LinkedFrom(head, chain) && ValuesOf(chain, m)
      ensures PairsFor(Keys(chain), m, result)
    {
      hide PairsFor;
      var current := head;
      result := [];
      ghost var i := 0;
      NoPairs(m);
      while current != null
        invariant i <= |chain| && current == NodeAt(chain, i)
        invariant PairsFor(Keys(chain)[..i], m, result)
        decreases |chain| - i
      {
        PairsForSnoc(Keys(chain), i, m, result);
        result := result + [(current.key, current.value)];
        current := current.next;
        i := i + 1;
      }
      assert Keys(chain)[..|chain|] == Keys(chain);
    }

    method Len() returns (n: nat)
      requires Valid()
      ensures n == |contents|
    {
      KeysListContents();
      n := liveCount;
    }

    /** `AllKeys` lists the keys of `contents`, each once. */
    lemma KeysListContents()
      requires Consistent()
      ensures Distinct(AllKeys(chains)) && (forall k :: k in AllKeys(chains) <==> k in contents)
      ensures |AllKeys(chains)| == |contents|
    {
      hide Distinct, BucketIndex, IsCapacity, AllKeys;
      forall k | k in AllKeys(chains) ensures k in contents {
        InAllKeys(chains, k);
        var b :| 0 <= b < |chains| && k in Keys(chains[b]);
        assert BucketHolds(b);
        KeysAreContents(chains[b], contents);
      }
      assert chains[..|chains|] == chains;
      AllKeysDistinct(chains, hasher, capacity, |chains|);
      DistinctKeysSize(AllKeys(chains), contents.Keys);
    }
  }

  lemma {:induction false} DistinctKeysSize(ks: seq<Text>, s: set<Text>)
    requires Distinct(ks) && forall k :: k in ks <==> k in s
    ensures |ks| == |s|
  {
    if ks == [] {
      assert s == {};
    } else {
      var rest, last := ks[..|ks| - 1], ks[|ks| - 1];
      assert ks == rest + [last];
      DistinctKeysSize(rest, s - {last});
      assert |s| == |s - {last}| + 1;
    }
  }

  lemma AllKeysStep(chains: seq<seq<ChainNode>>, b: nat)
    requires b < |chains|
    ensures AllKeys(chains[..b + 1]) == AllKeys(chains[..b]) + Keys(chains[b])
  {
    assert chains[..b + 1][..b] == chains[..b];
  }

  ghost predicate PairsFor(ks: seq<Text>, m: map<Text, Text>, items: seq<(Text, Text)>) {
    |items| == |ks| && forall i :: 0 <= i < |ks| ==> ks[i] in m && items[i] == (ks[i], m[ks[i]])
  }

  lemma NoPairs(m: map<Text, Text>)
    ensures forall ks: seq<Text> :: ks == [] ==> PairsFor(ks, m, [])
  {
  }

  lemma PairsForSnoc(ks: seq<Text>, i: nat, m: map<Text, Text>, items: seq<(Text, Text)>)
    requires i < |ks| && ks[i] in m && PairsFor(ks[..i], m, items)
    ensures PairsFor(ks[..i + 1], m, items + [(ks[i], m[ks[i]])])
  {
    assert forall j :: 0 <= j < i ==> ks[..i][j] == ks[..i + 1][j];
  }

  lemma PairsForLists(ks: seq<Text>, m: map<Text, Text>, items: seq<(Text, Text)>)
    requires Distinct(ks) && |ks| == |m| && PairsFor(ks, m, items)
    ensures ListsMap(items, m)
  {
    forall i, j | 0 <= i < j < |items| ensures items[i].0 != items[j].0 {
      assert ks[i] != ks[j];
    }
  }

  /** `after` is `before` with the keys `ks` added, with their values from `m`. */
  ghost predicate Extends(before: map<Text, Text>, ks: seq<Text>, m: map<Text, Text>, after: map<Text, Text>) {
    && (forall k :: k in after <==> k in before || k in ks)
    && (forall k :: k in ks ==> k in m && after[k] == m[k])
    && (forall k :: k in before && k !in ks ==> after[k] == before[k])
  }

  lemma NothingMoved(ks: seq<Text>, now: map<Text, Text>, m: map<Text, Text>)
    ensures Extends(now, ks[..0], m, now)
  {
  }

  lemma FreshKey(ks: seq<Text>, i: nat, before: map<Text, Text>, m: map<Text, Text>, now: map<Text, Text>)
    requires Distinct(ks) && i < |ks| && ks[i] in m && ks[i] !in before
    requires Extends(before, ks[..i], m, now)
    ensures ks[i] !in now && Extends(before, ks[..i + 1], m, now[ks[i] := m[ks[i]]])
  {
    assert ks[..i + 1] == ks[..i] + [ks[i]];
    assert ks[i] !in ks[..i];
  }

  /** What moving bucket `b` needs, and what it achieves for the table as a whole. */
  lemma RehashStep(before: seq<seq<ChainNode>>, hasher: Hasher, capacity: nat, b: nat, m: map<Text, Text>, now: map<Text, Text>)
    requires Placed(before, hasher, capacity) && b < |before| && ValuesOf(before[b], m)
    requires Extends(map[], AllKeys(before[..b]), m, now)
    ensures forall i :: 0 <= i < |before[b]| ==> before[b][i].hashCode == hasher(before[b][i].key)
    ensures Distinct(Keys(before[b])) && forall k :: k in Keys(before[b]) ==> k !in now && k in m
    ensures |AllKeys(before[..b + 1])| == |AllKeys(before[..b])| + |before[b]|
    ensures forall after :: Extends(now, Keys(before[b]), m, after) ==> Extends(map[], AllKeys(before[..b + 1]), m, after)
  {
    assert Homed(before[b], b, hasher, capacity);
    var chain, ks := before[b], Keys(before[b]);
    forall k | k in ks ensures k !in now && k in m {
      var j :| 0 <= j < |chain| && ks[j] == k;
      KeyNotEarlier(before, hasher, capacity, b, j);
    }
    assert before[..b + 1][..b] == before[..b];
    assert AllKeys(before[..b + 1]) == AllKeys(before[..b]) + ks;
  }

  lemma EmptyBuckets(buckets: array<ChainNode?>, chains: seq<seq<ChainNode>>)
    requires buckets.Length == |chains|
    requires forall b :: 0 <= b < |chains| ==> buckets[b] == null && chains[b] == []
    ensures forall b :: 0 <= b < |chains| ==> LinkedFrom(buckets[b], chains[b]) && ValuesOf(chains[b], map[])
  {
  }

  lemma SkipsOne(head: ChainNode?, chain: seq<ChainNode>, i: nat)
    requires i < |chain| && head == if i == 0 then NodeAt(chain, 1) else chain[0]
    requires forall j :: 0 <= j < |chain| && j + 1 != i ==> chain[j].next == NodeAt(chain, j + 1)
    requires i > 0 ==> chain[i - 1].next == NodeAt(chain, i + 1)
    ensures LinkedFrom(head, Without(chain, i))
  {
    var after := Without(chain, i);
    forall j | 0 <= j < |after| ensures after[j].next == NodeAt(after, j + 1) {
      assert after[j] == chain[if j < i then j else j + 1];
    }
  }

  lemma InWithout(chain: seq<ChainNode>, i: nat)
    requires i < |chain|
    ensures |Without(chain, i)| == |chain| - 1
    ensures forall j :: 0 <= j < |Without(chain, i)| ==> Without(chain, i)[j] == chain[if j < i then j else j + 1]
  {
  }

  lemma ValuesWithout(chains: seq<seq<ChainNode>>, hasher: Hasher, capacity: nat, m: map<Text, Text>, index: nat, i: nat, b: nat)
    requires Placed(chains, hasher, capacity) && index < |chains| && i < |chains[index]| && b < |chains|
    requires ValuesOf(chains[b], m)
    ensures ValuesOf(if b == index then Without(chains[b], i) else chains[b], m - {chains[index][i].key})
  {
    var chain := if b == index then Without(chains[b], i) else chains[b];
    forall j | 0 <= j < |chain|
      ensures chain[j].key in m && m[chain[j].key] == chain[j].value && chain[j].key != chains[index][i].key
    {
      var l := if b == index && j >= i then j + 1 else j;
      assert chain[j] == chains[b][l];
      KeysDiffer(chains, hasher, capacity, b, l, index, i);
    }
  }

  lemma PlacedAfterRemoval(chains: seq<seq<ChainNode>>, hasher: Hasher, capacity: nat, b: nat, i: nat)
    requires Placed(chains, hasher, capacity) && b < |chains| && i < |chains[b]|
    ensures Placed(chains[b := Without(chains[b], i)], hasher, capacity)
  {
    var chain := Without(chains[b], i);
    assert Homed(chains[b], b, hasher, capacity);
    forall j | 0 <= j < |chain| ensures chain[j] == chains[b][if j < i then j else j + 1] {
    }
    forall j, l | 0 <= j < l < |chain| ensures Keys(chain)[j] != Keys(chain)[l] {
      assert Keys(chain)[j] == Keys(chains[b])[if j < i then j else j + 1];
      assert Keys(chain)[l] == Keys(chains[b])[if l < i then l else l + 1];
    }
  }

  lemma ListedAfterRemoval(chains: seq<seq<ChainNode>>, b: nat, i: nat, k: Text)
    requires b < |chains| && i < |chains[b]| && k in AllKeys(chains) && k != chains[b][i].key
    ensures k in AllKeys(chains[b := Without(chains[b], i)])
  {
    var after := chains[b := Without(chains[b], i)];
    InAllKeys(chains, k);
    InAllKeys(after, k);
    var c :| 0 <= c < |chains| && k in Keys(chains[c]);
    var j :| 0 <= j < |chains[c]| && Keys(chains[c])[j] == k;
    var m := if c == b && j > i then j - 1 else j;
    assert after[c][m] == chains[c][j];
    assert Keys(after[c])[m] == k;
  }

  lemma PlacedAfterPush(chains: seq<seq<ChainNode>>, hasher: Hasher, capacity: nat, b: nat, node: ChainNode)
    requires Placed(chains, hasher, capacity) && b < |chains| && node.key !in Keys(chains[b])
    requires node.hashCode == hasher(node.key) && b == BucketIndex(node.hashCode, capacity)
    ensures Placed(chains[b := [node] + chains[b]], hasher, capacity)
  {
    var chain := [node] + chains[b];
    assert Homed(chains[b], b, hasher, capacity);
    forall i, j | 0 <= i < j < |chain| ensures Keys(chain)[i] != Keys(chain)[j] {
      assert Keys(chain)[j] == Keys(chains[b])[j - 1];
      assert i > 0 ==> Keys(chain)[i] == Keys(chains[b])[i - 1];
    }
  }

  lemma ListedAfterPush(chains: seq<seq<ChainNode>>, b: nat, node: ChainNode, k: Text)
    requires b < |chains| && (k in AllKeys(chains) || k == node.key)
    ensures k in AllKeys(chains[b := [node] + chains[b]])
  {
    var after := chains[b := [node] + chains[b]];
    InAllKeys(chains, k);
    InAllKeys(after, k);
    if k == node.key {
      assert Keys(after[b])[0] == k;
    } else {
      var c :| 0 <= c < |chains| && k in Keys(chains[c]);
      var i :| 0 <= i < |chains[c]| && Keys(chains[c])[i] == k;
      assert Keys(after[c])[if c == b then i + 1 else i] == k;
    }
  }

  lemma HoldsAfterPush(node: ChainNode, chain: seq<ChainNode>, m: map<Text, Text>)
    requires LinkedFrom(node.next, chain) && ValuesOf(chain, m) && node.key !in m
    ensures LinkedFrom(node, [node] + chain) && ValuesOf([node] + chain, m[node.key := node.value])
  {
    var after := [node] + chain;
    forall i | 0 <= i < |after| ensures after[i].next == NodeAt(after, i + 1) {
      assert i > 0 ==> after[i] == chain[i - 1];
    }
    forall i | 0 <= i < |after|
      ensures after[i].key in m[node.key := node.value] && m[node.key := node.value][after[i].key] == after[i].value
    {
      assert i > 0 ==> after[i] == chain[i - 1];
    }
  }

  lemma KeysAreContents(chain: seq<ChainNode>, m: map<Text, Text>)
    requires ValuesOf(chain, m)
    ensures forall k :: k in Keys(chain) ==> k in m
  {
  }

  lemma ValuesWithNew(chain: seq<ChainNode>, m: map<Text, Text>, key: Text, value: Text)
    requires ValuesOf(chain, m) && key !in m
    ensures ValuesOf(chain, m[key := value])
  {
  }

  lemma PlacedCapacity(chains: seq<seq<ChainNode>>, hasher: Hasher, capacity: nat)
    requires Placed(chains, hasher, capacity)
    ensures IsCapacity(capacity) && capacity > 0
  {
  }

  lemma {:induction false} NoKeys(chains: seq<seq<ChainNode>>)
    requires forall b :: 0 <= b < |chains| ==> chains[b] == []
    ensures AllKeys(chains) == []
  {
    if chains != [] {
      NoKeys(chains[..|chains| - 1]);
    }
  }

  /** What `__init__` makes of a capacity it accepts. */
  lemma GivenCapacity(capacity: nat)
    requires capacity < INITIAL_CAPACITY || And(capacity, capacity - 1) == 0
    ensures IsCapacity(if capacity < INITIAL_CAPACITY then INITIAL_CAPACITY else capacity)
  {
    assert Pow2(3) == INITIAL_CAPACITY;
    if capacity >= INITIAL_CAPACITY {
      PowerOfTwoTest(capacity);
    }
  }

  lemma NoChains(chains: seq<seq<ChainNode>>, hasher: Hasher, capacity: nat)
    requires IsCapacity(capacity) && |chains| == capacity && forall b :: 0 <= b < |chains| ==> chains[b] == []
    ensures Placed(chains, hasher, capacity) && AllKeys(chains) == []
  {
    NoKeys(chains);
  }
}
