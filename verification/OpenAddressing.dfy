/** The open-addressing hash table: double hashing, tombstones, growing and shrinking. */
module OpenAddressing {
  import opened Ordering
  import opened Bits
  import opened ProbeSequence

  datatype Slot = Empty | Occupied(hashCode: Hash32, key: Text, value: Text) | Tombstone

  type Hasher = Text -> Hash32

  /** Slot `i` is on the probe path of `hashCode`, with no empty slot before it. */
  ghost predicate ReachedAfter(s: seq<Slot>, hashCode: Hash32, i: nat, n: nat)
    requires IsCapacity(|s|)
  {
    && n < |s| && ProbeIndex(hashCode, |s|, n) == i
    && forall q: nat :: q < n ==> !SlotAt(s, hashCode, q).Empty?
  }

  ghost predicate Reachable(s: seq<Slot>, hashCode: Hash32, i: nat)
    requires IsCapacity(|s|)
  {
    exists n: nat :: ReachedAfter(s, hashCode, i, n)
  }

  /** What the probe sees after `n` steps. */
  function SlotAt(s: seq<Slot>, hashCode: Hash32, n: nat): (slot: Slot)
    requires IsCapacity(|s|)
  {
    ProbeIndexBound(hashCode, |s|, n);
    s[ProbeIndex(hashCode, |s|, n)]
  }

  ghost predicate NoKeyTwice(s: seq<Slot>) {
    forall i, j :: 0 <= i < j < |s| && s[i].Occupied? && s[j].Occupied? ==> s[i].key != s[j].key
  }

  /** Occupied slots can be found by probing for their key, and no key is stored twice. */
  ghost predicate Sound(s: seq<Slot>, hasher: Hasher) {
    && IsCapacity(|s|) && NoKeyTwice(s)
    && forall i :: 0 <= i < |s| && s[i].Occupied? ==>
      s[i].hashCode == hasher(s[i].key) && Reachable(s, s[i].hashCode, i)
  }

  /** The pairs stored, in slot order. */
  function Pairs(s: seq<Slot>): seq<(Text, Text)> {
    if s == [] then []
    else
      var last := s[|s| - 1];
      Pairs(s[..|s| - 1]) + if last.Occupied? then [(last.key, last.value)] else []
  }

  function LiveIn(s: seq<Slot>): nat {
    if s == [] then 0 else LiveIn(s[..|s| - 1]) + if s[|s| - 1].Occupied? then 1 else 0
  }

  /** Occupied slots and tombstones. */
  function UsedIn(s: seq<Slot>): nat {
    if s == [] then 0 else UsedIn(s[..|s| - 1]) + if s[|s| - 1].Empty? then 0 else 1
  }

  ghost predicate Stored(s: seq<Slot>, k: Text) {
    exists i :: 0 <= i < |s| && s[i].Occupied? && s[i].key == k
  }

  ghost predicate Represents(s: seq<Slot>, m: map<Text, Text>) {
    && (forall i :: 0 <= i < |s| && s[i].Occupied? ==> s[i].key in m && m[s[i].key] == s[i].value)
    && (forall k :: k in m ==> Stored(s, k))
  }

  /** A listing of a map that mentions every pair exactly once. */
  ghost predicate ListsMap(items: seq<(Text, Text)>, m: map<Text, Text>) {
    && |items| == |m|
    && (forall i :: 0 <= i < |items| ==> items[i].0 in m && m[items[i].0] == items[i].1)
    && (forall i, j :: 0 <= i < j < |items| ==> items[i].0 != items[j].0)
  }

  // ----- counting -----

  lemma {:induction false} CountsAfterUpdate(s: seq<Slot>, i: nat, slot: Slot)
    requires i < |s|
    ensures LiveIn(s[i := slot]) == LiveIn(s) - (if s[i].Occupied? then 1 else 0) + (if slot.Occupied? then 1 else 0)
    ensures UsedIn(s[i := slot]) == UsedIn(s) - (if s[i].Empty? then 0 else 1) + (if slot.Empty? then 0 else 1)
  {
    var last := |s| - 1;
    if i == last {
      assert s[i := slot][..last] == s[..last];
    } else {
      assert s[i := slot][..last] == s[..last][i := slot];
      CountsAfterUpdate(s[..last], i, slot);
    }
  }

  lemma {:induction false} CountBounds(s: seq<Slot>)
    ensures LiveIn(s) <= UsedIn(s) <= |s|
    ensures UsedIn(s) < |s| ==> exists i :: 0 <= i < |s| && s[i].Empty?
    ensures (forall i :: 0 <= i < |s| ==> s[i].Empty?) ==> UsedIn(s) == 0
  {
    if s != [] {
      CountBounds(s[..|s| - 1]);
    }
  }

  lemma {:induction false} CountsGrow(s: seq<Slot>, n: nat)
    requires n <= |s|
    ensures LiveIn(s[..n]) <= LiveIn(s)
  {
    if n < |s| {
      assert s[..|s| - 1][..n] == s[..n];
      CountsGrow(s[..|s| - 1], n);
    } else {
      assert s[..n] == s;
    }
  }

  // ----- probing -----

  lemma ReachableKept(s: seq<Slot>, t: seq<Slot>, hashCode: Hash32, i: nat)
    requires IsCapacity(|s|) && |t| == |s| && Reachable(s, hashCode, i)
    requires forall j :: 0 <= j < |s| && t[j].Empty? ==> s[j].Empty?
    ensures Reachable(t, hashCode, i)
  {
    var n: nat :| ReachedAfter(s, hashCode, i, n);
    forall q: nat | q < n ensures !SlotAt(t, hashCode, q).Empty? {
      assert !SlotAt(s, hashCode, q).Empty?;
      ProbeIndexBound(hashCode, |s|, q);
    }
    assert ReachedAfter(t, hashCode, i, n);
  }

  /** The first `n` probes met neither an empty slot nor the key. */
  ghost predicate PathClear(s: seq<Slot>, hashCode: Hash32, key: Text, n: nat)
    requires IsCapacity(|s|)
  {
    forall q: nat :: q < n ==>
      !SlotAt(s, hashCode, q).Empty? && !(SlotAt(s, hashCode, q).Occupied? && SlotAt(s, hashCode, q).key == key)
  }

  /** One more probe, over a slot that does not settle the search. */
  lemma PathStep(s: seq<Slot>, hashCode: Hash32, key: Text, n: nat, i: nat)
    requires IsCapacity(|s|) && PathClear(s, hashCode, key, n) && n < |s| && i == ProbeIndex(hashCode, |s|, n)
    ensures i < |s| && ReachedAfter(s, hashCode, i, n) && SlotAt(s, hashCode, n) == s[i]
    ensures !s[i].Empty? && !(s[i].Occupied? && s[i].key == key) ==> PathClear(s, hashCode, key, n + 1)
  {
    ProbeIndexBound(hashCode, |s|, n);
    assert SlotAt(s, hashCode, n) == s[i];
  }

  lemma NoProbes(s: seq<Slot>, hashCode: Hash32, key: Text)
    requires IsCapacity(|s|)
    ensures PathClear(s, hashCode, key, 0)
  {
  }

  lemma PathNotClear(s: seq<Slot>, hashCode: Hash32, key: Text)
    requires IsCapacity(|s|) && UsedIn(s) < |s|
    ensures !PathClear(s, hashCode, key, |s|)
  {
    EmptyIsMet(s, hashCode);
  }

  /** A probe that meets an empty slot, or has looked everywhere, without meeting the key
  has shown that the key is not stored. */
  lemma NotStored(s: seq<Slot>, hasher: Hasher, key: Text, n: nat)
    requires Sound(s, hasher) && n <= |s| && PathClear(s, hasher(key), key, n)
    requires n < |s| ==> SlotAt(s, hasher(key), n).Empty?
    ensures !Stored(s, key)
  {
    forall i | 0 <= i < |s| && s[i].Occupied? ensures s[i].key != key {
      if s[i].key == key {
        var m: nat :| ReachedAfter(s, hasher(key), i, m);
        SlotReached(s, hasher(key), i, m);
      }
    }
  }

  lemma SlotReached(s: seq<Slot>, hashCode: Hash32, i: nat, n: nat)
    requires IsCapacity(|s|) && i < |s| && ReachedAfter(s, hashCode, i, n)
    ensures SlotAt(s, hashCode, n) == s[i]
  {
  }

  /** While some slot is empty, a probe meets one within a round. */
  lemma EmptyIsMet(s: seq<Slot>, hashCode: Hash32)
    requires IsCapacity(|s|) && UsedIn(s) < |s|
    ensures exists n: nat :: n < |s| && SlotAt(s, hashCode, n).Empty?
  {
    CountBounds(s);
    var i :| 0 <= i < |s| && s[i].Empty?;
    ProbeCovers(hashCode, |s|, i);
    var n: nat :| n < |s| && ProbeIndex(hashCode, |s|, n) == i;
    assert SlotAt(s, hashCode, n).Empty?;
  }

  // ----- single-slot changes -----

  lemma PutKeepsSound(s: seq<Slot>, hasher: Hasher, m: map<Text, Text>, i: nat, key: Text, value: Text)
    requires Sound(s, hasher) && Represents(s, m) && key !in m
    requires i < |s| && !s[i].Occupied? && Reachable(s, hasher(key), i)
    ensures var t := s[i := Occupied(hasher(key), key, value)];
      Sound(t, hasher) && Represents(t, m[key := value])
  {
    var t := s[i := Occupied(hasher(key), key, value)];
    forall j | 0 <= j < |t| && t[j].Occupied? ensures t[j].hashCode == hasher(t[j].key) && Reachable(t, t[j].hashCode, j) {
      ReachableKept(s, t, t[j].hashCode, j);
    }
    StoredAfter(s, t, m, m[key := value], i);
  }

  lemma ReplaceKeepsSound(s: seq<Slot>, hasher: Hasher, m: map<Text, Text>, i: nat, value: Text)
    requires Sound(s, hasher) && Represents(s, m) && i < |s| && s[i].Occupied?
    ensures var t := s[i := s[i].(value := value)];
      Sound(t, hasher) && Represents(t, m[s[i].key := value])
  {
    var t := s[i := s[i].(value := value)];
    forall j | 0 <= j < |t| && t[j].Occupied? ensures t[j].hashCode == hasher(t[j].key) && Reachable(t, t[j].hashCode, j) {
      ReachableKept(s, t, t[j].hashCode, j);
    }
    StoredAfter(s, t, m, m[s[i].key := value], i);
  }

  lemma EraseKeepsSound(s: seq<Slot>, hasher: Hasher, m: map<Text, Text>, i: nat)
    requires Sound(s, hasher) && Represents(s, m) && i < |s| && s[i].Occupied?
    ensures var t := s[i := Tombstone];
      Sound(t, hasher) && Represents(t, m - {s[i].key})
  {
    var t := s[i := Tombstone];
    forall j | 0 <= j < |t| && t[j].Occupied? ensures t[j].hashCode == hasher(t[j].key) && Reachable(t, t[j].hashCode, j) {
      ReachableKept(s, t, t[j].hashCode, j);
    }
    StoredAfter(s, t, m, m - {s[i].key}, i);
    forall j | 0 <= j < |t| && t[j].Occupied? ensures t[j].key in m - {s[i].key} {
      assert s[j].key != s[i].key;
    }
  }

  /** Keys of untouched slots stay stored. */
  lemma StoredAfter(s: seq<Slot>, t: seq<Slot>, m: map<Text, Text>, n: map<Text, Text>, i: nat)
    requires i < |s| == |t| && t == s[i := t[i]] && Represents(s, m)
    requires forall k :: k in n ==> (k in m && !(s[i].Occupied? && s[i].key == k)) || (t[i].Occupied? && t[i].key == k)
    ensures forall k :: k in n ==> Stored(t, k)
  {
    forall k | k in n ensures Stored(t, k) {
      if t[i].Occupied? && t[i].key == k {
      } else {
        var j :| 0 <= j < |s| && s[j].Occupied? && s[j].key == k;
        assert t[j] == s[j];
      }
    }
  }

  // ----- listing -----

  lemma RepresentsUnique(s: seq<Slot>, m: map<Text, Text>, n: map<Text, Text>)
    requires Represents(s, m) && Represents(s, n)
    ensures m == n
  {
    assert forall k :: k in m ==> Stored(s, k);
    assert forall k :: k in n ==> Stored(s, k);
  }

  lemma RepresentsPrefix(s: seq<Slot>, m: map<Text, Text>)
    requires s != [] && NoKeyTwice(s) && Represents(s, m)
    ensures var last := s[|s| - 1];
      && NoKeyTwice(s[..|s| - 1])
      && Represents(s[..|s| - 1], if last.Occupied? then m - {last.key} else m)
  {
    var last, t := s[|s| - 1], s[..|s| - 1];
    var n := if last.Occupied? then m - {last.key} else m;
    forall k | k in n ensures Stored(t, k) {
      var j :| 0 <= j < |s| && s[j].Occupied? && s[j].key == k;
      assert t[j] == s[j];
    }
  }

  lemma ListsOneMore(items: seq<(Text, Text)>, m: map<Text, Text>, key: Text, value: Text)
    requires ListsMap(items, m) && key !in m
    ensures ListsMap(items + [(key, value)], m[key := value]) && |m[key := value]| == |m| + 1
  {
    assert m[key := value].Keys == m.Keys + {key};
  }

  /** `items` lists every pair of the table exactly once. */
  lemma {:induction false} PairsListContents(s: seq<Slot>, m: map<Text, Text>)
    requires NoKeyTwice(s) && Represents(s, m)
    ensures ListsMap(Pairs(s), m) && |Pairs(s)| == LiveIn(s) == |m|
  {
    if s == [] {
      assert forall k :: k in m ==> Stored(s, k);
      assert m == map[];
    } else {
      var last, t := s[|s| - 1], s[..|s| - 1];
      RepresentsPrefix(s, m);
      if last.Occupied? {
        var n := m - {last.key};
        assert m == n[last.key := last.value];
        hide ListsMap, Represents, NoKeyTwice;
        PairsListContents(t, n);
        ListsOneMore(Pairs(t), n, last.key, last.value);
      } else {
        hide ListsMap, Represents, NoKeyTwice;
        PairsListContents(t, m);
        assert Pairs(s) == Pairs(t);
      }
    }
  }

  // ----- the table -----

  /** The load-factor test `used / capacity > 0.7`, and `live / capacity < 0.2`, in
  integers; neither float comparison can be off at a power-of-two capacity. */
  predicate NeedsGrow(used: nat, capacity: nat) {
    10 * used > 7 * capacity
  }

  predicate NeedsShrink(live: nat, capacity: nat) {
    capacity > INITIAL_CAPACITY && 5 * live < capacity
  }

  class OpenAddressHashTable {
    const hasher: Hasher
    var capacity: nat
    var liveCount: nat
    var used: nat
    var slots: array<Slot>
    ghost var contents: map<Text, Text>

    /** The table holds `contents` and counts it right. */
    ghost predicate Consistent()
      reads this, slots
    {
      && slots.Length == capacity
      && Sound(slots[..], hasher) && Represents(slots[..], contents)
      && liveCount == LiveIn(slots[..]) && used == UsedIn(slots[..])
    }

    /** At rest at least three slots in ten are empty. */
    ghost predicate Valid()
      reads this, slots
    {
      Consistent() && !NeedsGrow(used, capacity)
    }

    /** The space bound of a table that started at the default capacity. */
    ghost predicate Tight()
      reads this
    {
      && (capacity <= 16 || capacity <= 10 * liveCount)
      && (capacity > INITIAL_CAPACITY && used > liveCount ==> !NeedsShrink(liveCount, capacity))
    }

    /** For the capacities `__init__` accepts. */
    constructor (hasher: Hasher, capacity: nat := INITIAL_CAPACITY)
      requires capacity < INITIAL_CAPACITY || And(capacity, capacity - 1) == 0
      ensures Valid() && fresh(slots) && contents == map[] && this.hasher == hasher
      ensures this.capacity == if capacity < INITIAL_CAPACITY then INITIAL_CAPACITY else capacity
      ensures capacity <= INITIAL_CAPACITY ==> Tight()
    {
      this.hasher := hasher;
      this.capacity := if capacity < INITIAL_CAPACITY then INITIAL_CAPACITY else capacity;
      liveCount, used := 0, 0;
      slots := new Slot[if capacity < INITIAL_CAPACITY then INITIAL_CAPACITY else capacity](_ => Empty);
      contents := map[];
      new;
      assert Pow2(3) == INITIAL_CAPACITY;
      if capacity >= INITIAL_CAPACITY {
        PowerOfTwoTest(capacity);
      }
      AllEmpty(slots[..]);
    }

    /** `__init__`, with None for its ValueError. */
    static method Create(hasher: Hasher, capacity: nat) returns (table: Option<OpenAddressHashTable>)
      ensures table.None? <==> capacity >= 8 && !IsPow2(capacity)
      ensures table.Some? ==>
        && fresh(table.value) && fresh(table.value.slots) && table.value.Valid() && table.value.contents == map[]
        && table.value.capacity == if capacity < 8 then 8 else capacity
    {
      if capacity >= INITIAL_CAPACITY {
        PowerOfTwoTest(capacity);
        if And(capacity, capacity - 1) != 0 {
          return None;
        }
      }
      var made := new OpenAddressHashTable(hasher, capacity);
      table := Some(made);
    }

    /** The slot that holds the key, or else the slot where it would go: the first tombstone
    on its path, failing that the empty slot that ends the path. */
    method FindSlot(key: Text, hashCode: Hash32) returns (existing: Option<nat>, insert: Option<nat>)
      requires slots.Length == capacity && Sound(slots[..], hasher) && hashCode == hasher(key)
      ensures existing.Some? ==>
        existing.value < capacity && slots[existing.value].Occupied? && slots[existing.value].key == key
      ensures existing.None? ==> !Stored(slots[..], key)
      ensures insert.Some? ==>
        && existing.None? && insert.value < capacity
        && !slots[insert.value].Occupied? && Reachable(slots[..], hashCode, insert.value)
      ensures existing.None? && UsedIn(slots[..]) < capacity ==> insert.Some?
    {
      hide UsedIn, Stored, IsCapacity, ProbeIndex, ProbeStep, HomeIndex, Sound, SlotAt, PathClear, ReachedAfter;
      ghost var s := slots[..];
      SoundCapacity(s, hasher);
      NoProbes(s, hashCode, key);
      var startIndex := HomeIndex(hashCode, capacity);
      var step := ProbeStep(hashCode, capacity);
      var firstTombstone: Option<nat> := None;
      var probeCount := 0;
      while probeCount < capacity
        invariant probeCount <= capacity && PathClear(s, hashCode, key, probeCount)
        invariant firstTombstone.Some? ==>
          && firstTombstone.value < capacity && s[firstTombstone.value].Tombstone?
          && Reachable(s, hashCode, firstTombstone.value)
      {
        var index := And(Offset(startIndex, probeCount, step), capacity - 1);
        ProbeIndexSteps(hashCode, capacity, probeCount);
        PathStep(s, hashCode, key, probeCount, index);
        var slot := slots[index];
        if slot.Empty? {
          NotStored(s, hasher, key, probeCount);
          return None, if firstTombstone.Some? then firstTombstone else Some(index);
        }
        if slot.Tombstone? {
          if firstTombstone.None? {
            firstTombstone := Some(index);
          }
        } else {
          SoundHash(s, hasher, index);
          if slot.hashCode == hashCode && slot.key == key {
            return Some(index), None;
          }
        }
        probeCount := probeCount + 1;
      }
      NotStored(s, hasher, key, capacity);
      if UsedIn(s) < capacity {
        PathNotClear(s, hashCode, key);
      }
      return None, firstTombstone;
    }

    /** Takes a free slot on the key's path. */
    method Occupy(index: nat, hashCode: Hash32, key: Text, value: Text)
      requires Consistent() && key !in contents && hashCode == hasher(key)
      requires index < capacity && !slots[index].Occupied? && Reachable(slots[..], hashCode, index)
      modifies this`liveCount, this`used, this`contents, slots
      ensures Consistent() && contents == old(contents)[key := value]
      ensures liveCount == old(liveCount) + 1
      ensures used == old(used) + if old(slots[index]).Empty? then 1 else 0
    {
      hide UsedIn, LiveIn, Stored, IsCapacity, Reachable, Sound, Represents;
      ghost var s, slot := slots[..], Occupied(hashCode, key, value);
      PutKeepsSound(s, hasher, contents, index, key, value);
      CountsAfterUpdate(s, index, slot);
      var wasEmpty := slots[index].Empty?;
      slots[index] := Occupied(hashCode, key, value);
      assert slots[..] == s[index := slot];
      liveCount := liveCount + 1;
      if wasEmpty {
        used := used + 1;
      }
      contents := contents[key := value];
    }

    /** The probe of `_insert_rehashed`. The path of an unfilled table always has an empty
    slot, so the source's "rehash insert failed" never happens. */
    method FindEmpty(hashCode: Hash32) returns (index: nat)
      requires slots.Length == capacity && IsCapacity(capacity) && UsedIn(slots[..]) < capacity
      ensures index < capacity && slots[index].Empty? && Reachable(slots[..], hashCode, index)
    {
      hide UsedIn, IsCapacity, ProbeIndex, ProbeStep, HomeIndex;
      ghost var s := slots[..];
      EmptyIsMet(s, hashCode);
      var startIndex := HomeIndex(hashCode, capacity);
      var step := ProbeStep(hashCode, capacity);
      var probeCount := 0;
      while probeCount < capacity
        invariant probeCount <= capacity
        invariant forall q: nat :: q < probeCount ==> !SlotAt(s, hashCode, q).Empty?
      {
        index := And(Offset(startIndex, probeCount, step), capacity - 1);
        ProbeIndexSteps(hashCode, capacity, probeCount);
        ProbeIndexBound(hashCode, capacity, probeCount);
        assert slots[index] == SlotAt(s, hashCode, probeCount);
        if slots[index].Empty? {
          assert ReachedAfter(s, hashCode, index, probeCount);
          return;
        }
        probeCount := probeCount + 1;
      }
      assert false;
    }

    method InsertRehashed(hashCode: Hash32, key: Text, value: Text)
      requires Consistent() && used < capacity && key !in contents && hashCode == hasher(key)
      modifies this`liveCount, this`used, this`contents, slots
      ensures Consistent() && contents == old(contents)[key := value]
      ensures liveCount == old(liveCount) + 1 && used == old(used) + 1
    {
      hide UsedIn, LiveIn, Stored, Sound, Represents, Reachable;
      SoundCapacity(slots[..], hasher);
      var index := FindEmpty(hashCode);
      Occupy(index, hashCode, key, value);
    }

    /** Moves every pair into a fresh table of the given capacity, leaving tombstones behind. */
    method Resize(requested: nat)
      requires Consistent() && liveCount < if requested < INITIAL_CAPACITY then INITIAL_CAPACITY else requested
      requires requested < INITIAL_CAPACITY || IsPow2(requested)
      modifies this
      ensures Consistent() && fresh(slots) && contents == old(contents)
      ensures capacity == if requested < INITIAL_CAPACITY then INITIAL_CAPACITY else requested
      ensures used == liveCount == old(liveCount)
    {
      hide UsedIn, LiveIn, Stored, Represents, Sound, NoKeyTwice;
      var newCapacity := if requested < INITIAL_CAPACITY then INITIAL_CAPACITY else requested;
      assert IsCapacity(newCapacity) by { assert Pow2(3) == INITIAL_CAPACITY; }
      var oldSlots := slots;
      ghost var old', m := slots[..], contents;
      capacity := newCapacity;
      liveCount := 0;
      used := 0;
      slots := new Slot[newCapacity](_ => Empty);
      contents := map[];
      EmptyTable(slots[..], hasher);
      NothingYet(old', m);
      for i := 0 to oldSlots.Length
        invariant oldSlots[..] == old' && fresh(slots) && slots != oldSlots
        invariant Consistent() && capacity == newCapacity
        invariant used == liveCount == LiveIn(old'[..i])
        invariant Represents(old'[..i], contents)
      {
        OneMoreSlot(old', hasher, i, contents);
        CountsGrow(old', i);
        var slot := oldSlots[i];
        if slot.Occupied? {
          InsertRehashed(slot.hashCode, slot.key, slot.value);
        }
      }
      assert old'[..oldSlots.Length] == old';
      RepresentsUnique(old', contents, m);
    }

    /** Stores a value; true when the key is new. The source's resize-and-retry branch asks
    for `insert` to be None, which an unfilled table rules out. */
    method Set(key: Text, value: Text) returns (added: bool)
      requires Valid()
      modifies this, slots
      ensures Valid() && (slots == old(slots) || fresh(slots))
      ensures contents == old(contents)[key := value] && added == (key !in old(contents))
      ensures old(Tight()) ==> Tight()
      ensures 10 * used <= 7 * capacity
    {
      hide UsedIn, LiveIn, Sound, Represents, Stored, Reachable;
      var hashCode := hasher(key);
      SoundCapacity(slots[..], hasher);
      CountBounds(slots[..]);
      StoredIsContent(slots[..], contents, key);
      var existing, insert := FindSlot(key, hashCode);
      if existing.Some? {
        ContentAt(slots[..], contents, existing.value);
        Overwrite(existing.value, value);
        return false;
      }
      Occupy(insert.value, hashCode, key, value);
      if NeedsGrow(used, capacity) {
        CountBounds(slots[..]);
        SoundCapacity(slots[..], hasher);
        CapacityDoubles(capacity);
        Resize(capacity * 2);
      }
      added := true;
    }

    method Overwrite(index: nat, value: Text)
      requires Valid() && index < capacity && slots[index].Occupied?
      modifies this`contents, slots
      ensures Valid() && contents == old(contents)[old(slots[index].key) := value]
    {
      hide UsedIn, LiveIn, Sound, Represents, Stored;
      ghost var s := slots[..];
      ReplaceKeepsSound(s, hasher, contents, index, value);
      CountsAfterUpdate(s, index, s[index].(value := value));
      contents := contents[slots[index].key := value];
      slots[index] := slots[index].(value := value);
      assert slots[..] == s[index := s[index].(value := value)];
    }

    method Get(key: Text) returns (value: Option<Text>)
      requires Valid()
      ensures value == if key in contents then Some(contents[key]) else None
    {
      hide UsedIn, LiveIn, Sound, Represents, Stored, Reachable;
      StoredIsContent(slots[..], contents, key);
      var existing, _ := FindSlot(key, hasher(key));
      if existing.None? {
        return None;
      }
      ContentAt(slots[..], contents, existing.value);
      value := Some(slots[existing.value].value);
    }

    method Contains(key: Text) returns (found: bool)
      requires Valid()
      ensures found == (key in contents)
    {
      var value := Get(key);
      found := value.Some?;
    }

    /** Removes a key, leaving a tombstone; true when it was there. */
    method Delete(key: Text) returns (removed: bool)
      requires Valid()
      modifies this, slots
      ensures Valid() && (slots == old(slots) || fresh(slots))
      ensures contents == old(contents) - {key} && removed == (key in old(contents))
      ensures old(Tight()) ==> Tight() && (capacity <= 16 || capacity <= 10 * liveCount)
    {
      hide UsedIn, LiveIn, Sound, Represents, Stored, Reachable;
      SoundCapacity(slots[..], hasher);
      StoredIsContent(slots[..], contents, key);
      var existing, _ := FindSlot(key, hasher(key));
      if existing.None? {
        assert contents - {key} == contents;
        return false;
      }
      ContentAt(slots[..], contents, existing.value);
      Erase(existing.value);
      if NeedsShrink(liveCount, capacity) {
        SoundCapacity(slots[..], hasher);
        CapacityHalves(capacity);
        Resize(if INITIAL_CAPACITY > capacity / 2 then INITIAL_CAPACITY else capacity / 2);
      }
      removed := true;
    }

    method Erase(index: nat)
      requires Valid() && index < capacity && slots[index].Occupied?
      modifies this`liveCount, this`contents, slots
      ensures Valid() && contents == old(contents) - {old(slots[index].key)}
      ensures liveCount == old(liveCount) - 1
    {
      hide UsedIn, Sound, Represents, Stored;
      ghost var s := slots[..];
      EraseKeepsSound(s, hasher, contents, index);
      CountsAfterUpdate(s, index, Tombstone);
      contents := contents - {slots[index].key};
      slots[index] := Tombstone;
      assert slots[..] == s[index := Tombstone];
      liveCount := liveCount - 1;
    }

    method Items() returns (result: seq<(Text, Text)>)
      requires Valid()
      ensures ListsMap(result, contents)
    {
      hide UsedIn, LiveIn, Represents, Reachable, Stored, ListsMap;
      result := [];
      for i := 0 to slots.Length
        invariant result == Pairs(slots[..i])
      {
        var slot := slots[i];
        assert slots[..i + 1][..i] == slots[..i];
        if slot.Occupied? {
          result := result + [(slot.key, slot.value)];
        }
      }
      assert slots[..slots.Length] == slots[..];
      PairsListContents(slots[..], contents);
    }

    method Len() returns (n: nat)
      requires Valid()
      ensures n == |contents|
    {
      PairsListContents(slots[..], contents);
      n := liveCount;
    }
  }

  lemma EmptyTable(s: seq<Slot>, hasher: Hasher)
    requires IsCapacity(|s|) && forall i :: 0 <= i < |s| ==> s[i].Empty?
    ensures Sound(s, hasher) && Represents(s, map[]) && LiveIn(s) == UsedIn(s) == 0
  {
    CountBounds(s);
  }

  lemma NothingYet(s: seq<Slot>, m: map<Text, Text>)
    ensures Represents(s[..0], map[]) && LiveIn(s[..0]) == 0
  {
  }

  /** Rehashing slot `i` after the slots before it: its key is new, and adding it keeps
  step with the old table. */
  lemma OneMoreSlot(s: seq<Slot>, hasher: Hasher, i: nat, m: map<Text, Text>)
    requires Sound(s, hasher) && i < |s| && Represents(s[..i], m)
    ensures s[i].Occupied? ==> s[i].key !in m && s[i].hashCode == hasher(s[i].key)
    ensures Represents(s[..i + 1], if s[i].Occupied? then m[s[i].key := s[i].value] else m)
    ensures LiveIn(s[..i + 1]) == LiveIn(s[..i]) + if s[i].Occupied? then 1 else 0
  {
    hide Represents, Reachable;
    assert s[..i + 1][..i] == s[..i];
    if s[i].Occupied? {
      StoredIsContent(s[..i], m, s[i].key);
      assert forall j :: 0 <= j < i ==> s[..i][j] == s[j];
    }
    RepresentsMore(s, i, m);
  }

  lemma RepresentsMore(s: seq<Slot>, i: nat, m: map<Text, Text>)
    requires i < |s| && Represents(s[..i], m) && (s[i].Occupied? ==> s[i].key !in m)
    ensures Represents(s[..i + 1], if s[i].Occupied? then m[s[i].key := s[i].value] else m)
  {
    var t := s[..i + 1];
    assert forall j :: 0 <= j < i ==> t[j] == s[..i][j];
    var n := if s[i].Occupied? then m[s[i].key := s[i].value] else m;
    forall k | k in n ensures Stored(t, k) {
      if k in m {
        var j :| 0 <= j < i && s[..i][j].Occupied? && s[..i][j].key == k;
        assert t[j].key == k;
      } else {
        assert t[i].key == k;
      }
    }
  }

  lemma StoredIsContent(s: seq<Slot>, m: map<Text, Text>, key: Text)
    requires Represents(s, m)
    ensures Stored(s, key) <==> key in m
  {
  }

  lemma ContentAt(s: seq<Slot>, m: map<Text, Text>, i: nat)
    requires Represents(s, m) && i < |s| && s[i].Occupied?
    ensures s[i].key in m && m[s[i].key] == s[i].value
  {
  }

  lemma SoundCapacity(s: seq<Slot>, hasher: Hasher)
    requires Sound(s, hasher)
    ensures IsCapacity(|s|) && |s| > 0
  {
  }

  lemma SoundHash(s: seq<Slot>, hasher: Hasher, i: nat)
    requires Sound(s, hasher) && i < |s| && s[i].Occupied?
    ensures s[i].hashCode == hasher(s[i].key)
  {
  }

  lemma AllEmpty(s: seq<Slot>)
    requires forall i :: 0 <= i < |s| ==> s[i].Empty?
    ensures LiveIn(s) == UsedIn(s) == 0
  {
    CountBounds(s);
  }
}
