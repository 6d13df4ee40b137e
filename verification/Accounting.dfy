/** Recorded key sizes and their sum. */
module Accounting {
  import opened Ordering
  import opened Commands
  import opened Aof
  import opened Outcomes

  /** The size of a key: any function of the key, its value and whether it has a deadline. */
  type Sizer = (Key, Value, bool) -> nat

  datatype Policy = NoEviction | AllKeysRandom | AllKeysLru | VolatileTtl

  /** How much there is room for by that size, and what is done to make room. */
  datatype Room = Room(sizeOf: Sizer, limit: int, policy: Policy)

  function Sizes(db: Db, sizeOf: Sizer): map<Key, nat> {
    map k | k in db.data :: sizeOf(k, db.data[k], k in db.deadlines)
  }

  ghost function Pick(m: map<Key, nat>): (k: Key)
    requires m != map[]
    ensures k in m
  {
    var k :| k in m;
    k
  }

  ghost function Total(m: map<Key, nat>): nat
    decreases |m|
  {
    if m == map[] then 0
    else
      assert (m - {Pick(m)}).Keys == m.Keys - {Pick(m)};
      m[Pick(m)] + Total(m - {Pick(m)})
  }

  lemma {:induction false} TotalWithout(m: map<Key, nat>, key: Key)
    requires key in m
    ensures Total(m) == m[key] + Total(m - {key})
    decreases |m|
  {
    var k := Pick(m);
    if k != key {
      var less := m - {k};
      assert less.Keys == m.Keys - {k};
      TotalWithout(less, key);
      assert (m - {key}).Keys == m.Keys - {key};
      TotalWithout(m - {key}, k);
      assert (m - {key}) - {k} == less - {key};
    }
  }

  lemma TotalUpdate(m: map<Key, nat>, key: Key, n: nat)
    ensures Total(m[key := n]) == Total(m - {key}) + n
    ensures key in m ==> Total(m) == m[key] + Total(m - {key})
    ensures key !in m ==> m - {key} == m
  {
    TotalWithout(m[key := n], key);
    assert m[key := n] - {key} == m - {key};
    if key in m {
      TotalWithout(m, key);
    }
  }

  /** Two keyspaces that agree off one key. */
  ghost predicate SameBut(db: Db, db': Db, key: Key) {
    && db.data - {key} == db'.data - {key}
    && (forall k :: k != key ==> (k in db.deadlines <==> k in db'.deadlines))
  }

  lemma SizesSameBut(db: Db, db': Db, key: Key, sizeOf: Sizer)
    requires SameBut(db, db', key)
    ensures Sizes(db, sizeOf) - {key} == Sizes(db', sizeOf) - {key}
    ensures key !in db'.data ==> Sizes(db', sizeOf) == Sizes(db, sizeOf) - {key}
  {
    forall k | k != key
      ensures k in db.data <==> k in db'.data
      ensures k in db.data ==> db.data[k] == db'.data[k]
    {
      assert k in db.data <==> k in db.data - {key};
      assert k in db'.data <==> k in db'.data - {key};
      assert k in db.data ==> (db.data - {key})[k] == db.data[k];
      assert k in db'.data ==> (db'.data - {key})[k] == db'.data[k];
    }
  }

  /** Bringing one entry up to date. */
  lemma SizesSynced(sizes: map<Key, nat>, db: Db, key: Key, sizeOf: Sizer)
    requires sizes - {key} == Sizes(db, sizeOf) - {key}
    ensures key !in db.data ==> sizes - {key} == Sizes(db, sizeOf)
    ensures key in db.data ==> sizes[key := sizeOf(key, db.data[key], key in db.deadlines)] == Sizes(db, sizeOf)
  {
    var target := Sizes(db, sizeOf);
    if key in db.data {
      var synced := sizes[key := target[key]];
      assert synced - {key} == sizes - {key};
      assert target == (target - {key})[key := target[key]];
      assert synced == (sizes - {key})[key := target[key]];
    } else {
      assert target - {key} == target;
    }
  }

  /** Removing members never makes a sorted set larger. */
  ghost predicate Shrinks(sizeOf: Sizer) {
    forall key, m: map<Text, Score>, s: set<Text>, timed :: sizeOf(key, ZSetValue(m - s), timed) <= sizeOf(key, ZSetValue(m), timed)
  }

  // ----- eviction order -----

  /** No two keys were last used at the same time. */
  ghost predicate Apart(stamps: map<Key, nat>) {
    forall j, k :: j in stamps && k in stamps && j != k ==> stamps[j] != stamps[k]
  }

  /** No other key has this stamp. */
  ghost predicate Unused(stamps: map<Key, nat>, key: Key, stamp: Option<nat>) {
    stamp.Some? ==> forall k :: k in stamps && k != key ==> stamps[k] != stamp.value
  }

  /** Victim `i` was one of the least recently used keys still there. */
  ghost predicate Oldest(stamps: map<Key, nat>, gone: seq<Key>, i: nat)
    requires i < |gone|
  {
    && gone[i] in stamps && gone[i] !in gone[..i]
    && forall k :: k in stamps && k !in gone[..i] ==> stamps[gone[i]] <= stamps[k]
  }

  /** From `from` on the victims were taken oldest first. */
  ghost predicate OldestFirst(stamps: map<Key, nat>, gone: seq<Key>, from: nat) {
    forall i :: from <= i < |gone| ==> Oldest(stamps, gone, i)
  }

  /** Deleting fewer would not have been enough. */
  ghost predicate AllNeeded(db: Db, sizeOf: Sizer, limit: int, gone: seq<Key>, from: nat) {
    forall i :: from <= i < |gone| ==> Total(Sizes(DeleteAll(db, gone[..i]), sizeOf)) > limit
  }

  lemma {:induction false} OldestExists(stamps: map<Key, nat>) returns (k: Key)
    requires stamps != map[]
    ensures k in stamps && forall j :: j in stamps ==> stamps[k] <= stamps[j]
    decreases |stamps|
  {
    var first :| first in stamps;
    k := first;
    var others := stamps - {first};
    assert others.Keys == stamps.Keys - {first};
    if others != map[] {
      var o := OldestExists(others);
      if stamps[o] < stamps[first] {
        k := o;
      }
      assert forall j :: j in stamps ==> j == first || j in others;
    } else {
      assert forall j :: j in stamps ==> j == first || j in others;
    }
  }

  /** Sampling without replacement is possible. */
  lemma {:induction false} SubsetOfSize(s: set<Key>, n: nat) returns (sample: set<Key>)
    requires n <= |s|
    ensures sample <= s && |sample| == n
    decreases |s|
  {
    if n == |s| {
      sample := s;
    } else {
      var k :| k in s;
      sample := SubsetOfSize(s - {k}, n);
    }
  }

  /** The key was used after every other one. */
  ghost predicate Newest(stamps: map<Key, nat>, key: Key) {
    key in stamps && forall k :: k in stamps && k != key ==> stamps[k] < stamps[key]
  }

  /** With distinct stamps there is just one way to evict oldest first until the rest fits, and
  to stop as soon as it does: the victims are the shortest prefix of the keys by age. */
  lemma {:induction false} VictimsUnique(db: Db, stamps: map<Key, nat>, sizeOf: Sizer, limit: int, a: seq<Key>, b: seq<Key>)
    requires Apart(stamps)
    requires OldestFirst(stamps, a, 0) && OldestFirst(stamps, b, 0)
    requires AllNeeded(db, sizeOf, limit, a, 0) && Total(Sizes(DeleteAll(db, a), sizeOf)) <= limit
    requires AllNeeded(db, sizeOf, limit, b, 0) && Total(Sizes(DeleteAll(db, b), sizeOf)) <= limit
    ensures a == b
  {
    hide Total, DeleteAll, Sizes, AllNeeded;
    var n: nat := 0;
    while n < |a| && n < |b|
      invariant n <= |a| && n <= |b| && a[..n] == b[..n]
    {
      assert Oldest(stamps, a, n) && Oldest(stamps, b, n);
      assert a[n] == b[n];
      assert a[..n + 1] == a[..n] + [a[n]] && b[..n + 1] == b[..n] + [b[n]];
      n := n + 1;
    }
    assert n == |a| ==> a[..n] == a;
    assert n == |b| ==> b[..n] == b;
    if n < |a| {
      NeededAt(db, sizeOf, limit, a, n);
    } else if n < |b| {
      NeededAt(db, sizeOf, limit, b, n);
    }
  }

  lemma NeededAt(db: Db, sizeOf: Sizer, limit: int, gone: seq<Key>, i: nat)
    requires AllNeeded(db, sizeOf, limit, gone, 0) && i < |gone|
    ensures Total(Sizes(DeleteAll(db, gone[..i]), sizeOf)) > limit
  {
  }

  lemma {:induction false} OldestFirstShift(stamps: map<Key, nat>, expired: seq<Key>, victims: seq<Key>)
    requires forall i: nat :: i < |victims| ==> Oldest(stamps - KeySet(expired), victims, i)
    ensures OldestFirst(stamps, expired + victims, |expired|)
  {
    var gone := expired + victims;
    forall i: nat | |expired| <= i < |gone| ensures Oldest(stamps, gone, i) {
      assert Oldest(stamps - KeySet(expired), victims, i - |expired|);
      assert gone[..i] == expired + victims[..i - |expired|];
    }
  }

  lemma AllNeededShift(db: Db, sizeOf: Sizer, limit: int, expired: seq<Key>, victims: seq<Key>)
    requires AllNeeded(DeleteAll(db, expired), sizeOf, limit, victims, 0)
    ensures AllNeeded(db, sizeOf, limit, expired + victims, |expired|)
  {
    hide Total, DeleteAll;
    var gone := expired + victims;
    forall i: nat | |expired| <= i < |gone| ensures Total(Sizes(DeleteAll(db, gone[..i]), sizeOf)) > limit {
      assert gone[..i] == expired + victims[..i - |expired|];
      DeleteAllConcat(db, expired, victims[..i - |expired|]);
    }
  }

  lemma {:induction false} DeleteAllConcat(db: Db, a: seq<Key>, b: seq<Key>)
    ensures DeleteAll(db, a + b) == DeleteAll(DeleteAll(db, a), b)
  {
    hide DeleteAll;
    DeleteAllIs(db, a);
    DeleteAllIs(DeleteAll(db, a), b);
    DeleteAllIs(db, a + b);
    assert KeySet(a + b) == KeySet(a) + KeySet(b);
  }

  lemma EmptyTotal(db: Db, sizeOf: Sizer)
    requires db.data == map[]
    ensures Total(Sizes(db, sizeOf)) == 0
  {
    assert Sizes(db, sizeOf) == map[];
  }

  lemma SoleTotal(m: map<Key, nat>, key: Key)
    requires m.Keys == {key}
    ensures Total(m) == m[key]
  {
    TotalWithout(m, key);
    assert m - {key} == map[];
  }
}
