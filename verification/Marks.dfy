/** What can be seen of the store between operations, and what automatic deletions do to it. */
module Marks {
  import opened Ordering
  import opened Commands
  import opened Aof
  import opened Accounting
  import opened Outcomes

  /** What `_snapshot_key` keeps of a key: its value and its access stamp, if it is there. */
  datatype Backup = Backup(value: Option<Value>, access: Option<nat>)

  function Put<V>(m: map<Key, V>, key: Key, v: Option<V>): map<Key, V> {
    if v.Some? then m[key := v.value] else m - {key}
  }

  function BackupIn(m: Mark, key: Key): Backup {
    Backup(Find(m.db.data, key), Find(m.stamps, key))
  }

  /** What can be seen of the store: everything but the sizes, which follow. */
  datatype Mark = Mark(db: Db, stamps: map<Key, nat>, tick: nat, log: seq<Command>)

  /** The keys of `gone`, and nothing else, were deleted and recorded as deleted. */
  ghost predicate Lost(before: Mark, after: Mark, gone: seq<Key>) {
    && after.db == DeleteAll(before.db, gone)
    && after.stamps == before.stamps - KeySet(gone)
    && after.tick == before.tick
    && after.log == before.log + Dels(gone)
    && forall k :: k in gone ==> k in before.db.data
  }

  /** A value written under a key, and the key touched. */
  ghost function Written(m: Mark, key: Key, v: Value): Mark {
    Mark(Db(m.db.data[key := v], m.db.deadlines), m.stamps[key := m.tick], m.tick + 1, m.log)
  }

  /** One key as it was in a backup. */
  ghost function Restored(m: Mark, key: Key, b: Backup): Mark {
    Mark(Db(Put(m.db.data, key, b.value), m.db.deadlines), Put(m.stamps, key, b.access), m.tick, m.log)
  }

  /** Off one key no stamp is new. */
  ghost predicate NoneNewer(before: map<Key, nat>, after: map<Key, nat>, key: Key) {
    forall k :: k in after && k != key ==> k in before && after[k] == before[k]
  }

  lemma WrittenNoneNewer(m: Mark, key: Key, v: Value, after: Mark, gone: seq<Key>, b: Backup)
    requires Lost(Written(m, key, v), after, gone)
    ensures NoneNewer(m.stamps, after.stamps, key) && NoneNewer(m.stamps, Restored(after, key, b).stamps, key)
  {
    hide DeleteAll;
  }

  lemma NoneNewerTwice(before: map<Key, nat>, mid: map<Key, nat>, after: map<Key, nat>, key: Key)
    requires mid - {key} == before - {key} && NoneNewer(mid, after, key)
    ensures NoneNewer(before, after, key)
  {
    forall k | k in after && k != key ensures k in before && after[k] == before[k] {
      assert k in mid - {key} && (mid - {key})[k] == mid[k];
    }
  }

  lemma NoneNewerOff(before: map<Key, nat>, after: map<Key, nat>, key: Key)
    requires after - {key} == before - {key}
    ensures NoneNewer(before, after, key)
  {
    NoneNewerTwice(before, after, after, key);
  }

  lemma StillUnused(before: map<Key, nat>, after: map<Key, nat>, key: Key, stamp: Option<nat>)
    requires NoneNewer(before, after, key) && Unused(before, key, stamp)
    ensures Unused(after, key, stamp)
  {
  }

  lemma PutApart(stamps: map<Key, nat>, key: Key, stamp: Option<nat>)
    requires Apart(stamps) && Unused(stamps, key, stamp)
    ensures Apart(Put(stamps, key, stamp))
  {
  }

  lemma BackupUnused(m: Mark, key: Key)
    requires Apart(m.stamps)
    ensures Unused(m.stamps, key, BackupIn(m, key).access)
  {
  }

  // ----- deletions -----

  lemma LostNothing(m: Mark)
    ensures Lost(m, m, [])
  {
    assert KeySet([]) == {};
  }

  lemma LostTick(before: Mark, after: Mark, gone: seq<Key>)
    requires Lost(before, after, gone)
    ensures after.tick == before.tick && (gone == [] ==> after == before)
  {
    if gone == [] {
      assert KeySet(gone) == {};
      assert before.stamps - {} == before.stamps;
    }
  }

  lemma LostOne(before: Mark, after: Mark, key: Key)
    requires key in before.db.data && after.db == Aof.Delete(before.db, key)
    requires after.stamps == before.stamps - {key} && after.tick == before.tick && after.log == before.log + [Del([key])]
    ensures Lost(before, after, [key])
  {
    DeleteOne(before.db, key);
    assert KeySet([key]) == {key};
  }

  lemma LostMore(before: Mark, mid: Mark, after: Mark, gone: seq<Key>, more: seq<Key>)
    requires Lost(before, mid, gone) && Lost(mid, after, more)
    ensures Lost(before, after, gone + more)
  {
    hide DeleteAll;
    DeleteAllIs(before.db, gone);
    DeleteAllIs(mid.db, more);
    DeleteAllIs(before.db, gone + more);
    assert KeySet(gone + more) == KeySet(gone) + KeySet(more);
    assert Dels(gone + more) == Dels(gone) + Dels(more);
  }

  /** What is left is as it was. */
  lemma LostKeeps(before: Mark, after: Mark, gone: seq<Key>)
    requires Lost(before, after, gone)
    ensures forall k :: k in after.db.data <==> k in before.db.data && k !in gone
    ensures forall k :: k in after.db.data ==> after.db.data[k] == before.db.data[k]
    ensures forall k :: k in after.db.deadlines ==> k in before.db.deadlines && after.db.deadlines[k] == before.db.deadlines[k]
    ensures forall k :: k in after.stamps <==> k in before.stamps && k !in gone
    ensures forall k :: k in after.stamps ==> after.stamps[k] == before.stamps[k]
    ensures |after.db.deadlines| <= |before.db.deadlines|
  {
    DeleteAllIs(before.db, gone);
    Subset(after.db.deadlines.Keys, before.db.deadlines.Keys);
  }

  lemma {:induction false} Subset(a: set<Key>, b: set<Key>)
    requires a <= b
    ensures |a| <= |b|
    decreases |a|
  {
    if a != {} {
      var k :| k in a;
      Subset(a - {k}, b - {k});
    }
  }

  lemma NoneGone(db: Db)
    ensures DeleteAll(db, []) == db && Dels([]) == []
  {
  }

  lemma LostDb(before: Mark, after: Mark, gone: seq<Key>)
    requires Lost(before, after, gone)
    ensures after.db == DeleteAll(before.db, gone) && after.log == before.log + Dels(gone)
  {
  }

  // ----- why keys go -----

  /** Victim `i` had the nearest deadline of the keys still there that have one; a deadline of exactly
  zero counts as the farthest. */
  ghost predicate Soonest(db: Db, gone: seq<Key>, i: nat)
    requires i < |gone|
  {
    && gone[i] in db.deadlines && gone[i] in db.data && gone[i] !in gone[..i]
    && forall k :: k in db.deadlines && k in db.data && k !in gone[..i] ==>
         db.deadlines[k] == 0.0 || (db.deadlines[gone[i]] != 0.0 && db.deadlines[gone[i]] <= db.deadlines[k])
  }

  /** From `from` on the victims were taken by deadline. */
  ghost predicate SoonestFirst(db: Db, gone: seq<Key>, from: nat) {
    forall i :: from <= i < |gone| ==> Soonest(db, gone, i)
  }

  /** Why keys were deleted: the first `swept` were due, the others were evicted because the
  memory was over the limit, each time, and under LRU oldest first, with volatile-ttl by deadline. */
  ghost predicate Justified(before: Mark, sizeOf: Sizer, limit: int, policy: Policy, t: real, gone: seq<Key>, swept: nat) {
    && swept <= |gone|
    && (forall k :: k in gone[..swept] ==> Due(before.db, k, t))
    && (policy.NoEviction? ==> swept == |gone|)
    && (policy.AllKeysLru? ==> OldestFirst(before.stamps, gone, swept))
    && (policy.VolatileTtl? ==> SoonestFirst(before.db, gone, swept))
    && AllNeeded(before.db, sizeOf, limit, gone, swept)
  }

  lemma JustifiedSweep(before: Mark, sizeOf: Sizer, limit: int, policy: Policy, t: real, gone: seq<Key>)
    requires forall k :: k in gone ==> Due(before.db, k, t)
    ensures Justified(before, sizeOf, limit, policy, t, gone, |gone|)
  {
  }

  lemma JustifiedEvictions(before: Mark, mid: Mark, sizeOf: Sizer, limit: int, policy: Policy, t: real,
      expired: seq<Key>, victims: seq<Key>)
    requires Lost(before, mid, expired) && forall k :: k in expired ==> Due(before.db, k, t)
    requires policy.NoEviction? ==> victims == []
    requires policy.AllKeysLru? ==> OldestFirst(mid.stamps, victims, 0)
    requires policy.VolatileTtl? ==> SoonestFirst(mid.db, victims, 0)
    requires AllNeeded(mid.db, sizeOf, limit, victims, 0)
    ensures Justified(before, sizeOf, limit, policy, t, expired + victims, |expired|)
  {
    hide Oldest, AllNeeded, DeleteAll, Soonest;
    assert (expired + victims)[..|expired|] == expired;
    AllNeededShift(before.db, sizeOf, limit, expired, victims);
    if policy.AllKeysLru? {
      OldestFirstShift(before.stamps, expired, victims);
    }
    if policy.VolatileTtl? {
      SoonestFirstShift(before, mid, expired, victims);
    }
  }

  lemma SoonestFirstShift(before: Mark, mid: Mark, expired: seq<Key>, victims: seq<Key>)
    requires Lost(before, mid, expired) && SoonestFirst(mid.db, victims, 0)
    ensures SoonestFirst(before.db, expired + victims, |expired|)
  {
    hide Lost;
    var gone := expired + victims;
    forall i: nat | |expired| <= i < |gone| ensures Soonest(before.db, gone, i) {
      assert Soonest(mid.db, victims, i - |expired|);
      assert gone[..i] == expired + victims[..i - |expired|] && gone[i] == victims[i - |expired|];
      LostDeadlines(before, mid, expired);
    }
  }

  lemma LostDeadlines(before: Mark, after: Mark, gone: seq<Key>)
    requires Lost(before, after, gone)
    ensures forall k :: k in after.db.data <==> k in before.db.data && k !in gone
    ensures forall k :: k in before.db.data ==> (k in after.db.deadlines <==> k in before.db.deadlines && k !in gone)
    ensures forall k :: k in after.db.deadlines ==> k in before.db.deadlines && after.db.deadlines[k] == before.db.deadlines[k]
  {
    DeleteAllIs(before.db, gone);
  }

  lemma OneMoreSoonest(start: Mark, now: Mark, victims: seq<Key>, key: Key)
    requires Lost(start, now, victims) && SoonestFirst(start.db, victims, 0)
    requires key in now.db.deadlines && key in now.db.data
    requires forall k :: k in now.db.deadlines && k in now.db.data ==> Sooner(now.db.deadlines[key], now.db.deadlines[k])
    ensures SoonestFirst(start.db, victims + [key], 0)
  {
    hide Lost;
    var more := victims + [key];
    LostDeadlines(start, now, victims);
    forall i: nat | i < |more| ensures Soonest(start.db, more, i) {
      if i < |victims| {
        assert Soonest(start.db, victims, i);
        assert more[..i] == victims[..i];
      } else {
        assert more[..i] == victims;
      }
    }
  }

  lemma SweptAreDue(start: Mark, sizeOf: Sizer, limit: int, policy: Policy, t: real, gone: seq<Key>, swept: nat)
    requires Justified(start, sizeOf, limit, policy, t, gone, swept) && policy.NoEviction?
    ensures forall k :: k in gone ==> Due(start.db, k, t)
  {
    assert gone[..swept] == gone;
  }

  lemma SomeKey(keys: seq<Key>)
    ensures keys != [] ==> exists k :: k in keys
  {
    if keys != [] {
      assert keys[0] in keys;
    }
  }

  /** `get_expiry_at(key) or inf`: a deadline of exactly zero counts as none. */
  predicate Sooner(a: real, b: real) {
    b == 0.0 || (a != 0.0 && a <= b)
  }

  lemma {:induction false} SoonestExists(deadlines: map<Key, real>, keys: set<Key>) returns (key: Key)
    requires keys != {} && keys <= deadlines.Keys
    ensures key in keys && forall k :: k in keys ==> Sooner(deadlines[key], deadlines[k])
    decreases |keys|
  {
    var first :| first in keys;
    key := first;
    var others := keys - {first};
    if others != {} {
      var o := SoonestExists(deadlines, others);
      if !Sooner(deadlines[first], deadlines[o]) {
        key := o;
      }
    }
    assert forall k :: k in keys ==> k == first || k in others;
  }

  lemma OneMoreNeeded(start: Mark, now: Mark, sizeOf: Sizer, limit: int, victims: seq<Key>, key: Key)
    requires Lost(start, now, victims) && AllNeeded(start.db, sizeOf, limit, victims, 0)
    requires Total(Sizes(now.db, sizeOf)) > limit
    ensures AllNeeded(start.db, sizeOf, limit, victims + [key], 0)
  {
    hide Total, Sizes, DeleteAll;
    var more := victims + [key];
    forall i: nat | i < |more| ensures Total(Sizes(DeleteAll(start.db, more[..i]), sizeOf)) > limit {
      if i < |victims| {
        assert more[..i] == victims[..i];
      } else {
        assert more[..i] == victims;
      }
    }
  }

  lemma OneMoreOldest(start: Mark, now: Mark, victims: seq<Key>, key: Key)
    requires Lost(start, now, victims) && OldestFirst(start.stamps, victims, 0)
    requires key in now.stamps && forall k :: k in now.stamps ==> now.stamps[key] <= now.stamps[k]
    ensures OldestFirst(start.stamps, victims + [key], 0)
  {
    var more := victims + [key];
    forall i: nat | i < |more| ensures Oldest(start.stamps, more, i) {
      if i < |victims| {
        assert Oldest(start.stamps, victims, i);
        assert more[..i] == victims[..i];
      } else {
        assert more[..i] == victims;
        LostKeeps(start, now, victims);
      }
    }
  }

  // ----- the key being written is spared -----

  lemma NewestWritten(m: Mark, key: Key, v: Value)
    requires forall k :: k in m.stamps ==> m.stamps[k] < m.tick
    ensures Newest(Written(m, key, v).stamps, key)
  {
  }

  lemma NewestKept(before: Mark, after: Mark, gone: seq<Key>, key: Key)
    requires Lost(before, after, gone) && Newest(before.stamps, key) && key !in gone
    ensures Newest(after.stamps, key)
  {
    LostKeeps(before, after, gone);
  }

  /** The newest key is the oldest one left only when it is alone, and then it fits: so it is
  not the one to go. */
  lemma NewestSpared(start: Mark, now: Mark, sizeOf: Sizer, limit: int, victims: seq<Key>, newest: Key, pick: Key)
    requires Lost(start, now, victims) && now.stamps.Keys == now.db.data.Keys
    requires Newest(start.stamps, newest) && newest in start.db.data && Sizes(start.db, sizeOf)[newest] <= limit
    requires pick in now.stamps && forall k :: k in now.stamps ==> now.stamps[pick] <= now.stamps[k]
    requires Total(Sizes(now.db, sizeOf)) > limit
    ensures pick != newest
  {
    hide Total;
    if pick == newest {
      LostKeeps(start, now, victims);
      DeleteAllIs(start.db, victims);
      assert forall k :: k in now.stamps ==> k == newest;
      assert now.db.data.Keys == {newest};
      SoleTotal(Sizes(now.db, sizeOf), newest);
    }
  }

  // ----- sizes -----

  lemma SizeOfKey(db: Db, sizeOf: Sizer, key: Key)
    requires key in db.data
    ensures key in Sizes(db, sizeOf) && Sizes(db, sizeOf)[key] == sizeOf(key, db.data[key], key in db.deadlines)
  {
  }

  lemma FitsInTotal(db: Db, sizeOf: Sizer, key: Key)
    ensures key in Sizes(db, sizeOf) <==> key in db.data
    ensures key in Sizes(db, sizeOf) ==> Sizes(db, sizeOf)[key] <= Total(Sizes(db, sizeOf))
  {
    if key in db.data {
      TotalWithout(Sizes(db, sizeOf), key);
    }
  }

  /** Deleting keys frees memory. */
  lemma {:induction false} SweepShrinks(before: Mark, after: Mark, sizeOf: Sizer, gone: seq<Key>)
    requires Lost(before, after, gone)
    ensures Total(Sizes(after.db, sizeOf)) <= Total(Sizes(before.db, sizeOf))
    ensures forall k :: k in after.db.data ==>
      k in before.db.data && k in Sizes(after.db, sizeOf) && Sizes(after.db, sizeOf)[k] == Sizes(before.db, sizeOf)[k]
  {
    hide Total, DeleteAll;
    DeleteAllIs(before.db, gone);
    var small, large := Sizes(after.db, sizeOf), Sizes(before.db, sizeOf);
    assert small == large - KeySet(gone);
    TotalOfPart(large, KeySet(gone));
  }

  lemma {:induction false} TotalOfPart(sizes: map<Key, nat>, s: set<Key>)
    ensures Total(sizes - s) <= Total(sizes)
    decreases |s|
  {
    if s == {} {
      assert sizes - s == sizes;
    } else {
      var k :| k in s;
      TotalOfPart(sizes, s - {k});
      var rest := sizes - (s - {k});
      assert sizes - s == rest - {k};
      if k in rest {
        TotalWithout(rest, k);
      } else {
        assert rest - {k} == rest;
      }
    }
  }

  lemma PutSameBut(db: Db, key: Key, v: Option<Value>)
    ensures SameBut(db, Db(Put(db.data, key, v), db.deadlines), key)
  {
  }

  lemma DeleteSameBut(db: Db, key: Key)
    ensures SameBut(db, Aof.Delete(db, key), key)
  {
  }

  lemma WrittenTotal(db: Db, key: Key, v: Value, sizeOf: Sizer)
    ensures key in db.data && sizeOf(key, v, key in db.deadlines) <= sizeOf(key, db.data[key], key in db.deadlines) ==>
      Total(Sizes(Db(db.data[key := v], db.deadlines), sizeOf)) <= Total(Sizes(db, sizeOf))
  {
    hide Total;
    if key in db.data {
      var sizes, n := Sizes(db, sizeOf), sizeOf(key, v, key in db.deadlines);
      assert Sizes(Db(db.data[key := v], db.deadlines), sizeOf) == sizes[key := n];
      TotalUpdate(sizes, key, n);
    }
  }
}
