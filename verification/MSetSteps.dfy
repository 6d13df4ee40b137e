/** MSET in the middle: some keys written, some put back, others perhaps deleted. */
module MSetSteps {
  import opened Ordering
  import opened Numbers
  import opened Commands
  import opened Aof
  import opened Accounting
  import opened Outcomes
  import opened Marks

  /** Off the keys of `p` nothing happened but the deletions of `gone`. */
  ghost predicate Overlaid(before: Mark, now: Mark, p: set<Key>, gone: seq<Key>) {
    && now.db.data - p == before.db.data - (p + KeySet(gone))
    && now.db.deadlines - p == before.db.deadlines - (p + KeySet(gone))
    && now.stamps - p == before.stamps - (p + KeySet(gone))
    && now.log == before.log + Dels(gone)
    && before.tick <= now.tick
    && (forall k :: k in now.stamps ==> Aged(before, k, now.stamps[k]))
    && forall k :: k in gone ==> k in p || k in before.db.data
  }

  /** The stamp of the key is the one it had, or a new one. */
  predicate Aged(before: Mark, k: Key, stamp: nat) {
    before.tick <= stamp || (k in before.stamps && before.stamps[k] == stamp)
  }

  /** So a key can have the stamp back that it had. */
  lemma AgedUnused(before: Mark, now: Mark, p: set<Key>, gone: seq<Key>, key: Key)
    requires Overlaid(before, now, p, gone)
    requires Apart(before.stamps) && forall k :: k in before.stamps ==> before.stamps[k] < before.tick
    ensures Unused(now.stamps, key, BackupIn(before, key).access)
  {
    if key in before.stamps {
      forall k | k in now.stamps && k != key ensures now.stamps[k] != before.stamps[key] {
        assert Aged(before, k, now.stamps[k]);
      }
    }
  }

  /** The keys of `p` hold the values wanted, or were deleted again. */
  ghost predicate Valued(want: Db, now: Db, p: set<Key>, gone: seq<Key>) {
    forall k :: k in p ==> HoldsOrGone(want, now, gone, k)
  }

  ghost predicate AllPlain(db: Db, p: set<Key>) {
    forall k :: k in p ==> Plain(db, k)
  }

  /** The keys of `back` are as they were. */
  ghost predicate BackOn(before: Mark, now: Mark, back: seq<Key>) {
    forall k :: k in back ==> BackupIn(now, k) == BackupIn(before, k) && Find(now.db.deadlines, k) == Find(before.db.deadlines, k)
  }

  ghost predicate SameOff(a: Mark, b: Mark, key: Key) {
    && a.db.data - {key} == b.db.data - {key}
    && a.db.deadlines - {key} == b.db.deadlines - {key}
    && a.stamps - {key} == b.stamps - {key}
  }

  lemma OverlaidNothing(m: Mark)
    ensures Overlaid(m, m, {}, []) && AllPlain(m.db, {})
    ensures KeySet([]) == {}
  {
    assert KeySet([]) == {};
    assert forall s: set<Key> {:trigger m.db.data - s} :: s == {} ==> m.db.data - s == m.db.data;
  }

  lemma OverlaidTick(before: Mark, now: Mark, p: set<Key>, gone: seq<Key>)
    requires Overlaid(before, now, p, gone)
    ensures before.tick <= now.tick && BackOn(before, now, []) && now.log == before.log + Dels(gone)
  {
  }

  lemma OverlaidWiden(before: Mark, now: Mark, p: set<Key>, q: set<Key>, gone: seq<Key>)
    requires Overlaid(before, now, p, gone) && p <= q
    ensures Overlaid(before, now, q, gone)
  {
    assert now.db.data - q == (now.db.data - p) - q;
    assert now.db.deadlines - q == (now.db.deadlines - p) - q;
    assert now.stamps - q == (now.stamps - p) - q;
    assert before.db.data - (q + KeySet(gone)) == (before.db.data - (p + KeySet(gone))) - q;
    assert before.db.deadlines - (q + KeySet(gone)) == (before.db.deadlines - (p + KeySet(gone))) - q;
    assert before.stamps - (q + KeySet(gone)) == (before.stamps - (p + KeySet(gone))) - q;
  }

  lemma OffLess<V>(now: map<Key, V>, before: map<Key, V>, p: set<Key>, gone: set<Key>, more: set<Key>)
    requires now - p == before - (p + gone)
    ensures (now - more) - p == before - (p + (gone + more))
  {
    assert (now - more) - p == (now - p) - more;
    assert before - (p + (gone + more)) == (before - (p + gone)) - more;
  }

  /** Deleting more keys. */
  lemma OverlaidLost(before: Mark, now: Mark, p: set<Key>, gone: seq<Key>, after: Mark, more: seq<Key>)
    requires Overlaid(before, now, p, gone) && Lost(now, after, more)
    ensures Overlaid(before, after, p, gone + more)
  {
    hide DeleteAll, KeySet, Aged;
    LostMinus(now, after, more);
    KeysAndDels(gone, more);
    OffLess(now.db.data, before.db.data, p, KeySet(gone), KeySet(more));
    OffLess(now.db.deadlines, before.db.deadlines, p, KeySet(gone), KeySet(more));
    OffLess(now.stamps, before.stamps, p, KeySet(gone), KeySet(more));
    forall k | k in more ensures k in p || k in before.db.data {
      assert k in now.db.data;
      if k !in p { assert k in now.db.data - p; }
    }
  }

  lemma LostMinus(now: Mark, after: Mark, more: seq<Key>)
    requires Lost(now, after, more)
    ensures after.db == Db(now.db.data - KeySet(more), now.db.deadlines - KeySet(more))
    ensures after.stamps == now.stamps - KeySet(more)
  {
    DeleteAllIs(now.db, more);
    assert KeySet(more) * now.db.data.Keys == KeySet(more);
  }

  lemma KeysAndDels(gone: seq<Key>, more: seq<Key>)
    ensures KeySet(gone + more) == KeySet(gone) + KeySet(more)
    ensures Dels(gone + more) == Dels(gone) + Dels(more)
  {
  }

  /** Anything done to a key of `p`. */
  lemma OverlaidTouch(before: Mark, now: Mark, after: Mark, p: set<Key>, gone: seq<Key>, key: Key)
    requires Overlaid(before, now, p, gone) && key in p
    requires SameOff(now, after, key) && now.tick <= after.tick && now.log == after.log
    requires key in after.stamps ==> Aged(before, key, after.stamps[key])
    ensures Overlaid(before, after, p, gone)
  {
    hide Aged;
    forall k | k in after.stamps ensures Aged(before, k, after.stamps[k]) {
      if k != key {
        assert k in after.stamps - {key} && (after.stamps - {key})[k] == after.stamps[k];
        assert k in now.stamps - {key} && (now.stamps - {key})[k] == now.stamps[k];
      }
    }
    assert after.db.data - p == (after.db.data - {key}) - p && now.db.data - p == (now.db.data - {key}) - p;
    assert after.db.deadlines - p == (after.db.deadlines - {key}) - p && now.db.deadlines - p == (now.db.deadlines - {key}) - p;
    assert after.stamps - p == (after.stamps - {key}) - p && now.stamps - p == (now.stamps - {key}) - p;
  }

  // ----- one pair -----

  lemma WrittenSameOff(m: Mark, key: Key, v: Value)
    ensures SameOff(m, Written(m, key, v), key)
  {
  }

  lemma UntimedSameOff(m: Mark, key: Key)
    ensures SameOff(m, m.(db := m.db.(deadlines := m.db.deadlines - {key})), key)
  {
  }

  lemma RestoredSameOff(m: Mark, key: Key, b: Backup)
    ensures SameOff(m, Restored(m, key, b), key)
  {
  }

  /** A pair of MSET stored. */
  lemma OverlaidWritten(before: Mark, now: Mark, p: set<Key>, gone: seq<Key>, key: Key, value: Bytes, after: Mark, more: seq<Key>)
    requires Overlaid(before, now, p, gone) && AllPlain(now.db, p)
    requires Lost(Written(now, key, StringValue(value)), after, more)
    ensures var done := after.(db := after.db.(deadlines := after.db.deadlines - {key}));
      Overlaid(before, done, p + {key}, gone + more) && AllPlain(done.db, p + {key})
  {
    hide Overlaid, SameOff, Lost, Aged, AllPlain;
    var start := Written(now, key, StringValue(value));
    var q := p + {key};
    var done := after.(db := after.db.(deadlines := after.db.deadlines - {key}));
    OverlaidWiden(before, now, p, q, gone);
    WrittenSameOff(now, key, StringValue(value));
    OverlaidTick(before, now, p, gone);
    NewAged(before, now, key);
    OverlaidTouch(before, now, start, q, gone, key);
    OverlaidLost(before, start, q, gone, after, more);
    UntimedSameOff(after, key);
    LostKeeps(start, after, more);
    OverlaidTouch(before, after, done, q, gone + more, key);
    PlainWritten(now, p, key, value, after, more);
  }

  lemma ValuedNothing(db: Db)
    ensures Valued(SetStrings(db, []), db, {}, []) && SetStrings(db, []) == db && KeySet([]) == {}
  {
    assert KeySet([]) == {};
  }

  lemma ValuedWritten(want: Db, now: Mark, p: set<Key>, gone: seq<Key>, key: Key, value: Bytes, after: Mark, more: seq<Key>)
    requires Valued(want, now.db, p, gone) && Lost(Written(now, key, StringValue(value)), after, more)
    ensures Valued(SetString(want, key, value), Db(after.db.data, after.db.deadlines - {key}), p + {key}, gone + more)
  {
    hide Lost;
    var done := Db(after.db.data, after.db.deadlines - {key});
    LostKeeps(Written(now, key, StringValue(value)), after, more);
    forall k | k in p + {key} ensures HoldsOrGone(SetString(want, key, value), done, gone + more, k) {
      assert k != key ==> HoldsOrGone(want, now.db, gone, k);
    }
  }

  lemma NewAged(before: Mark, now: Mark, key: Key)
    requires before.tick <= now.tick
    ensures Aged(before, key, now.tick)
  {
  }

  lemma PlainWritten(now: Mark, p: set<Key>, key: Key, value: Bytes, after: Mark, more: seq<Key>)
    requires AllPlain(now.db, p) && Lost(Written(now, key, StringValue(value)), after, more)
    ensures AllPlain(Db(after.db.data, after.db.deadlines - {key}), p + {key})
  {
    hide Lost;
    LostKeeps(Written(now, key, StringValue(value)), after, more);
    forall k | k in p + {key} ensures Plain(Db(after.db.data, after.db.deadlines - {key}), k) {
      assert k != key ==> Plain(now.db, k);
    }
  }

  /** A pair of MSET refused. */
  lemma OverlaidFailed(before: Mark, now: Mark, p: set<Key>, gone: seq<Key>, key: Key, v: Value, mid: Mark, more: seq<Key>)
    requires Overlaid(before, now, p, gone) && Lost(Written(now, key, v), mid, more)
    ensures Overlaid(before, Restored(mid, key, BackupIn(now, key)), p + {key}, gone + more)
  {
    var b := BackupIn(now, key);
    hide Overlaid, SameOff, Lost;
    var start := Written(now, key, v);
    var q := p + {key};
    OverlaidWiden(before, now, p, q, gone);
    WrittenSameOff(now, key, v);
    OverlaidTick(before, now, p, gone);
    OverlaidTouch(before, now, start, q, gone, key);
    OverlaidLost(before, start, q, gone, mid, more);
    RestoredSameOff(mid, key, b);
    OverlaidTouch(before, mid, Restored(mid, key, b), q, gone + more, key);
  }

  /** What is due in the middle of an MSET was due before it. */
  lemma StillDue(before: Mark, now: Mark, p: set<Key>, gone: seq<Key>, key: Key, v: Value, t: real, k: Key)
    requires Overlaid(before, now, p, gone) && AllPlain(now.db, p) && Due(Written(now, key, v).db, k, t)
    ensures Due(before.db, k, t)
  {
    var left := p + KeySet(gone);
    assert k in p ==> Plain(now.db, k);
    assert k in now.db.deadlines - p && k in before.db.deadlines - left;
    assert (before.db.deadlines - left)[k] == (now.db.deadlines - p)[k];
  }

  lemma NoDeadlinesYet(before: Mark, now: Mark, p: set<Key>, gone: seq<Key>)
    requires Overlaid(before, now, p, gone) && AllPlain(now.db, p) && before.db.deadlines == map[]
    ensures now.db.deadlines == map[]
  {
    forall k ensures k !in now.db.deadlines {
      assert k in p ==> Plain(now.db, k);
      assert k in now.db.deadlines && k !in p ==> k in now.db.deadlines - p;
    }
  }

  lemma FirstTimesStep(pairs: seq<(Key, Bytes)>, i: nat)
    requires i < |pairs|
    ensures var seen := FirstTimes(pairs[..i]);
      FirstTimes(pairs[..i + 1]) == if pairs[i].0 in seen then seen else seen + [pairs[i].0]
    ensures KeySet(FirstTimes(pairs[..i + 1])) == KeySet(FirstTimes(pairs[..i])) + {pairs[i].0}
    ensures KeySet(FirstTimes(pairs[..i + 1])) <= KeySet(FirstTimes(pairs))
  {
    assert pairs[..i + 1][..i] == pairs[..i];
    FirstTimesKeys(pairs);
    FirstTimesKeys(pairs[..i + 1]);
    forall k | k in FirstTimes(pairs[..i + 1]) ensures k in FirstTimes(pairs) {
      var j :| 0 <= j < i + 1 && pairs[..i + 1][j].0 == k;
      assert pairs[j].0 == k;
    }
  }

  lemma {:induction false} SetStringsSnoc(db: Db, pairs: seq<(Key, Bytes)>, i: nat)
    requires i < |pairs|
    ensures SetStrings(db, pairs[..i + 1]) == SetString(SetStrings(db, pairs[..i]), pairs[i].0, pairs[i].1)
    decreases i
  {
    if i > 0 {
      SetStringsSnoc(SetString(db, pairs[0].0, pairs[0].1), pairs[1..], i - 1);
      assert pairs[..i + 1][1..] == pairs[1..][..i];
      assert pairs[..i][1..] == pairs[1..][..i - 1];
    } else {
      assert pairs[..1][1..] == [];
    }
  }

  // ----- all pairs -----

  /** All pairs of MSET stored. */
  lemma StoredWhenOverlaid(before: Mark, now: Mark, pairs: seq<(Key, Bytes)>, gone: seq<Key>)
    requires var p := KeySet(FirstTimes(pairs));
      Overlaid(before, now, p, gone) && AllPlain(now.db, p) && Valued(SetStrings(before.db, pairs), now.db, p, gone)
    requires before.db.deadlines.Keys <= before.db.data.Keys
    ensures Stored(DeleteAll(before.db, gone), pairs, gone, now.db)
  {
    hide DeleteAll, FirstTimes, SetStrings;
    DeleteAllIs(before.db, gone);
    var keys := FirstTimes(pairs);
    var base, p := DeleteAll(before.db, gone), KeySet(keys);
    forall k | k in keys ensures Plain(now.db, k) && HoldsOrGone(SetStrings(base, pairs), now.db, gone, k) {
      assert k in p && HoldsOrGone(SetStrings(before.db, pairs), now.db, gone, k);
      SetStringsAlike(before.db, base, pairs, k);
    }
    assert forall k :: k in now.db.deadlines ==> k !in p by {
      assert forall k :: k in p ==> Plain(now.db, k);
    }
    assert now.db.deadlines == now.db.deadlines - p;
    assert base.deadlines - p == before.db.deadlines - (p + KeySet(gone));
    forall k | k !in keys ensures Find(now.db.data, k) == Find(base.data, k) {
      assert k in now.db.data <==> k in now.db.data - p;
      assert k in base.data <==> k in before.db.data - (p + KeySet(gone));
      if k in now.db.data {
        assert (now.db.data - p)[k] == now.db.data[k];
        assert (before.db.data - (p + KeySet(gone)))[k] == before.db.data[k];
      }
    }
    forall k | k in now.db.deadlines ensures k in now.db.data {
      assert k in before.db.deadlines - (p + KeySet(gone));
      assert k in before.db.data - (p + KeySet(gone));
      assert k in now.db.data - p;
    }
  }

  // ----- rollback -----

  lemma BackOnStep(before: Mark, now: Mark, after: Mark, order: seq<Key>, i: nat, gone: seq<Key>)
    requires i < |order| && Overlaid(before, now, KeySet(order), gone) && BackOn(before, now, order[..i])
    requires after.log == now.log && after.tick == now.tick
    requires var key := order[i];
      && after.db.data == Put(now.db.data, key, Find(before.db.data, key))
      && after.stamps == Put(now.stamps, key, Find(before.stamps, key))
      && after.db.deadlines == Put(now.db.deadlines, key, Find(before.db.deadlines, key))
    ensures Overlaid(before, after, KeySet(order), gone) && BackOn(before, after, order[..i + 1])
  {
    hide Overlaid;
    var key := order[i];
    OverlaidTouch(before, now, after, KeySet(order), gone, key);
    forall k | k in order[..i + 1]
      ensures BackupIn(after, k) == BackupIn(before, k) && Find(after.db.deadlines, k) == Find(before.db.deadlines, k)
    {
      if k != key {
        assert k in order[..i];
      }
    }
  }

  lemma PutBackWhenAllOn(before: Mark, now: Mark, keys: seq<Key>, gone: seq<Key>)
    requires Overlaid(before, now, KeySet(keys), gone) && BackOn(before, now, keys)
    ensures now.db == PutBack(before.db, keys, gone)
    ensures now.stamps == before.stamps - (KeySet(gone) - KeySet(keys))
  {
    var p, lost := KeySet(keys), KeySet(gone) - KeySet(keys);
    assert lost * before.db.data.Keys == lost;
    forall k
      ensures Find(now.db.data, k) == Find(before.db.data - lost, k)
      ensures Find(now.db.deadlines, k) == Find(before.db.deadlines - lost, k)
      ensures Find(now.stamps, k) == Find(before.stamps - lost, k)
    {
      if k in p {
        assert BackupIn(now, k) == BackupIn(before, k);
      } else {
        assert Find(now.db.data - p, k) == Find(before.db.data - (p + KeySet(gone)), k);
        assert Find(now.db.deadlines - p, k) == Find(before.db.deadlines - (p + KeySet(gone)), k);
        assert Find(now.stamps - p, k) == Find(before.stamps - (p + KeySet(gone)), k);
      }
    }
    SameMap(now.db.data, before.db.data - lost);
    SameMap(now.db.deadlines, before.db.deadlines - lost);
    SameMap(now.stamps, before.stamps - lost);
  }

  lemma PutBackNothing(db: Db, keys: seq<Key>)
    ensures PutBack(db, keys, []) == db
    ensures KeySet([]) - KeySet(keys) == {}
  {
    assert KeySet([]) == {};
  }

  lemma MSetOutcome(db: Db, pairs: seq<(Key, Bytes)>, t: real, gone: seq<Key>, reply: Reply, after: Db)
    requires db.deadlines.Keys <= db.data.Keys && reply in {Error, Number(0)}
    requires !reply.Error? ==> Stored(DeleteAll(db, gone), pairs, gone, after)
    requires reply.Error? ==> after == PutBack(db, FirstTimes(pairs), gone)
    requires reply.Error? ==> forall k :: k in gone && k in FirstTimes(pairs) ==> k !in db.data
    ensures Outcome(db, MSet(pairs), t, gone, Handled(after, reply, AutoLog(db, MSet(pairs), t, gone)))
  {
    hide Stored, FirstTimes, DeleteAll, PutBack;
    if reply.Error? {
      PutBackNoneLost(db, FirstTimes(pairs), gone);
    }
  }
}
