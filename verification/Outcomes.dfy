/** What handlers may do to the keyspace, with or without a memory limit. */
module Outcomes {
  import opened Ordering
  import opened Numbers
  import opened Commands
  import opened Aof

  // ----- deleting keys -----

  function KeySet(keys: seq<Key>): set<Key> {
    set k | k in keys
  }

  lemma DeleteOne(db: Db, key: Key)
    ensures DeleteAll(db, [key]) == Delete(db, key)
  {
    assert [key][1..] == [];
  }

  /** Deleting keys one by one, as one subtraction. */
  lemma {:induction false} DeleteAllIs(db: Db, keys: seq<Key>)
    ensures DeleteAll(db, keys) == Db(db.data - KeySet(keys), db.deadlines - (KeySet(keys) * db.data.Keys))
    decreases |keys|
  {
    if keys == [] {
      assert KeySet(keys) == {};
    } else {
      DeleteAllIs(Delete(db, keys[0]), keys[1..]);
      assert KeySet(keys) == {keys[0]} + KeySet(keys[1..]);
    }
  }

  lemma SameMap<V>(a: map<Key, V>, b: map<Key, V>)
    requires forall k :: Find(a, k) == Find(b, k)
    ensures a == b
  {
    assert forall k :: k in a ==> Find(a, k) == Find(b, k);
    assert forall k :: k in b ==> Find(a, k) == Find(b, k);
  }

  // ----- MSET -----

  /** Strings without deadlines, or nothing at all. */
  ghost predicate Plain(db: Db, key: Key) {
    key !in db.deadlines && (key in db.data ==> db.data[key].StringValue?)
  }

  lemma {:induction false} FirstTimesKeys(pairs: seq<(Key, Bytes)>)
    ensures forall k :: k in FirstTimes(pairs) <==> exists i :: 0 <= i < |pairs| && pairs[i].0 == k
  {
    if pairs != [] {
      var init, last := pairs[..|pairs| - 1], pairs[|pairs| - 1].0;
      FirstTimesKeys(init);
      forall k ensures k in FirstTimes(pairs) <==> exists i :: 0 <= i < |pairs| && pairs[i].0 == k {
        if k in FirstTimes(init) {
          var i :| 0 <= i < |init| && init[i].0 == k;
          assert pairs[i].0 == k;
        }
        assert pairs[|pairs| - 1].0 == last;
        if exists i :: 0 <= i < |pairs| && pairs[i].0 == k {
          var i :| 0 <= i < |pairs| && pairs[i].0 == k;
          assert i < |init| ==> init[i].0 == k;
        }
      }
    }
  }

  /** At pair `p` the key `a` is named, and `b` has not been. */
  predicate NamedFirst(pairs: seq<(Key, Bytes)>, p: nat, a: Key, b: Key) {
    p < |pairs| && pairs[p].0 == a && forall q :: 0 <= q <= p ==> pairs[q].0 != b
  }

  ghost predicate NamedBefore(pairs: seq<(Key, Bytes)>, a: Key, b: Key) {
    exists p: nat :: NamedFirst(pairs, p, a, b)
  }

  ghost predicate InOrderNamed(pairs: seq<(Key, Bytes)>, keys: seq<Key>) {
    forall i, j :: 0 <= i < j < |keys| ==> NamedBefore(pairs, keys[i], keys[j])
  }

  /** Each key once, in the order in which the pairs first name them. */
  lemma {:induction false} FirstTimesInOrder(pairs: seq<(Key, Bytes)>)
    ensures InOrderNamed(pairs, FirstTimes(pairs))
  {
    if pairs != [] {
      var n := |pairs| - 1;
      var init, before, keys := pairs[..n], FirstTimes(pairs[..n]), FirstTimes(pairs);
      FirstTimesInOrder(init);
      FirstTimesKeys(init);
      hide FirstTimes;
      forall i, j | 0 <= i < j < |keys| ensures NamedBefore(pairs, keys[i], keys[j]) {
        assert keys[i] == before[i] && before[i] in before;
        if j < |before| {
          assert NamedBefore(init, before[i], before[j]);
          var p: nat :| NamedFirst(init, p, before[i], before[j]);
          StillFirst(pairs, p, keys[i], keys[j]);
        } else {
          var p: nat :| p < n && init[p].0 == before[i];
          NotNamed(pairs, p, keys[i], keys[j]);
        }
      }
    }
  }

  lemma StillFirst(pairs: seq<(Key, Bytes)>, p: nat, a: Key, b: Key)
    requires pairs != [] && NamedFirst(pairs[..|pairs| - 1], p, a, b)
    ensures NamedFirst(pairs, p, a, b)
  {
    var init := pairs[..|pairs| - 1];
    assert forall q :: 0 <= q <= p ==> pairs[q] == init[q];
  }

  lemma NotNamed(pairs: seq<(Key, Bytes)>, p: nat, a: Key, b: Key)
    requires p < |pairs| - 1 && pairs[p].0 == a && b !in FirstTimes(pairs[..|pairs| - 1])
    ensures NamedFirst(pairs, p, a, b)
  {
    var init := pairs[..|pairs| - 1];
    FirstTimesKeys(init);
    forall q | 0 <= q <= p ensures pairs[q].0 != b {
      assert init[q].0 == pairs[q].0;
    }
  }

  lemma {:induction false} SetStringsKeys(db: Db, pairs: seq<(Key, Bytes)>)
    ensures var done := SetStrings(db, pairs);
      && (forall k :: k in FirstTimes(pairs) ==> Plain(done, k) && k in done.data)
      && (forall k :: k !in FirstTimes(pairs) ==> Find(done.data, k) == Find(db.data, k))
      && done.deadlines == db.deadlines - KeySet(FirstTimes(pairs))
      && (Tidy(db) ==> done.deadlines.Keys <= done.data.Keys)
    decreases |pairs|
  {
    if pairs == [] {
    } else {
      var (key, value) := pairs[0];
      var mid := SetString(db, key, value);
      SetStringsKeys(mid, pairs[1..]);
      FirstTimesKeys(pairs);
      FirstTimesKeys(pairs[1..]);
      forall k ensures k in FirstTimes(pairs) <==> k == key || k in FirstTimes(pairs[1..]) {
        if k in FirstTimes(pairs) {
          var i :| 0 <= i < |pairs| && pairs[i].0 == k;
          assert i > 0 ==> pairs[1..][i - 1].0 == k;
        }
        if k in FirstTimes(pairs[1..]) {
          var i :| 0 <= i < |pairs[1..]| && pairs[1..][i].0 == k;
          assert pairs[i + 1].0 == k;
        }
        assert pairs[0].0 == key;
      }
    }
  }

  /** The key holds the value wanted, or was deleted again. */
  predicate HoldsOrGone(want: Db, done: Db, gone: seq<Key>, k: Key) {
    Find(done.data, k) == Find(want.data, k) || (k !in done.data && k in gone)
  }

  /** What MSET leaves when it succeeds, in a keyspace from which `gone` were deleted: its keys
  hold their last values, without deadlines, or were among the deleted; everything else is as it
  was. */
  ghost predicate Stored(before: Db, pairs: seq<(Key, Bytes)>, gone: seq<Key>, done: Db) {
    var keys := FirstTimes(pairs);
    && done.deadlines == before.deadlines - KeySet(keys)
    && done.deadlines.Keys <= done.data.Keys
    && (forall k :: k in keys ==> Plain(done, k) && HoldsOrGone(SetStrings(before, pairs), done, gone, k))
    && (forall k :: k !in keys ==> Find(done.data, k) == Find(before.data, k))
  }

  /** If none of its keys was deleted, it is the MSET of the handler without a limit. */
  lemma StoredWhole(before: Db, pairs: seq<(Key, Bytes)>, gone: seq<Key>, done: Db)
    requires Tidy(before) && Stored(before, pairs, gone, done) && forall k :: k in gone ==> k !in FirstTimes(pairs)
    ensures done == SetStrings(before, pairs)
  {
    SetStringsKeys(before, pairs);
    var want := SetStrings(before, pairs);
    forall k ensures Find(done.data, k) == Find(want.data, k) {
      if k in FirstTimes(pairs) {
        assert HoldsOrGone(want, done, gone, k);
      }
    }
    SameMap(done.data, want.data);
  }

  /** The last values of the keys it names do not depend on what was there. */
  lemma {:induction false} SetStringsAlike(a: Db, b: Db, pairs: seq<(Key, Bytes)>, k: Key)
    requires k in FirstTimes(pairs)
    ensures Find(SetStrings(a, pairs).data, k) == Find(SetStrings(b, pairs).data, k)
    decreases |pairs|
  {
    FirstTimesKeys(pairs);
    var (key, value) := pairs[0];
    if k in FirstTimes(pairs[1..]) {
      SetStringsAlike(SetString(a, key, value), SetString(b, key, value), pairs[1..], k);
    } else {
      FirstTimesKeys(pairs[1..]);
      var i :| 0 <= i < |pairs| && pairs[i].0 == k;
      assert i > 0 ==> pairs[1..][i - 1].0 == k;
      SetStringsKeys(SetString(a, key, value), pairs[1..]);
      SetStringsKeys(SetString(b, key, value), pairs[1..]);
    }
  }

  // ----- how a command may end -----

  /** The keyspace once a handler has looked at the key it is going to write. */
  function Looked(db: Db, cmd: Command, t: real): Db {
    if cmd.Write? && HasArguments(cmd.op) then Purge(db, cmd.key, t) else db
  }

  function LookedLog(db: Db, cmd: Command, t: real): seq<Command> {
    if cmd.Write? && HasArguments(cmd.op) then PurgeLog(db, cmd.key, t) else []
  }

  /** How a command may end when `gone` were deleted, and recorded as deleted, to make room for
  it or because their time had come: either as if they had been deleted first and the command
  handled then, or with an error and nothing but those deletions. */
  ghost predicate Outcome(db: Db, cmd: Command, t: real, gone: seq<Key>, h: Handled) {
    var base := DeleteAll(Looked(db, cmd, t), gone);
    if cmd.Set? || cmd.MSet? || cmd.Write? then
      && h.log == LookedLog(db, cmd, t) + Dels(gone)
      && (if h.reply.Error? then h.db == base
          else if cmd.MSet? then h.reply == Number(0) && Stored(base, cmd.pairs, gone, h.db)
          else h.reply == Handle(base, cmd, t).reply && h.db == Handle(base, cmd, t).db)
    else
      gone == [] && h == Handle(db, cmd, t)
  }

  /** The records of the deletions on the way. */
  function AutoLog(db: Db, cmd: Command, t: real, gone: seq<Key>): seq<Command> {
    if cmd.Set? || cmd.MSet? || cmd.Write? then LookedLog(db, cmd, t) + Dels(gone) else Handle(db, cmd, t).log
  }

  lemma NothingLooked(db: Db, cmd: Command, t: real, gone: seq<Key>)
    requires cmd.Set? || cmd.MSet?
    ensures AutoLog(db, cmd, t, gone) == Dels(gone) && LookedLog(db, cmd, t) == []
  {
    assert [] + Dels(gone) == Dels(gone);
  }

  lemma NothingRecorded(db: Db, cmd: Command, u: real)
    ensures Record(db, cmd, Error, u) == Recorded(db, [])
  {
  }

  /** Once looked at, the key is not due any more, whatever else is deleted. */
  lemma LookedNotDue(db: Db, key: Key, t: real, gone: seq<Key>)
    requires Tidy(db)
    ensures var base := DeleteAll(Purge(db, key, t), gone); !Due(base, key, t) && Purge(base, key, t) == base
  {
    DeleteAllIs(Purge(db, key, t), gone);
  }

  /** Without a memory limit a handler ends in just one way, with nothing deleted for room. */
  lemma HandleIsOutcome(db: Db, cmd: Command, t: real)
    requires Tidy(db)
    ensures Outcome(db, cmd, t, [], Handle(db, cmd, t))
  {
    match cmd
    case MSet(pairs) => SetStringsKeys(db, pairs);
    case Write(key, op) => LookedNotDue(db, key, t, []);
    case _ =>
  }

  /** With nothing deleted, an outcome with the reply a handler gives without a limit is what
  that handler does. */
  lemma UnlimitedOutcome(db: Db, cmd: Command, t: real, h: Handled)
    requires cmd.Set? || cmd.Write?
    requires Outcome(db, cmd, t, [], h) && Tidy(db) && h.reply == Handle(db, cmd, t).reply
    ensures h == Handle(db, cmd, t)
  {
    if cmd.Write? {
      LookedNotDue(db, cmd.key, t, []);
    }
  }

  // ----- a deadline belongs to a key that is there -----

  lemma {:induction false} PurgeAllTidy(db: Db, keys: seq<Key>, t: real)
    requires Tidy(db)
    ensures PurgeAll(db, keys, t).deadlines.Keys <= PurgeAll(db, keys, t).data.Keys
    decreases |keys|
  {
    if keys != [] {
      PurgeAllTidy(Purge(db, keys[0], t), keys[1..], t);
    }
  }

  lemma {:induction false} RecordFinalTidy(db: Db, keys: seq<Key>, u: real)
    requires Tidy(db)
    ensures var r := RecordFinal(db, keys, u); r.db.deadlines.Keys <= r.db.data.Keys
    decreases |keys|
  {
    if keys != [] {
      RecordFinalTidy(Purge(db, keys[0], u), keys[1..], u);
    }
  }

  lemma HandleTidy(db: Db, cmd: Command, t: real)
    requires Tidy(db)
    ensures Handle(db, cmd, t).db.deadlines.Keys <= Handle(db, cmd, t).db.data.Keys
  {
    hide Apply;
    match cmd
    case MSet(pairs) => SetStringsKeys(db, pairs);
    case Del(keys) => DeleteAllIs(db, keys);
    case Read(keys) => PurgeAllTidy(db, keys, t);
    case _ =>
  }

  lemma RecordTidy(db: Db, cmd: Command, reply: Reply, u: real)
    requires Tidy(db)
    ensures Record(db, cmd, reply, u).db.deadlines.Keys <= Record(db, cmd, reply, u).db.data.Keys
  {
    if cmd.MSet? {
      RecordFinalTidy(db, FirstTimes(cmd.pairs), u);
    }
  }

  // ----- rollback -----

  /** What a failed MSET leaves: the keys it names are put back, other deletions stay. */
  function PutBack(db: Db, keys: seq<Key>, gone: seq<Key>): Db {
    var lost := KeySet(gone) - KeySet(keys);
    Db(db.data - lost, db.deadlines - (lost * db.data.Keys))
  }

  lemma PutBackNoneLost(db: Db, keys: seq<Key>, gone: seq<Key>)
    requires forall k :: k in gone && k in keys ==> k !in db.data
    requires Tidy(db)
    ensures PutBack(db, keys, gone) == DeleteAll(db, gone)
  {
    DeleteAllIs(db, gone);
  }
}
