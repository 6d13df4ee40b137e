/** Replaying what one command leaves in the log, at any clock: what it makes of the keyspace
that is left at that clock, and exactly when that is not what the command left. */
module LateReplay {
  import opened Ordering
  import opened Numbers
  import opened Commands
  import opened Aof
  import opened Outcomes
  import opened Survival

  // ----- what is left at the replay clock -----

  lemma LateNotDue(db: Db, clock: real, key: Key)
    ensures !Due(Late(db, clock), key, clock) && Purge(Late(db, clock), key, clock) == Late(db, clock)
  {
  }

  lemma LateAt(db: Db, clock: real, key: Key)
    ensures !Stale(db, key, clock) ==> Find(Late(db, clock).data, key) == Find(db.data, key)
    ensures Stale(db, key, clock) ==> Find(Late(db, clock).data, key) == None
    ensures key in Late(db, clock).deadlines <==> key in db.deadlines && !Stale(db, key, clock)
  {
  }

  lemma LateTidy(db: Db, clock: real)
    requires Tidy(db)
    ensures Tidy(Late(db, clock))
  {
  }

  lemma DeleteIs(db: Db, key: Key)
    requires Tidy(db)
    ensures Delete(db, key) == Db(db.data - {key}, db.deadlines - {key}) && Tidy(Delete(db, key))
  {
  }

  lemma LateDelete(db: Db, clock: real, key: Key)
    requires Tidy(db)
    ensures Late(Delete(db, key), clock) == Delete(Late(db, clock), key)
  {
    hide Rounded;
    DeleteIs(db, key);
    DeleteIs(Late(db, clock), key);
  }

  /** On time, what is left is everything. */
  lemma LateOnTime(db: Db, clock: real)
    requires NoneStale(db, clock)
    ensures Late(db, clock).data == db.data
    ensures Late(db, clock).deadlines == map k | k in db.deadlines :: Rounded(db.deadlines[k])
  {
  }

  // ----- deletions -----

  /** A recorded deletion, automatic or not. */
  lemma ReplayDeleted(db: Db, clock: real, key: Key)
    requires Tidy(db)
    ensures ReplayFrom(Late(db, clock), [Del([key])], clock) == Some(Late(Delete(db, key), clock))
    ensures ReplayFrom(Late(db, clock), [Del([key]), Del([key])], clock) == Some(Late(Delete(db, key), clock))
  {
    hide Late;
    var rep := Late(db, clock);
    LateDelete(db, clock, key);
    DeleteOne(rep, key);
    ReplayOne(rep, Del([key]), clock);
    DeleteOne(Delete(rep, key), key);
    ReplayOne(Delete(rep, key), Del([key]), clock);
    assert [Del([key]), Del([key])] == [Del([key])] + [Del([key])];
    ReplaySteps(rep, [Del([key])], Delete(rep, key), [Del([key])], Some(Delete(rep, key)), clock);
  }

  /** An expired key found on the way. */
  lemma ReplayPurged(db: Db, clock: real, key: Key, t: real)
    requires Tidy(db)
    ensures ReplayFrom(Late(db, clock), PurgeLog(db, key, t), clock) == Some(Late(Purge(db, key, t), clock))
    ensures Tidy(Purge(db, key, t))
  {
    hide Late;
    ReplayDeleted(db, clock, key);
    DeleteIs(db, key);
  }

  /** Automatic deletions are recorded one by one. */
  lemma {:induction false} ReplayDels(db: Db, clock: real, keys: seq<Key>)
    requires Tidy(db)
    ensures ReplayFrom(Late(db, clock), Dels(keys), clock) == Some(Late(DeleteAll(db, keys), clock))
    ensures Tidy(DeleteAll(db, keys))
    decreases |keys|
  {
    hide Late;
    if keys != [] {
      var mid := Delete(db, keys[0]);
      DeleteIs(db, keys[0]);
      ReplayDeleted(db, clock, keys[0]);
      ReplayDels(mid, clock, keys[1..]);
      assert Dels(keys) == [Del([keys[0]])] + Dels(keys[1..]);
      ReplaySteps(Late(db, clock), [Del([keys[0]])], Late(mid, clock), Dels(keys[1..]), Some(Late(DeleteAll(db, keys), clock)), clock);
    }
  }

  lemma {:induction false} LateDeleteAll(db: Db, clock: real, keys: seq<Key>)
    requires Tidy(db)
    ensures DeleteAll(Late(db, clock), keys) == Late(DeleteAll(db, keys), clock)
    decreases |keys|
  {
    hide Late;
    if keys != [] {
      LateDelete(db, clock, keys[0]);
      DeleteIs(db, keys[0]);
      LateDeleteAll(Delete(db, keys[0]), clock, keys[1..]);
    }
  }

  // ----- typed writes -----

  /** The record of a write is replayed on a key that is not there any more. */
  predicate MissedWrite(db: Db, key: Key, op: Op, u: real, clock: real) {
    var e := Apply(op, Find(db.data, key));
    Stale(db, key, clock) && db.deadlines[key] > u && !e.Refuses? && !e.Removes? && !Apply(op, None).Leaves?
  }

  lemma NothingToRemove(op: Op)
    requires HasArguments(op)
    ensures !Apply(op, None).Removes?
  {
  }

  /** A write handled, and its record replayed. */
  lemma ReplayWrite(db: Db, clock: real, key: Key, op: Op, u: real)
    requires Tidy(db) && HasArguments(op) && !Apply(op, Find(db.data, key)).Refuses?
    ensures var r := Record(Effected(db, key, Apply(op, Find(db.data, key))), Write(key, op), Number(0), u);
      Tidy(r.db) && (ReplayFrom(Late(db, clock), r.log, clock) == Some(Late(r.db, clock)) <==> !MissedWrite(db, key, op, u, clock))
  {
    hide Apply, Late;
    var e := Apply(op, Find(db.data, key));
    var done := Effected(db, key, e);
    var r := Record(done, Write(key, op), Number(0), u);
    DeleteIs(db, key);
    if key in r.db.data {
      assert r.db == done && r.log == [Write(key, op)];
      ReplayKept(db, clock, key, op);
    } else {
      WriteGone(db, key, e, op, u);
      ReplayDeleted(db, clock, key);
    }
  }

  lemma WriteGone(db: Db, key: Key, e: Effect, op: Op, u: real)
    requires Tidy(db)
    requires var r := Record(Effected(db, key, e), Write(key, op), Number(0), u); key !in r.db.data
    ensures var r := Record(Effected(db, key, e), Write(key, op), Number(0), u);
      && r.db == Delete(db, key) && (r.log == [Del([key])] || r.log == [Del([key]), Del([key])])
      && (e.Removes? || key !in db.deadlines || db.deadlines[key] <= u)
  {
    DeleteIs(db, key);
    match e
    case Becomes(v) => assert db.data[key := v] - {key} == db.data - {key};
    case _ =>
  }

  /** The write is in the log as it was given. */
  lemma ReplayKept(db: Db, clock: real, key: Key, op: Op)
    requires Tidy(db) && HasArguments(op)
    requires var e := Apply(op, Find(db.data, key)); !e.Refuses? && !e.Removes? && key in Effected(db, key, e).data
    ensures var done := Effected(db, key, Apply(op, Find(db.data, key)));
      (ReplayFrom(Late(db, clock), [Write(key, op)], clock) == Some(Late(done, clock))) ==
      !(Stale(db, key, clock) && !Apply(op, None).Leaves?)
  {
    hide Apply, Rounded;
    var rep := Late(db, clock);
    LateNotDue(db, clock, key);
    LateAt(db, clock, key);
    ReplayOne(rep, Write(key, op), clock);
    NothingToRemove(op);
    var e := Apply(op, Find(db.data, key));
    var done := Effected(db, key, e);
    if Stale(db, key, clock) {
      assert Late(done, clock) == rep;
      assert Apply(op, None).Becomes? ==> key in Effected(rep, key, Apply(op, None)).data;
    } else {
      assert Late(done, clock) == Effected(rep, key, e);
    }
  }

  // ----- deadlines -----

  /** The deadline of a key is replayed on a keyspace that may not have the key any more. */
  lemma ReplayTimed(db: Db, clock: real, key: Key, deadline: real)
    requires Tidy(db) && key in db.data
    ensures var done := db.(deadlines := db.deadlines[key := deadline]);
      (ReplayFrom(Late(db, clock), [PExpireAt(key, DeadlineMs(deadline))], clock) == Some(Late(done, clock))) ==
      !(Stale(db, key, clock) && Rounded(deadline) > clock)
  {
    hide DeadlineMs, Late;
    var rep, record := Late(db, clock), PExpireAt(key, DeadlineMs(deadline));
    LateNotDue(db, clock, key);
    LateAt(db, clock, key);
    LateTimed(db, clock, key, deadline);
    LateDelete(db, clock, key);
    LateTidy(db, clock);
    DeleteIs(rep, key);
    ReplayOne(rep, record, clock);
  }

  /** What is left once the deadline of a key has been set. */
  lemma LateTimed(db: Db, clock: real, key: Key, deadline: real)
    requires Tidy(db) && key in db.data
    ensures var rep, left := Late(db, clock), Late(db.(deadlines := db.deadlines[key := deadline]), clock);
      && (Rounded(deadline) <= clock ==> left == Db(rep.data - {key}, rep.deadlines - {key}))
      && (Rounded(deadline) > clock ==> key in left.data)
      && (Rounded(deadline) > clock && !Stale(db, key, clock) ==> left == rep.(deadlines := rep.deadlines[key := Rounded(deadline)]))
  {
    hide Rounded;
  }

  /** A deadline set on a key that is there, recorded at time `u`. */
  lemma ReplayDeadline(db: Db, clock: real, key: Key, deadline: real, u: real)
    requires Tidy(db) && key in db.data
    ensures var done := db.(deadlines := db.deadlines[key := deadline]);
      var purged := Purge(done, key, u);
      var log := PurgeLog(done, key, u) + if key in purged.data then DeadlineLog(purged, key) else [];
      && Tidy(purged)
      && (ReplayFrom(Late(db, clock), log, clock) == Some(Late(purged, clock))) ==
        !(Stale(db, key, clock) && deadline > u && Rounded(deadline) > clock)
    ensures var done := db.(deadlines := db.deadlines[key := deadline]);
      var purged := Purge(done, key, u);
      && (key in purged.data <==> deadline > u)
      && (deadline > u ==> exists ms :: DeadlineLog(purged, key) == [PExpireAt(key, ms)] && WithinMs(deadline, ms))
  {
    hide DeadlineMs, Late, Stale, WithinMs;
    DeadlineWithinMs(deadline);
    var done := db.(deadlines := db.deadlines[key := deadline]);
    DeleteIs(db, key);
    if deadline <= u {
      assert Purge(done, key, u) == Delete(db, key);
      ReplayDeleted(db, clock, key);
      assert PurgeLog(done, key, u) + [] == [Del([key])];
    } else {
      assert PurgeLog(done, key, u) + DeadlineLog(done, key) == [PExpireAt(key, DeadlineMs(deadline))];
      ReplayTimed(db, clock, key, deadline);
    }
  }

  /** A string set, with or without a deadline: this is right at every clock. */
  lemma ReplaySet(db: Db, clock: real, key: Key, value: Bytes, options: seq<SetOption>, deadline: Option<real>, u: real)
    requires Tidy(db)
    ensures var set' := SetString(db, key, value);
      var done := if deadline.Some? then set'.(deadlines := set'.deadlines[key := deadline.value]) else set';
      var r := Record(done, Set(key, value, options), Number(0), u);
      Tidy(r.db) && ReplayFrom(Late(db, clock), r.log, clock) == Some(Late(r.db, clock))
  {
    hide DeadlineMs, Rounded, ReplayFrom;
    var set' := SetString(db, key, value);
    var done := if deadline.Some? then set'.(deadlines := set'.deadlines[key := deadline.value]) else set';
    var r := Record(done, Set(key, value, options), Number(0), u);
    if deadline.Some? && deadline.value <= u {
      DeleteIs(db, key);
      SetAndGone(db, key, value, deadline.value, u);
      ReplayDeleted(db, clock, key);
      assert r.log == [Del([key]), Del([key])];
    } else {
      var first := Set(key, value, []);
      ReplayPlainSet(db, clock, key, value);
      if deadline.Some? {
        var last := PExpireAt(key, DeadlineMs(deadline.value));
        assert r.db == done && r.log == [first] + [last];
        ReplayTimed(set', clock, key, deadline.value);
        ReplaySteps(Late(db, clock), [first], Late(set', clock), [last], Some(Late(done, clock)), clock);
      } else {
        assert r.db == done && r.log == [first] + [] == [first];
      }
    }
  }

  lemma SetAndGone(db: Db, key: Key, value: Bytes, deadline: real, u: real)
    requires Tidy(db) && deadline <= u
    ensures var set' := SetString(db, key, value);
      Purge(set'.(deadlines := set'.deadlines[key := deadline]), key, u) == Delete(db, key)
  {
    DeleteIs(db, key);
    var set' := SetString(db, key, value);
    assert set'.data - {key} == db.data - {key};
    assert set'.deadlines[key := deadline] - {key} == db.deadlines - {key};
  }

  lemma ReplayPlainSet(db: Db, clock: real, key: Key, value: Bytes)
    requires Tidy(db)
    ensures ReplayFrom(Late(db, clock), [Set(key, value, [])], clock) == Some(Late(SetString(db, key, value), clock))
    ensures Tidy(SetString(db, key, value)) && !Stale(SetString(db, key, value), key, clock)
  {
    hide Rounded;
    ReplayOne(Late(db, clock), Set(key, value, []), clock);
    assert Late(SetString(db, key, value), clock) == SetString(Late(db, clock), key, value);
  }

  /** PERSIST of a key that has a deadline. */
  lemma ReplayPersist(db: Db, clock: real, key: Key)
    requires Tidy(db) && key in db.deadlines
    ensures var done := db.(deadlines := db.deadlines - {key});
      && Tidy(done)
      && (ReplayFrom(Late(db, clock), [Persist(key)], clock) == Some(Late(done, clock))) == !Stale(db, key, clock)
  {
    hide Rounded;
    var rep, done := Late(db, clock), db.(deadlines := db.deadlines - {key});
    LateNotDue(db, clock, key);
    LateAt(db, clock, key);
    ReplayOne(rep, Persist(key), clock);
    if Stale(db, key, clock) {
      assert key in Late(done, clock).data;
    } else {
      assert Late(done, clock) == rep.(deadlines := rep.deadlines - {key});
    }
  }

  // ----- MSET: records of final values -----

  /** Two keyspaces that agree off the keys of `s`. */
  ghost predicate AgreeBut(a: Db, b: Db, s: set<Key>) {
    a.data - s == b.data - s && a.deadlines - s == b.deadlines - s
  }

  /** The record of one key's final value. */
  function FinalRecord(db: Db, key: Key): Command
    requires Plain(db, key)
  {
    if key in db.data then Set(key, db.data[key].bytes, []) else Del([key])
  }

  lemma ReplayFinalOne(done: Db, rep: Db, clock: real, key: Key, s: set<Key>) returns (mid: Db)
    requires Tidy(done) && Tidy(rep) && AgreeBut(rep, Late(done, clock), s + {key}) && Plain(done, key)
    ensures ReplayFrom(rep, [FinalRecord(done, key)], clock) == Some(mid) && AgreeBut(mid, Late(done, clock), s) && Tidy(mid)
  {
    hide Rounded;
    mid := if key in done.data then SetString(rep, key, done.data[key].bytes) else Delete(rep, key);
    DeleteOne(rep, key);
    DeleteIs(rep, key);
    ReplayOne(rep, FinalRecord(done, key), clock);
    var target := Late(done, clock);
    LateAt(done, clock, key);
    forall k | k !in s
      ensures Find(mid.data, k) == Find(target.data, k)
      ensures k in mid.deadlines <==> k in target.deadlines
      ensures k in mid.deadlines ==> mid.deadlines[k] == target.deadlines[k]
    {
      if k != key {
        AgreeAt(rep, target, s + {key}, k);
      }
    }
    AgreeWhen(mid, target, s);
  }

  lemma AgreeAt(a: Db, b: Db, s: set<Key>, k: Key)
    requires AgreeBut(a, b, s) && k !in s
    ensures Find(a.data, k) == Find(b.data, k)
    ensures k in a.deadlines <==> k in b.deadlines
    ensures k in a.deadlines ==> a.deadlines[k] == b.deadlines[k]
  {
    assert k in a.data <==> k in a.data - s;
    assert k in b.data <==> k in b.data - s;
    assert k in a.data ==> (a.data - s)[k] == a.data[k];
    assert k in b.data ==> (b.data - s)[k] == b.data[k];
    assert k in a.deadlines <==> k in a.deadlines - s;
    assert k in b.deadlines <==> k in b.deadlines - s;
    assert k in a.deadlines ==> (a.deadlines - s)[k] == a.deadlines[k];
    assert k in b.deadlines ==> (b.deadlines - s)[k] == b.deadlines[k];
  }

  lemma AgreeWhen(a: Db, b: Db, s: set<Key>)
    requires forall k :: k !in s ==> Find(a.data, k) == Find(b.data, k)
    requires forall k :: k !in s ==> (k in a.deadlines <==> k in b.deadlines)
    requires forall k :: k !in s && k in a.deadlines ==> a.deadlines[k] == b.deadlines[k]
    ensures AgreeBut(a, b, s)
  {
    assert forall k :: k !in s && k in a.data ==> Find(a.data, k) == Find(b.data, k);
    assert forall k :: k !in s && k in b.data ==> Find(a.data, k) == Find(b.data, k);
  }

  lemma {:induction false} ReplayFinal(done: Db, rep: Db, clock: real, keys: seq<Key>, u: real)
    requires Tidy(done) && Tidy(rep) && AgreeBut(rep, Late(done, clock), KeySet(keys))
    requires forall k :: k in keys ==> Plain(done, k)
    ensures var r := RecordFinal(done, keys, u);
      r.db == done && ReplayFrom(rep, r.log, clock) == Some(Late(done, clock))
    decreases |keys|
  {
    hide ReplayFrom, AgreeBut, Late;
    if keys == [] {
      assert KeySet(keys) == {};
      AgreeEverywhere(rep, Late(done, clock));
      NothingToReplay(rep, clock);
    } else {
      var key, others := keys[0], keys[1..];
      assert Plain(done, key);
      assert KeySet(keys) == KeySet(others) + {key};
      var mid := ReplayFinalOne(done, rep, clock, key, KeySet(others));
      ReplayFinal(done, mid, clock, others, u);
      var rest := RecordFinal(done, others, u);
      assert RecordFinal(done, keys, u).log == [FinalRecord(done, key)] + rest.log;
      ReplaySteps(rep, [FinalRecord(done, key)], mid, rest.log, Some(Late(done, clock)), clock);
    }
  }

  lemma AgreeEverywhere(a: Db, b: Db)
    requires AgreeBut(a, b, {})
    ensures a == b
  {
    assert a.data - {} == a.data && b.data - {} == b.data;
    assert a.deadlines - {} == a.deadlines && b.deadlines - {} == b.deadlines;
  }

  /** MSET recorded: this is right at every clock, whatever was deleted meanwhile. */
  lemma ReplayMSet(base: Db, done: Db, clock: real, pairs: seq<(Key, Bytes)>, gone: seq<Key>, u: real)
    requires Tidy(base) && Stored(base, pairs, gone, done)
    ensures var r := Record(done, MSet(pairs), Number(0), u);
      Tidy(r.db) && r.db == done && ReplayFrom(Late(base, clock), r.log, clock) == Some(Late(done, clock))
  {
    hide Rounded;
    var keys, rep, target := FirstTimes(pairs), Late(base, clock), Late(done, clock);
    forall k | k !in KeySet(keys)
      ensures Find(rep.data, k) == Find(target.data, k)
      ensures k in rep.deadlines <==> k in target.deadlines
      ensures k in rep.deadlines ==> rep.deadlines[k] == target.deadlines[k]
    {
      assert k !in keys && Find(done.data, k) == Find(base.data, k);
      LateAt(base, clock, k);
      LateAt(done, clock, k);
    }
    AgreeWhen(rep, target, KeySet(keys));
    ReplayFinal(done, rep, clock, keys, u);
  }

  // ----- reads -----

  /** Reads, and passes of active expiry over a sample of keys. */
  lemma {:induction false} ReplayRead(db: Db, clock: real, keys: seq<Key>, t: real)
    requires Tidy(db)
    ensures ReplayFrom(Late(db, clock), PurgeAllLog(db, keys, t), clock) == Some(Late(PurgeAll(db, keys, t), clock))
    ensures Tidy(PurgeAll(db, keys, t))
    decreases |keys|
  {
    hide ReplayFrom, Late;
    if keys == [] {
      NothingToReplay(Late(db, clock), clock);
    } else {
      var mid := Purge(db, keys[0], t);
      ReplayPurged(db, clock, keys[0], t);
      ReplayRead(mid, clock, keys[1..], t);
      ReplaySteps(Late(db, clock), PurgeLog(db, keys[0], t), Late(mid, clock), PurgeAllLog(mid, keys[1..], t),
        Some(Late(PurgeAll(db, keys, t), clock)), clock);
    }
  }

  // ----- one command -----

  /** The record of the command, replayed at the clock, does not do what the command did. For a
  write, a PERSIST or a new deadline it is because the key is not there any more; for EXPIRE with
  no time left, because it is still there. */
  predicate Breaks(db: Db, cmd: Command, t: real, u: real, clock: real) {
    match cmd
    case Write(key, op) =>
      HasArguments(op) && MissedWrite(Purge(db, key, t), key, op, u, clock)
    case Expire(key, seconds) =>
      var met, deadline := Purge(db, key, t), t + seconds as real;
      key in met.data &&
      if seconds <= 0 then !Stale(met, key, clock)
      else Stale(met, key, clock) && deadline > u && Rounded(deadline) > clock
    case PExpireAt(key, ms) =>
      var met, deadline := Purge(db, key, t), ms as real / 1000.0;
      key in met.data && Stale(met, key, clock) && deadline > t && deadline > u && deadline > clock
    case Persist(key) =>
      var met := Purge(db, key, t);
      key in met.data && Stale(met, key, clock)
    case _ => false
  }

  lemma ReplayDeletions(db: Db, clock: real, cmd: Command, t: real, gone: seq<Key>)
    requires Tidy(db)
    ensures var base := DeleteAll(Looked(db, cmd, t), gone);
      Tidy(base) && ReplayFrom(Late(db, clock), LookedLog(db, cmd, t) + Dels(gone), clock) == Some(Late(base, clock))
  {
    hide DeleteAll, Late;
    var looked := Looked(db, cmd, t);
    if cmd.Write? && HasArguments(cmd.op) {
      ReplayPurged(db, clock, cmd.key, t);
    } else {
      NothingToReplay(Late(db, clock), clock);
    }
    ReplayDels(looked, clock, gone);
    ReplaySteps(Late(db, clock), LookedLog(db, cmd, t), Late(looked, clock), Dels(gone), Some(Late(DeleteAll(looked, gone), clock)), clock);
  }

  /** How a step is replayed, the deletions first. */
  lemma ReplayBoth(db: Db, base: Db, end: Db, clock: real, first: seq<Command>, last: seq<Command>)
    requires ReplayFrom(Late(db, clock), first, clock) == Some(Late(base, clock))
    ensures ReplayFrom(Late(db, clock), first + last, clock) == ReplayFrom(Late(base, clock), last, clock)
  {
    ReplayConcat(Late(db, clock), first, last, clock);
  }

  lemma StepWrite(db: Db, clock: real, key: Key, op: Op, t: real, u: real, gone: seq<Key>, h: Handled)
    requires Tidy(db) && Outcome(db, Write(key, op), t, gone, h)
    ensures var cmd := Write(key, op);
      var r := Record(h.db, cmd, h.reply, u);
      && Tidy(r.db)
      && (ReplayFrom(Late(db, clock), h.log + r.log, clock) == Some(Late(r.db, clock))) ==
        (h.reply.Error? || !Breaks(DeleteAll(Looked(db, cmd, t), gone), cmd, t, u, clock))
  {
    hide Apply, DeleteAll, ReplayFrom, Late, MissedWrite;
    var cmd := Write(key, op);
    var r := Record(h.db, cmd, h.reply, u);
    var base := DeleteAll(Looked(db, cmd, t), gone);
    ReplayDeletions(db, clock, cmd, t, gone);
    ReplayBoth(db, base, r.db, clock, h.log, r.log);
    if h.reply.Error? {
      NothingRecorded(h.db, cmd, u);
      NothingToReplay(Late(base, clock), clock);
    } else {
      LookedNotDue(db, key, t, gone);
      ReplayWrite(base, clock, key, op, u);
    }
  }

  lemma StepSet(db: Db, clock: real, cmd: Command, t: real, u: real, gone: seq<Key>, h: Handled)
    requires cmd.Set? && Tidy(db) && Outcome(db, cmd, t, gone, h)
    ensures var r := Record(h.db, cmd, h.reply, u);
      Tidy(r.db) && ReplayFrom(Late(db, clock), h.log + r.log, clock) == Some(Late(r.db, clock))
  {
    hide DeleteAll, ReplayFrom, Late, Record, TtlOf;
    var r := Record(h.db, cmd, h.reply, u);
    var base := DeleteAll(db, gone);
    ReplayDeletions(db, clock, cmd, t, gone);
    ReplayBoth(db, base, r.db, clock, h.log, r.log);
    if h.reply.Error? {
      NothingRecorded(h.db, cmd, u);
      NothingToReplay(Late(base, clock), clock);
    } else {
      var ttl := TtlOf(cmd.options, NoTtl);
      var deadline := if ttl.Seconds? then Some(t + ttl.s) else None;
      ReplaySet(base, clock, cmd.key, cmd.value, cmd.options, deadline, u);
    }
  }

  lemma StepMSet(db: Db, clock: real, cmd: Command, t: real, u: real, gone: seq<Key>, h: Handled)
    requires cmd.MSet? && Tidy(db) && Outcome(db, cmd, t, gone, h)
    ensures var r := Record(h.db, cmd, h.reply, u);
      Tidy(r.db) && ReplayFrom(Late(db, clock), h.log + r.log, clock) == Some(Late(r.db, clock))
  {
    hide DeleteAll, ReplayFrom, Late, Record;
    var r := Record(h.db, cmd, h.reply, u);
    var base := DeleteAll(db, gone);
    ReplayDeletions(db, clock, cmd, t, gone);
    ReplayBoth(db, base, r.db, clock, h.log, r.log);
    if h.reply.Error? {
      NothingRecorded(h.db, cmd, u);
      NothingToReplay(Late(base, clock), clock);
    } else {
      ReplayMSet(base, h.db, clock, cmd.pairs, gone, u);
    }
  }

  lemma StepExpire(db: Db, clock: real, key: Key, seconds: int, t: real, u: real)
    requires Tidy(db)
    ensures var cmd := Expire(key, seconds);
      var h := Handle(db, cmd, t);
      var r := Record(h.db, cmd, h.reply, u);
      && Tidy(r.db)
      && (ReplayFrom(Late(db, clock), h.log + r.log, clock) == Some(Late(r.db, clock))) == !Breaks(db, cmd, t, u, clock)
  {
    hide ReplayFrom, DeadlineMs, Late;
    var cmd := Expire(key, seconds);
    var h := Handle(db, cmd, t);
    var r := Record(h.db, cmd, h.reply, u);
    var met, deadline := Purge(db, key, t), t + seconds as real;
    ReplayPurged(db, clock, key, t);
    ReplayBoth(db, met, r.db, clock, h.log, r.log);
    if key in met.data && seconds > 0 {
      ReplayDeadline(met, clock, key, deadline, u);
    } else {
      NothingToReplay(Late(met, clock), clock);
      if key in met.data {
        DeleteIs(met, key);
        LateDelete(met, clock, key);
        LateAt(met, clock, key);
        assert r == Recorded(Delete(met, key), []);
        if Stale(met, key, clock) {
          assert Delete(Late(met, clock), key) == Late(met, clock);
        }
      } else {
        assert r == Recorded(met, []);
      }
    }
  }

  lemma MsExact(ms: int)
    ensures DeadlineMs(ms as real / 1000.0) == ms && Rounded(ms as real / 1000.0) == ms as real / 1000.0
  {
    assert (ms as real / 1000.0) * 1000.0 == ms as real;
  }

  lemma StepPExpireAt(db: Db, clock: real, key: Key, ms: int, t: real, u: real)
    requires Tidy(db)
    ensures var cmd := PExpireAt(key, ms);
      var h := Handle(db, cmd, t);
      var r := Record(h.db, cmd, h.reply, u);
      && Tidy(r.db)
      && (ReplayFrom(Late(db, clock), h.log + r.log, clock) == Some(Late(r.db, clock))) == !Breaks(db, cmd, t, u, clock)
  {
    hide ReplayFrom, DeadlineMs, Late;
    var cmd := PExpireAt(key, ms);
    var h := Handle(db, cmd, t);
    var r := Record(h.db, cmd, h.reply, u);
    var met, deadline := Purge(db, key, t), ms as real / 1000.0;
    MsExact(ms);
    ReplayPurged(db, clock, key, t);
    if key in met.data && deadline <= t {
      DeleteIs(met, key);
      ReplayDeleted(met, clock, key);
      ReplaySteps(Late(db, clock), PurgeLog(db, key, t), Late(met, clock), [Del([key])], Some(Late(h.db, clock)), clock);
      ReplayBoth(db, h.db, r.db, clock, h.log, r.log);
      assert r == Recorded(h.db, []);
      NothingToReplay(Late(h.db, clock), clock);
    } else {
      ReplayBoth(db, met, r.db, clock, h.log, r.log);
      if key in met.data {
        ReplayDeadline(met, clock, key, deadline, u);
      } else {
        assert r == Recorded(met, []);
        NothingToReplay(Late(met, clock), clock);
      }
    }
  }

  lemma StepPersist(db: Db, clock: real, key: Key, t: real, u: real)
    requires Tidy(db)
    ensures var cmd := Persist(key);
      var h := Handle(db, cmd, t);
      var r := Record(h.db, cmd, h.reply, u);
      && Tidy(r.db)
      && (ReplayFrom(Late(db, clock), h.log + r.log, clock) == Some(Late(r.db, clock))) == !Breaks(db, cmd, t, u, clock)
  {
    hide ReplayFrom, Late;
    var cmd := Persist(key);
    var h := Handle(db, cmd, t);
    var r := Record(h.db, cmd, h.reply, u);
    var met := Purge(db, key, t);
    ReplayPurged(db, clock, key, t);
    ReplayBoth(db, met, r.db, clock, h.log, r.log);
    if key in met.data && key in met.deadlines {
      ReplayPersist(met, clock, key);
    } else {
      NothingToReplay(Late(met, clock), clock);
    }
  }

  lemma StepDel(db: Db, clock: real, keys: seq<Key>, t: real, u: real)
    requires Tidy(db)
    ensures var h := Handle(db, Del(keys), t);
      var r := Record(h.db, Del(keys), h.reply, u);
      Tidy(r.db) && ReplayFrom(Late(db, clock), h.log + r.log, clock) == Some(Late(r.db, clock))
  {
    hide Late;
    if keys != [] {
      LateDeleteAll(db, clock, keys);
      ReplayDels(db, clock, keys);
      ReplayOne(Late(db, clock), Del(keys), clock);
      assert [] + [Del(keys)] == [Del(keys)];
    }
  }

  lemma StepFlush(db: Db, clock: real, t: real, u: real)
    requires Tidy(db)
    ensures var h := Handle(db, FlushAll, t);
      var r := Record(h.db, FlushAll, h.reply, u);
      Tidy(r.db) && ReplayFrom(Late(db, clock), h.log + r.log, clock) == Some(Late(r.db, clock))
  {
    hide Rounded;
    LateTidy(db, clock);
    ReplayOne(Late(db, clock), FlushAll, clock);
    assert [] + [FlushAll] == [FlushAll];
    assert Late(db, clock).deadlines - Late(db, clock).data.Keys == map[];
    assert db.deadlines - db.data.Keys == map[];
    assert Late(EMPTY_DB, clock) == EMPTY_DB;
  }

  /** A command handled, with whatever deletions it brought about, and recorded: replaying the
  records gives what is left of the new keyspace exactly when the command does not break. */
  lemma StepReplay(db: Db, clock: real, cmd: Command, t: real, u: real, gone: seq<Key>, h: Handled)
    requires Tidy(db) && Outcome(db, cmd, t, gone, h)
    ensures var r := Record(h.db, cmd, h.reply, u);
      && Tidy(r.db)
      && (ReplayFrom(Late(db, clock), h.log + r.log, clock) == Some(Late(r.db, clock))) ==
        (h.reply.Error? || !Breaks(DeleteAll(Looked(db, cmd, t), gone), cmd, t, u, clock))
  {
    if cmd.Set? {
      StepSet(db, clock, cmd, t, u, gone, h);
    } else if cmd.MSet? {
      StepMSet(db, clock, cmd, t, u, gone, h);
    } else if cmd.Write? {
      StepWrite(db, clock, cmd.key, cmd.op, t, u, gone, h);
    } else {
      StepOther(db, clock, cmd, t, u);
      assert DeleteAll(db, []) == db;
    }
  }

  lemma StepOther(db: Db, clock: real, cmd: Command, t: real, u: real)
    requires Tidy(db) && !cmd.Set? && !cmd.MSet? && !cmd.Write?
    ensures var h := Handle(db, cmd, t);
      var r := Record(h.db, cmd, h.reply, u);
      && Tidy(r.db)
      && (ReplayFrom(Late(db, clock), h.log + r.log, clock) == Some(Late(r.db, clock))) ==
        (h.reply.Error? || !Breaks(db, cmd, t, u, clock))
  {
    hide ReplayFrom, Late;
    match cmd
    case Del(keys) => StepDel(db, clock, keys, t, u);
    case Expire(key, seconds) => StepExpire(db, clock, key, seconds, t, u);
    case PExpireAt(key, ms) => StepPExpireAt(db, clock, key, ms, t, u);
    case Persist(key) => StepPersist(db, clock, key, t, u);
    case FlushAll => StepFlush(db, clock, t, u);
    case Read(keys) =>
      ReplayRead(db, clock, keys, t);
      assert PurgeAllLog(db, keys, t) + [] == PurgeAllLog(db, keys, t);
  }

  // ----- the purge before a snapshot -----

  /** The keyspace without the keys that are due. */
  function Alive(db: Db, now: real): Db {
    Db(map k | k in db.data && !Due(db, k, now) :: db.data[k], map k | k in db.deadlines && !Due(db, k, now) :: db.deadlines[k])
  }

  lemma AliveTwice(db: Db, key: Key, now: real)
    requires Tidy(db)
    ensures Alive(Purge(db, key, now), now) == Alive(db, now) && Tidy(Purge(db, key, now))
  {
    DeleteIs(db, key);
  }

  lemma {:induction false} PurgedKeepsAlive(db: Db, order: seq<Key>, now: real)
    requires Tidy(db)
    ensures var end := PurgeAll(db, order, now);
      && Alive(end, now) == Alive(db, now) && Tidy(end)
      && (forall k :: k in order ==> !Due(end, k, now)) && end.deadlines.Keys <= db.deadlines.Keys
    decreases |order|
  {
    hide Alive;
    if order != [] {
      var mid := Purge(db, order[0], now);
      AliveTwice(db, order[0], now);
      PurgedKeepsAlive(mid, order[1..], now);
      PurgedNotDue(mid, order[1..], order[0], now);
      assert !Due(mid, order[0], now);
    }
  }

  lemma {:induction false} PurgedNotDue(db: Db, order: seq<Key>, key: Key, now: real)
    ensures !Due(db, key, now) ==> !Due(PurgeAll(db, order, now), key, now)
    decreases |order|
  {
    if order != [] {
      PurgedNotDue(Purge(db, order[0], now), order[1..], key, now);
    }
  }

  lemma {:induction false} PurgeAllSnoc(db: Db, order: seq<Key>, key: Key, now: real)
    ensures PurgeAll(db, order + [key], now) == Purge(PurgeAll(db, order, now), key, now)
    decreases |order|
  {
    if order == [] {
      assert [key][1..] == [];
    } else {
      assert (order + [key])[1..] == order[1..] + [key];
      PurgeAllSnoc(Purge(db, order[0], now), order[1..], key, now);
    }
  }

  /** `iter_items` looks at every key before it lists what is there. */
  lemma PurgeAllIsAlive(db: Db, order: seq<Key>, now: real)
    requires Tidy(db) && db.data.Keys <= KeySet(order)
    ensures PurgeAll(db, order, now) == Alive(db, now)
  {
    PurgedKeepsAlive(db, order, now);
    var end := PurgeAll(db, order, now);
    forall k | k in end.deadlines ensures !Due(end, k, now) {
      assert k in db.deadlines && k in KeySet(order);
    }
    assert Alive(end, now) == end;
  }

  /** What is left at one clock, looked at when another has come. */
  lemma LateThenLater(db: Db, clock: real, later: real)
    requires clock <= later
    ensures Late(Late(db, clock), later) == Late(db, later) == Alive(Late(db, clock), later)
  {
    hide Rounded;
    forall k | k in db.deadlines ensures Rounded(Rounded(db.deadlines[k])) == Rounded(db.deadlines[k]) {
      RoundedTwice(db.deadlines[k]);
    }
    assert forall k :: k in Late(db, clock).deadlines ==> Late(db, clock).deadlines[k] == Rounded(db.deadlines[k]);
  }

  lemma RoundedTwice(deadline: real)
    ensures Rounded(Rounded(deadline)) == Rounded(deadline)
  {
    hide DeadlineMs;
    MsExact(DeadlineMs(deadline));
  }
}
