/** How SET and the typed writes end, whatever was deleted on the way. */
module WriteSteps {
  import opened Ordering
  import opened Numbers
  import opened Commands
  import opened Aof
  import opened Accounting
  import opened Outcomes
  import opened LateReplay
  import opened Fidelity
  import opened Marks
  import opened Handlers

  /** A write to a key that stays commutes with the deletions. */
  lemma WriteThenDelete(db: Db, key: Key, v: Value, gone: seq<Key>)
    requires key !in gone
    ensures var base := DeleteAll(db, gone); var done := DeleteAll(Db(db.data[key := v], db.deadlines), gone);
      && done == Db(base.data[key := v], base.deadlines)
      && Db(Put(done.data, key, Find(db.data, key)), done.deadlines) == base
  {
    hide DeleteAll;
    DeleteAllIs(db, gone);
    DeleteAllIs(Db(db.data[key := v], db.deadlines), gone);
    assert key !in KeySet(gone);
  }

  // ----- SET -----

  /** What SET leaves of the keyspace, whatever was deleted on the way, its own key perhaps among
  it: the deletions come between the write and the deadline. */
  function SetEnds(db: Db, key: Key, value: Bytes, ttl: Ttl, t: real, gone: seq<Key>, reply: Reply): Db {
    var mid := DeleteAll(Db(db.data[key := StringValue(value)], db.deadlines), gone);
    if reply.Error? then Db(Put(mid.data, key, Find(db.data, key)), mid.deadlines)
    else Db(mid.data, if ttl.Seconds? then (mid.deadlines - {key})[key := t + ttl.s] else mid.deadlines - {key})
  }

  lemma SetEndsIs(db: Db, key: Key, value: Bytes, ttl: Ttl, t: real, gone: seq<Key>)
    ensures var mid := DeleteAll(Db(db.data[key := StringValue(value)], db.deadlines), gone);
      && SetEnds(db, key, value, ttl, t, gone, Error) == Db(Put(mid.data, key, Find(db.data, key)), mid.deadlines)
      && SetEnds(db, key, value, ttl, t, gone, Number(0)) ==
        Db(mid.data, if ttl.Seconds? then (mid.deadlines - {key})[key := t + ttl.s] else mid.deadlines - {key})
  {
    hide DeleteAll;
  }

  lemma SetRefused(db: Db, key: Key, value: Bytes, options: seq<SetOption>, t: real)
    requires TtlOf(options, NoTtl).BadOption?
    ensures Outcome(db, Set(key, value, options), t, [], Handled(db, Error, Dels([])))
    ensures Handle(db, Set(key, value, options), t).reply == Error
  {
  }

  lemma SetFailed(db: Db, key: Key, value: Bytes, options: seq<SetOption>, t: real, gone: seq<Key>, mid: Db)
    requires key !in gone && mid == DeleteAll(Db(db.data[key := StringValue(value)], db.deadlines), gone)
    ensures Outcome(db, Set(key, value, options), t, gone,
      Handled(Db(Put(mid.data, key, Find(db.data, key)), mid.deadlines), Error, Dels(gone)))
  {
    hide DeleteAll;
    WriteThenDelete(db, key, StringValue(value), gone);
    assert [] + Dels(gone) == Dels(gone);
  }

  lemma SetDone(db: Db, key: Key, value: Bytes, options: seq<SetOption>, t: real, gone: seq<Key>, done: Db)
    requires key !in gone
    requires var mid := DeleteAll(Db(db.data[key := StringValue(value)], db.deadlines), gone);
      var ttl := TtlOf(options, NoTtl);
      && !ttl.BadOption?
      && done == Db(mid.data, if ttl.Seconds? then (mid.deadlines - {key})[key := t + ttl.s] else mid.deadlines - {key})
    ensures Outcome(db, Set(key, value, options), t, gone, Handled(done, Number(0), Dels(gone)))
  {
    hide DeleteAll;
    WriteThenDelete(db, key, StringValue(value), gone);
    assert [] + Dels(gone) == Dels(gone);
  }

  // ----- SET of a key that is due -----

  /** The sweep for room takes the value just stored, because the old deadline is still there. */
  predicate SweptAway(db: Db, key: Key, value: Bytes, t: real, room: Room) {
    Due(db, key, t) && room.sizeOf(key, StringValue(value), true) <= room.limit
  }

  /** Without eviction the sweep is not enough. */
  ghost predicate NoRoom(db: Db, t: real, room: Room) {
    room.policy.NoEviction? && Total(Sizes(Alive(db, t), room.sizeOf)) > room.limit
  }

  /** The SET is refused: its value does not fit alone, or without eviction not beside the rest. */
  ghost predicate SetFails(db: Db, key: Key, value: Bytes, t: real, room: Room) {
    || room.sizeOf(key, StringValue(value), key in db.deadlines) > room.limit
    || (room.policy.NoEviction?
        && Total(Sizes(Alive(Db(db.data[key := StringValue(value)], db.deadlines), t), room.sizeOf)) > room.limit)
  }

  /** What happens to the key of a SET that is not refused for its options. */
  ghost predicate SetSweeps(db: Db, key: Key, value: Bytes, t: real, gone: seq<Key>, reply: Reply, room: Room) {
    && (reply.Error? <==> SetFails(db, key, value, t, room))
    && (key in gone <==> SweptAway(db, key, value, t, room))
    && (key in gone ==> key in db.data && (reply.Error? <==> NoRoom(db, t, room)))
  }

  /** The SET is answered OK and leaves a deadline without a key. */
  ghost predicate LeavesDeadline(db: Db, key: Key, value: Bytes, ttl: Ttl, t: real, room: Room) {
    ttl.Seconds? && SweptAway(db, key, value, t, room) && !NoRoom(db, t, room)
  }

  lemma SetTidyIff(db: Db, key: Key, value: Bytes, ttl: Ttl, t: real, gone: seq<Key>, reply: Reply, room: Room)
    requires Tidy(db) && SetSweeps(db, key, value, t, gone, reply, room)
    ensures Tidy(SetEnds(db, key, value, ttl, t, gone, reply)) <==> !LeavesDeadline(db, key, value, ttl, t, room)
  {
    hide SweptAway, NoRoom, DeleteAll;
    if key !in gone {
      WriteThenDelete(db, key, StringValue(value), gone);
    }
    DeleteAllIs(db, gone);
    DeleteAllIs(Db(db.data[key := StringValue(value)], db.deadlines), gone);
    assert key in KeySet(gone) <==> key in gone;
  }

  /** SET breaks its log: it is refused when its key has been recorded as deleted, or leaves a
  deadline without a key. */
  ghost predicate SetBreaks(db: Db, key: Key, value: Bytes, ttl: Ttl, t: real, room: Room) {
    !ttl.BadOption? && SweptAway(db, key, value, t, room) && (ttl.Seconds? || NoRoom(db, t, room))
  }

  /** SET handled and recorded, whatever was deleted on the way, keeps the log right if and only
  if its own key was not, or it went without an error and without a new deadline. */
  lemma SetLateIff(db: Db, log: seq<Command>, clock: real, cmd: Command, t: real, u: real, gone: seq<Key>, reply: Reply)
    requires cmd.Set? && LateFaithful(db, log, clock)
    requires var ttl := TtlOf(cmd.options, NoTtl);
      var after := SetEnds(db, cmd.key, cmd.value, ttl, t, gone, reply);
      && !ttl.BadOption? && reply in {Error, Number(0)}
      && (cmd.key in gone ==> cmd.key in db.data)
      && (cmd.key !in gone ==> Outcome(db, cmd, t, gone, Handled(after, reply, Dels(gone))))
    ensures var ttl := TtlOf(cmd.options, NoTtl);
      var after := SetEnds(db, cmd.key, cmd.value, ttl, t, gone, reply);
      var r := Record(after, cmd, reply, u);
      LateFaithful(r.db, log + (Dels(gone) + r.log), clock) <==> !(cmd.key in gone && (reply.Error? || ttl.Seconds?))
  {
    hide Replay, DeleteAll, Late, TtlOf, Outcome, ReplayFrom;
    var ttl := TtlOf(cmd.options, NoTtl);
    var after := SetEnds(db, cmd.key, cmd.value, ttl, t, gone, reply);
    var key := cmd.key;
    if key !in gone {
      StepLateIff(db, log, clock, cmd, t, u, gone, Handled(after, reply, Dels(gone)));
    } else {
      DeletionsFaithful(db, log, clock, gone);
      SweptEnds(db, key, cmd.value, ttl, t, gone, reply);
      if reply.Error? {
        assert Dels(gone) + [] == Dels(gone);
        RevivedDiffers(after, DeleteAll(db, gone), key, clock);
      } else if ttl.NoTtl? {
        DeletionsFaithful(db, log, clock, gone + [key]);
        assert Dels(gone + [key]) == Dels(gone) + [Del([key])];
        assert [] + [Del([key])] == [Del([key])];
      }
    }
  }

  /** How a SET ends under a limit, its key due or not. */
  ghost predicate SetOutcome(db: Db, cmd: Command, t: real, gone: seq<Key>, reply: Reply, after: Db, room: Room)
    requires cmd.Set?
  {
    var ttl := TtlOf(cmd.options, NoTtl);
    && reply in {Error, Number(0)}
    && if ttl.BadOption? then reply.Error? && after == db && gone == []
       else
         && after == SetEnds(db, cmd.key, cmd.value, ttl, t, gone, reply)
         && SetSweeps(db, cmd.key, cmd.value, t, gone, reply, room)
         && (cmd.key !in gone ==> Outcome(db, cmd, t, gone, Handled(after, reply, Dels(gone))))
  }

  /** Under a limit SET keeps the log right if and only if it does not break: that is said of the
  store before the call. */
  lemma SetHandledIff(db: Db, log: seq<Command>, clock: real, cmd: Command, t: real, u: real, gone: seq<Key>, reply: Reply,
      after: Db, room: Room)
    requires cmd.Set? && LateFaithful(db, log, clock) && SetOutcome(db, cmd, t, gone, reply, after, room)
    ensures var r := Record(after, cmd, reply, u);
      LateFaithful(r.db, log + (Dels(gone) + r.log), clock) <==>
        !SetBreaks(db, cmd.key, cmd.value, TtlOf(cmd.options, NoTtl), t, room)
  {
    hide LateFaithful, SetEnds, Outcome, SweptAway, NoRoom, TtlOf;
    if TtlOf(cmd.options, NoTtl).BadOption? {
      NothingRecorded(after, cmd, u);
      assert log + (Dels([]) + []) == log;
    } else {
      SetLateIff(db, log, clock, cmd, t, u, gone, reply);
    }
  }

  lemma AliveWithout(db: Db, key: Key, v: Value, t: real)
    requires Due(db, key, t)
    ensures Alive(Db(db.data[key := v], db.deadlines), t) == Alive(db, t)
  {
  }

  /** What the limit does to the value of a SET, in the terms of SET. */
  lemma SetSwept(now: Mark, key: Key, value: Bytes, t: real, gone: seq<Key>, ok: bool, room: Room)
    requires Tidy(now.db) && (room.policy.AllKeysLru? || room.policy.NoEviction?)
    requires !Due(now.db, key, t) ==> key !in gone
    requires var start := Written(now, key, StringValue(value));
      if room.sizeOf(key, StringValue(value), key in now.db.deadlines) > room.limit then gone == [] && !ok
      else
        && (Due(start.db, key, t) ==> key in gone)
        && (room.policy.NoEviction? ==> (ok <==> Total(Sizes(Alive(start.db, t), room.sizeOf)) <= room.limit))
        && (room.policy.AllKeysLru? ==> ok)
    ensures SetSweeps(now.db, key, value, t, gone, if ok then Number(0) else Error, room)
  {
    hide Total, Sizes, Alive;
    if Due(now.db, key, t) {
      AliveWithout(now.db, key, StringValue(value), t);
      assert Alive(Written(now, key, StringValue(value)).db, t) == Alive(now.db, t);
    }
  }

  /** What is left when its own key was deleted on the way. */
  lemma SweptEnds(db: Db, key: Key, value: Bytes, ttl: Ttl, t: real, gone: seq<Key>, reply: Reply)
    requires Tidy(db) && key in gone && key in db.data
    ensures var after := SetEnds(db, key, value, ttl, t, gone, reply);
      && DeleteAll(db, gone + [key]) == DeleteAll(db, gone) && key !in DeleteAll(db, gone).data
      && (reply.Error? ==> key in after.data && key !in after.deadlines)
      && (!reply.Error? ==> key !in after.data)
      && (!reply.Error? && ttl.Seconds? ==> key in after.deadlines)
      && (!reply.Error? && !ttl.Seconds? ==> after == DeleteAll(db, gone))
  {
    hide DeleteAll;
    DeleteAllIs(db, gone);
    DeleteAllIs(db, gone + [key]);
    assert KeySet(gone + [key]) == KeySet(gone);
    DeleteAllIs(Db(db.data[key := StringValue(value)], db.deadlines), gone);
    assert key in KeySet(gone);
    assert db.data[key := StringValue(value)] - KeySet(gone) == db.data - KeySet(gone);
  }

  lemma RevivedDiffers(a: Db, b: Db, key: Key, clock: real)
    requires key in a.data && key !in a.deadlines && key !in b.data
    ensures Late(a, clock) != Late(b, clock)
  {
    assert key in Late(a, clock).data;
  }

  // ----- one typed operation -----

  /** How one typed operation may end. */
  ghost predicate MutateEnds(db: Db, key: Key, op: Op, reply: Reply, db': Db, gone: seq<Key>) {
    var e := Apply(op, Find(db.data, key));
    match e
    case Becomes(v) =>
      var base := DeleteAll(db, gone);
      && AgreeBut(db', base, {key})
      && (key !in gone ==> db' == if reply.Error? then base else Db(base.data[key := v], base.deadlines))
    case _ => gone == [] && (reply.Error? <==> e.Refuses?) && db' == Effected(db, key, e)
  }

  /** An operation that stores no value. */
  lemma MutateEndsBy(db: Db, key: Key, op: Op, e: Effect, after: Db)
    requires e == Apply(op, Find(db.data, key)) && !e.Becomes? && after == Effected(db, key, e)
    ensures MutateEnds(db, key, op, if e.Refuses? then Error else Number(0), after, [])
  {
    hide Apply;
  }

  /** The same, said of what can be looked up. */
  lemma MutateMakes(db: Db, key: Key, op: Op, reply: Reply, after: Db, gone: seq<Key>)
    requires Tidy(db) && MutateEnds(db, key, op, reply, after, gone)
    ensures OpMakes(db, key, op, gone, reply, after)
  {
    hide DeleteAll, Apply, EffectDoes;
    var e := Apply(op, Find(db.data, key));
    ApplyDoes(op, Find(db.data, key));
    DeletedAre(db, gone);
    var base := DeleteAll(db, gone);
    assert GoneOrUntouched(db, base, gone, key);
    forall k | k != key ensures GoneOrUntouched(db, after, gone, k) {
      assert GoneOrUntouched(db, base, gone, k);
      if e.Becomes? {
        AgreeUntouched(after, base, key, k);
      } else {
        EffectedElsewhere(db, key, e, k);
      }
    }
    assert OpEndsBy(db, key, e, gone, reply, after);
  }

  lemma AgreeUntouched(a: Db, b: Db, key: Key, k: Key)
    requires AgreeBut(a, b, {key}) && k != key
    ensures Untouched(b, a, k)
  {
    assert k in a.data <==> k in a.data - {key};
    assert k in b.data <==> k in b.data - {key};
    assert k in a.deadlines <==> k in a.deadlines - {key};
    assert k in b.deadlines <==> k in b.deadlines - {key};
    assert k in a.data ==> (a.data - {key})[k] == a.data[k] == (b.data - {key})[k] == b.data[k];
    assert k in a.deadlines ==> (a.deadlines - {key})[k] == a.deadlines[k] == (b.deadlines - {key})[k] == b.deadlines[k];
  }

  /** The operation does not make its value larger. */
  ghost predicate NoLarger(db: Db, key: Key, op: Op, sizeOf: Sizer) {
    var v := Find(db.data, key);
    var e := Apply(op, v);
    && !e.Refuses?
    && (e.Becomes? ==> v.Some? && sizeOf(key, e.value, key in db.deadlines) <= sizeOf(key, v.value, key in db.deadlines))
  }

  lemma NoLargerFits(db: Db, key: Key, op: Op, v: Value, sizeOf: Sizer)
    requires Apply(op, Find(db.data, key)) == Becomes(v)
    ensures NoLarger(db, key, op, sizeOf) ==> Total(Sizes(Db(db.data[key := v], db.deadlines), sizeOf)) <= Total(Sizes(db, sizeOf))
  {
    hide Apply, Total;
    WrittenTotal(db, key, v, sizeOf);
  }

  lemma WrittenEnds(db: Db, key: Key, op: Op, v: Value, start: Mark, end: Mark, gone: seq<Key>, reply: Reply)
    requires Apply(op, Find(db.data, key)) == Becomes(v)
    requires start.db == Db(db.data[key := v], db.deadlines) && Lost(start, end, gone)
    ensures end.log == start.log + Dels(gone)
    ensures MutateEnds(db, key, op, reply,
      if reply.Error? then Db(Put(end.db.data, key, Find(db.data, key)), end.db.deadlines) else end.db, gone)
  {
    hide Apply, DeleteAll;
    WrittenOff(db, key, v, gone);
    if key !in gone {
      WriteThenDelete(db, key, v, gone);
    }
  }

  lemma WrittenOff(db: Db, key: Key, v: Value, gone: seq<Key>)
    ensures var end := DeleteAll(Db(db.data[key := v], db.deadlines), gone);
      && AgreeBut(end, DeleteAll(db, gone), {key})
      && forall w :: AgreeBut(Db(Put(end.data, key, w), end.deadlines), DeleteAll(db, gone), {key})
  {
    hide DeleteAll;
    DeleteAllIs(db, gone);
    DeleteAllIs(Db(db.data[key := v], db.deadlines), gone);
    var end, base := DeleteAll(Db(db.data[key := v], db.deadlines), gone), DeleteAll(db, gone);
    assert end.data - {key} == base.data - {key};
    forall w ensures Put(end.data, key, w) - {key} == base.data - {key} {
    }
  }

  /** Off its key a typed operation does nothing but the deletions. */
  lemma OffStep(looked: Db, now: Db, key: Key, gone: seq<Key>, op: Op, reply: Reply, after: Db, more: seq<Key>)
    requires AgreeBut(now, DeleteAll(looked, gone), {key}) && MutateEnds(now, key, op, reply, after, more)
    ensures AgreeBut(after, DeleteAll(looked, gone + more), {key})
  {
    hide DeleteAll, Apply, AgreeBut;
    DeleteAllConcat(looked, gone, more);
    DeletedOff(now, DeleteAll(looked, gone), key, more);
    EffectedOff(now, key, Apply(op, Find(now.data, key)));
    if Apply(op, Find(now.data, key)).Becomes? {
      OffTwice(after, DeleteAll(now, more), DeleteAll(looked, gone + more), key);
    } else {
      assert gone + more == gone;
      OffTwice(after, now, DeleteAll(looked, gone), key);
    }
  }

  lemma OffAtStart(db: Db, key: Key)
    ensures AgreeBut(db, DeleteAll(db, []), {key})
  {
  }

  lemma PutOff(db: Db, base: Db, key: Key, v: Option<Value>)
    ensures AgreeBut(db, base, {key}) ==> AgreeBut(Db(Put(db.data, key, v), db.deadlines), base, {key})
  {
  }

  lemma OffTwice(a: Db, b: Db, c: Db, key: Key)
    requires AgreeBut(a, b, {key}) && AgreeBut(b, c, {key})
    ensures AgreeBut(a, c, {key})
  {
  }

  lemma EffectedOff(db: Db, key: Key, e: Effect)
    ensures AgreeBut(Effected(db, key, e), db, {key})
  {
  }

  lemma DeletedOff(a: Db, b: Db, key: Key, more: seq<Key>)
    requires AgreeBut(a, b, {key})
    ensures AgreeBut(DeleteAll(a, more), DeleteAll(b, more), {key})
  {
    hide DeleteAll;
    DeleteAllIs(a, more);
    DeleteAllIs(b, more);
    var x, y := DeleteAll(a, more), DeleteAll(b, more);
    assert x.data - {key} == (a.data - {key}) - KeySet(more) && y.data - {key} == (b.data - {key}) - KeySet(more);
    assert a.data.Keys - {key} == (a.data - {key}).Keys == (b.data - {key}).Keys == b.data.Keys - {key};
    assert x.deadlines - {key} == (a.deadlines - {key}) - (KeySet(more) * (a.data.Keys - {key}));
    assert y.deadlines - {key} == (b.deadlines - {key}) - (KeySet(more) * (b.data.Keys - {key}));
  }

  // ----- a command as a series of operations -----

  ghost function Landed(db: Db, key: Key, v: Option<Value>): Db {
    if v.Some? then Db(db.data[key := v.value], db.deadlines) else Aof.Delete(db, key)
  }

  /** The first `i` members of a ZREM removed, after the deletions. */
  ghost function LandedPart(db: Db, key: Key, op: Op, t: real, gone: seq<Key>, i: nat): Db
    requires i <= |Parts(op)|
  {
    var looked := Purge(db, key, t);
    Landed(DeleteAll(looked, gone), key, Done(op, i, Find(looked.data, key)))
  }

  /** A ZREM that ends with an error has removed its first few members. */
  ghost predicate StoppedAt(db: Db, key: Key, op: Op, t: real, gone: seq<Key>, after: Db) {
    exists i: nat :: i < |Parts(op)| && after == LandedPart(db, key, op, t, gone, i)
  }

  lemma MoreDels(start: seq<Command>, gone: seq<Key>, more: seq<Key>)
    ensures (start + Dels(gone)) + Dels(more) == start + Dels(gone + more)
  {
    assert Dels(gone + more) == Dels(gone) + Dels(more);
  }

  lemma PutMinus<V>(m: map<Key, V>, key: Key, v: V, gone: set<Key>, more: set<Key>)
    requires key !in gone + more
    ensures (m - gone)[key := v] - more == (m - (gone + more))[key := v]
  {
  }

  /** Further deletions commute with what was written to a key that stays. */
  lemma LandedDeleted(looked: Db, key: Key, v: Option<Value>, gone: seq<Key>, more: seq<Key>)
    requires Tidy(looked) && key !in gone && key !in more
    ensures DeleteAll(Landed(DeleteAll(looked, gone), key, v), more) == Landed(DeleteAll(looked, gone + more), key, v)
    ensures v.Some? || key in looked.data ==> Find(Landed(DeleteAll(looked, gone), key, v).data, key) == v
  {
    hide DeleteAll;
    DeleteAllMinus(looked, gone);
    DeleteAllMinus(looked, gone + more);
    assert KeySet(gone + more) == KeySet(gone) + KeySet(more);
    assert key !in KeySet(gone) + KeySet(more);
    var base := DeleteAll(looked, gone);
    var landed := Landed(base, key, v);
    LandedMinus(base, key, v);
    DeleteAllMinus(landed, more);
    if v.Some? {
      PutMinus(looked.data, key, v.value, KeySet(gone), KeySet(more));
      assert (looked.deadlines - KeySet(gone)) - KeySet(more) == looked.deadlines - (KeySet(gone) + KeySet(more));
    } else {
      LandedMinus(DeleteAll(looked, gone + more), key, v);
      MinusThree(looked, key, KeySet(gone), KeySet(more));
    }
  }

  lemma DeleteAllMinus(db: Db, gone: seq<Key>)
    requires Tidy(db)
    ensures DeleteAll(db, gone) == Db(db.data - KeySet(gone), db.deadlines - KeySet(gone)) && Tidy(DeleteAll(db, gone))
  {
    DeleteAllIs(db, gone);
    assert db.deadlines - (KeySet(gone) * db.data.Keys) == db.deadlines - KeySet(gone);
  }

  lemma LandedMinus(base: Db, key: Key, v: Option<Value>)
    requires Tidy(base)
    ensures Tidy(Landed(base, key, v))
    ensures v.None? ==> Landed(base, key, v) == Db(base.data - {key}, base.deadlines - {key})
  {
  }

  lemma MinusThree(db: Db, key: Key, gone: set<Key>, more: set<Key>)
    ensures ((db.data - gone) - {key}) - more == (db.data - (gone + more)) - {key}
    ensures ((db.deadlines - gone) - {key}) - more == (db.deadlines - (gone + more)) - {key}
  {
  }

  lemma LandedTwice(base: Db, key: Key, v: Option<Value>, w: Value)
    requires v.Some? || key !in base.data
    ensures var landed := Landed(base, key, v); Db(landed.data[key := w], landed.deadlines) == Landed(base, key, Some(w))
  {
    if v.Some? {
      assert base.data[key := v.value][key := w] == base.data[key := w];
    }
  }

  lemma LandedRemoved(base: Db, key: Key, v: Option<Value>)
    requires base.deadlines.Keys <= base.data.Keys
    ensures Aof.Delete(Landed(base, key, v), key) == Landed(base, key, None)
  {
    if v.Some? {
      assert base.data[key := v.value] - {key} == base.data - {key};
    }
  }

  lemma LandedAtStart(looked: Db, key: Key, op: Op)
    ensures looked.deadlines.Keys <= looked.data.Keys ==>
      looked == Landed(DeleteAll(looked, []), key, Done(op, 0, Find(looked.data, key)))
    ensures Done(op, 0, Find(looked.data, key)) == Find(looked.data, key) && Dels([]) == []
    ensures op.ZRem? ==> |Parts(op)| == |op.members|
  {
  }

  lemma LookedTidy(db: Db, key: Key, t: real)
    requires db.deadlines.Keys <= db.data.Keys
    ensures var looked := Purge(db, key, t); looked.deadlines.Keys <= looked.data.Keys && !Due(looked, key, t)
  {
  }

  /** One part more. */
  lemma PartLands(looked: Db, key: Key, op: Op, i: nat, v: Option<Value>, now: Db, gone: seq<Key>, reply: Reply, after: Db, more: seq<Key>)
    requires i < |Parts(op)| && v == Find(looked.data, key) && !Apply(op, v).Refuses?
    requires looked.deadlines.Keys <= looked.data.Keys
    requires key !in gone + more && now == Landed(DeleteAll(looked, gone), key, Done(op, i, v))
    requires MutateEnds(now, key, Parts(op)[i], reply, after, more)
    ensures Find(now.data, key) == Done(op, i, v) && !Apply(Parts(op)[i], Find(now.data, key)).Refuses?
    ensures reply.Error? ==> Apply(Parts(op)[i], Find(now.data, key)).Becomes?
    ensures after == Landed(DeleteAll(looked, gone + more), key, if reply.Error? then Done(op, i, v) else Done(op, i + 1, v))
  {
    hide DeleteAll, Apply, Done, Parts;
    assert key !in gone && key !in more;
    DeleteAllIs(looked, gone);
    DeleteAllIs(looked, gone + more);
    LandedDeleted(looked, key, Done(op, i, v), gone, more);
    PartStep(op, i, v);
    if !Apply(Parts(op)[i], Done(op, i, v)).Becomes? {
      assert gone + more == gone;
      LandedRemoved(DeleteAll(looked, gone), key, Done(op, i, v));
    } else {
      PartsMade(op, i, v);
      LandedTwice(DeleteAll(looked, gone + more), key, Done(op, i, v), Apply(Parts(op)[i], Done(op, i, v)).value);
    }
  }

  lemma PartsMade(op: Op, i: nat, v: Option<Value>)
    requires i < |Parts(op)| && !Apply(op, v).Refuses?
    ensures !op.HSet? && !op.ZAdd? && !op.ZRem? ==> i == 0
    ensures op.ZRem? ==> |Parts(op)| == |op.members|
    ensures (op.HSet? || op.ZAdd?) && i > 0 ==> Done(op, i, v).Some?
    ensures i == 0 ==> Done(op, i, v) == v
    ensures Done(op, i, v).None? && Apply(Parts(op)[i], None).Becomes? ==> v.None?
  {
  }

  /** A later member of ZREM is not refused: the set has only become smaller. */
  lemma ZRemStep(now: Db, key: Key, op: Op, i: nat, v: Option<Value>, sizeOf: Sizer)
    requires op.ZRem? && i < |Parts(op)| && !Apply(op, v).Refuses? && Find(now.data, key) == Done(op, i, v)
    ensures var e := Apply(Parts(op)[i], Done(op, i, v));
      && (Done(op, i, v).None? ==> e.Leaves?)
      && (e.Leaves? ==> Done(op, i + 1, v) == Done(op, i, v))
      && (e.Removes? ==> Done(op, i + 1, v).None?)
      && !e.Refuses?
    ensures Shrinks(sizeOf) && Done(op, i, v).Some? ==> NoLarger(now, key, Parts(op)[i], sizeOf)
  {
    PartStep(op, i, v);
    if v.Some? {
      assert Members(op.members[..0]) == {};
    }
  }

  lemma WriteRefused(db: Db, key: Key, op: Op, t: real)
    requires HasArguments(op) ==> Apply(op, Find(Purge(db, key, t).data, key)).Refuses?
    ensures var looked := Looked(db, Write(key, op), t);
      Outcome(db, Write(key, op), t, [], Handled(looked, Error, LookedLog(db, Write(key, op), t) + Dels([])))
    ensures Handle(db, Write(key, op), t).reply == Error
  {
    hide Apply;
  }

  lemma WriteFailed(db: Db, key: Key, op: Op, t: real, gone: seq<Key>, i: nat, v: Option<Value>, after: Db)
    requires db.deadlines.Keys <= db.data.Keys && HasArguments(op) && key !in gone && i < |Parts(op)|
    requires var looked := Purge(db, key, t);
      var landed := Landed(DeleteAll(looked, gone), key, Done(op, i, v));
      && v == Find(looked.data, key)
      && after == if op.HSet? || op.ZAdd? then Db(Put(landed.data, key, v), landed.deadlines) else landed
    requires !op.HSet? && !op.ZAdd? ==> Done(op, i, v) == v
    requires (op.HSet? || op.ZAdd?) && i > 0 ==> Done(op, i, v).Some?
    ensures var looked := LookedLog(db, Write(key, op), t);
      Outcome(db, Write(key, op), t, gone, Handled(after, Error, looked + Dels(gone)))
  {
    hide DeleteAll, Apply, Parts;
    DeleteAllIs(Purge(db, key, t), gone);
    assert key !in KeySet(gone);
    assert after == DeleteAll(Purge(db, key, t), gone);
  }

  lemma WriteDone(db: Db, key: Key, op: Op, t: real, gone: seq<Key>, v: Option<Value>, after: Db)
    requires db.deadlines.Keys <= db.data.Keys && HasArguments(op) && key !in gone
    requires v == Find(Purge(db, key, t).data, key) && !Apply(op, v).Refuses?
    requires after == Landed(DeleteAll(Purge(db, key, t), gone), key, Done(op, |Parts(op)|, v))
    ensures var looked := LookedLog(db, Write(key, op), t);
      Outcome(db, Write(key, op), t, gone, Handled(after, Number(0), looked + Dels(gone)))
  {
    hide DeleteAll, Apply, Parts, Done;
    var base := DeleteAll(Purge(db, key, t), gone);
    DeleteAllIs(Purge(db, key, t), gone);
    assert key !in KeySet(gone);
    LookedNotDue(db, key, t, gone);
    DoneAll(op, v);
    assert Find(base.data, key) == v;
    assert after == Effected(base, key, Apply(op, v));
  }
}
