/** What the commands do, said of keys, values, deadlines and clock readings: not in the terms the
handlers are written in. */
module Handlers {
  import opened Ordering
  import opened Numbers
  import opened Commands
  import opened Aof
  import opened Outcomes

  // ----- keys -----

  /** The deadline of the key has come. */
  predicate HasCome(db: Db, k: Key, t: real) {
    k in db.deadlines && db.deadlines[k] <= t
  }

  /** The key is there, and its deadline, if it has one, is still to come. */
  predicate IsThere(db: Db, k: Key, t: real) {
    k in db.data && !HasCome(db, k, t)
  }

  /** Value and deadline are as before. */
  ghost predicate Untouched(db: Db, after: Db, k: Key) {
    Alike(db.data, after.data, k) && Alike(db.deadlines, after.deadlines, k)
  }

  predicate IsGone(after: Db, k: Key) {
    k !in after.data && k !in after.deadlines
  }

  /** Gone if it is among the deleted, and else as before. */
  ghost predicate GoneOrUntouched(db: Db, after: Db, gone: seq<Key>, k: Key) {
    if k in gone then IsGone(after, k) else Untouched(db, after, k)
  }

  /** Nothing but the deletions happened to the other keys. */
  ghost predicate ElsewhereKept(db: Db, after: Db, gone: seq<Key>, key: Key) {
    forall k :: k != key ==> GoneOrUntouched(db, after, gone, k)
  }

  // ----- SET -----

  predicate IsBad(option: SetOption) {
    match option
    case EX(n) => n <= 0
    case PX(n) => n <= 0
    case _ => true
  }

  /** The options of a SET: a bad one spoils it, and the last one counts, in seconds or in
  milliseconds. */
  ghost predicate Asks(options: seq<SetOption>, ttl: Ttl) {
    if exists i :: 0 <= i < |options| && IsBad(options[i]) then ttl.BadOption?
    else if options == [] then ttl.NoTtl?
    else
      var last := options[|options| - 1];
      && ttl.Seconds?
      && (last.EX? ==> ttl.s == last.seconds as real)
      && (last.PX? ==> 1000.0 * ttl.s == last.milliseconds as real)
  }

  lemma {:induction false} TtlFrom(options: seq<SetOption>, before: Ttl)
    requires !before.BadOption?
    ensures options == [] ==> TtlOf(options, before) == before
    ensures options != [] ==> Asks(options, TtlOf(options, before))
    decreases |options|
  {
    if options != [] {
      var rest := options[1..];
      if IsBad(options[0]) {
      } else {
        assert forall i :: 0 <= i < |rest| ==> rest[i] == options[i + 1];
        var next := if options[0].EX? then Seconds(options[0].seconds as real) else Seconds(options[0].milliseconds as real / 1000.0);
        TtlFrom(rest, next);
        assert (exists i :: 0 <= i < |options| && IsBad(options[i])) <==> (exists i :: 0 <= i < |rest| && IsBad(rest[i])) by {
          if i :| 0 <= i < |options| && IsBad(options[i]) {
            assert i > 0 && IsBad(rest[i - 1]);
          }
          if i :| 0 <= i < |rest| && IsBad(rest[i]) {
            assert IsBad(options[i + 1]);
          }
        }
      }
    }
  }

  lemma TtlAsked(options: seq<SetOption>)
    ensures Asks(options, TtlOf(options, NoTtl))
  {
    TtlFrom(options, NoTtl);
  }

  /** A SET of a key that is not among the deleted. */
  ghost predicate SetMakes(db: Db, key: Key, value: Bytes, options: seq<SetOption>, t: real, gone: seq<Key>, reply: Reply, after: Db) {
    if exists i :: 0 <= i < |options| && IsBad(options[i]) then
      reply.Error? && forall k :: GoneOrUntouched(db, after, gone, k)
    else
      && ElsewhereKept(db, after, gone, key)
      && (reply.Error? ==> Untouched(db, after, key))
      && (!reply.Error? ==> Holds(after.data, key, StringValue(value)))
      && (!reply.Error? && options == [] ==> key !in after.deadlines)
      && (!reply.Error? && options != [] ==> key in after.deadlines && IsAsked(options[|options| - 1], after.deadlines[key] - t))
  }

  predicate IsAsked(option: SetOption, left: real) {
    (option.EX? ==> left == option.seconds as real) && (option.PX? ==> 1000.0 * left == option.milliseconds as real)
  }

  // ----- MSET -----

  predicate Named(pairs: seq<(Key, Bytes)>, k: Key) {
    exists i :: 0 <= i < |pairs| && pairs[i].0 == k
  }

  /** The last pair with this key. */
  predicate LastOf(pairs: seq<(Key, Bytes)>, i: nat) {
    i < |pairs| && forall j :: i < j < |pairs| ==> pairs[j].0 != pairs[i].0
  }

  /** The keys named hold their last values, without a deadline, or are among the deleted; or, if it
  fails, they are as before. */
  ghost predicate MSetMakes(db: Db, pairs: seq<(Key, Bytes)>, gone: seq<Key>, reply: Reply, after: Db) {
    && (pairs == [] ==> reply.Error?)
    && (forall k :: !Named(pairs, k) ==> GoneOrUntouched(db, after, gone, k))
    && (reply.Error? ==> forall k :: Named(pairs, k) ==> Untouched(db, after, k))
    && (!reply.Error? ==> forall i: nat :: LastOf(pairs, i) ==> LastValue(pairs[i], gone, after))
  }

  ghost predicate LastValue(pair: (Key, Bytes), gone: seq<Key>, after: Db) {
    && pair.0 !in after.deadlines
    && (Holds(after.data, pair.0, StringValue(pair.1)) || (pair.0 in gone && pair.0 !in after.data))
  }

  // ----- typed writes -----

  /** The arguments after the key are missing. */
  predicate Bare(op: Op) {
    || op == HSet([]) || op == HDel([]) || op == LPush([]) || op == RPush([])
    || op == SAdd([]) || op == SRem([]) || op == ZAdd([]) || op == ZRem([])
  }

  /** What is under the key for a command at this time. */
  function Seen(db: Db, key: Key, t: real): Option<Value> {
    if IsThere(db, key, t) then Some(db.data[key]) else None
  }

  /** The key is as the command found it. */
  ghost predicate AsSeen(db: Db, after: Db, key: Key, t: real) {
    if IsThere(db, key, t) then Untouched(db, after, key) else IsGone(after, key)
  }

  ghost predicate Takes(db: Db, key: Key, e: Effect, t: real, after: Db) {
    match e
    case Becomes(v) =>
      && Holds(after.data, key, v)
      && if IsThere(db, key, t) then Alike(db.deadlines, after.deadlines, key) else key !in after.deadlines
    case Removes => IsGone(after, key)
    case _ => AsSeen(db, after, key, t)
  }

  /** A typed write to a key that is not among the deleted: the operation is done to the value seen,
  or the key is left as it was. */
  ghost predicate WriteMakes(db: Db, key: Key, op: Op, t: real, gone: seq<Key>, reply: Reply, after: Db) {
    if Bare(op) then reply.Error? && forall k :: GoneOrUntouched(db, after, gone, k)
    else
      && ElsewhereKept(db, after, gone, key)
      && exists e :: EffectDoes(op, Seen(db, key, t), e) && WriteEndsBy(db, key, e, t, gone, reply, after)
  }

  ghost predicate WriteEndsBy(db: Db, key: Key, e: Effect, t: real, gone: seq<Key>, reply: Reply, after: Db) {
    && (e.Refuses? ==> reply.Error?)
    && (reply.Error? ==> AsSeen(db, after, key, t))
    && (!reply.Error? ==> Takes(db, key, e, t, after))
  }

  /** One operation of the store, on a key that is not due. */
  ghost predicate OpMakes(db: Db, key: Key, op: Op, gone: seq<Key>, reply: Reply, after: Db) {
    && ElsewhereKept(db, after, gone, key)
    && exists e :: EffectDoes(op, Find(db.data, key), e) && OpEndsBy(db, key, e, gone, reply, after)
  }

  ghost predicate OpEndsBy(db: Db, key: Key, e: Effect, gone: seq<Key>, reply: Reply, after: Db) {
    && (e.Refuses? ==> reply.Error?) && (e.Leaves? || e.Removes? ==> !reply.Error?)
    && (key !in gone ==>
          if reply.Error? || e.Leaves? then Untouched(db, after, key)
          else if e.Removes? then IsGone(after, key)
          else Holds(after.data, key, e.value) && Alike(db.deadlines, after.deadlines, key))
  }

  // ----- the others -----

  ghost predicate DelMakes(db: Db, keys: seq<Key>, reply: Reply, after: Db) {
    && (reply.Error? <==> keys == [])
    && forall k :: if k in keys then IsGone(after, k) else Untouched(db, after, k)
  }

  ghost predicate ExpireMakes(db: Db, key: Key, seconds: int, t: real, reply: Reply, after: Db) {
    && ElsewhereKept(db, after, [], key)
    && if !IsThere(db, key, t) then reply == Number(0) && IsGone(after, key)
       else
         && reply == Number(1)
         && if seconds <= 0 then IsGone(after, key)
            else
              && Alike(db.data, after.data, key)
              && key in after.deadlines && after.deadlines[key] - t == seconds as real
  }

  ghost predicate PExpireAtMakes(db: Db, key: Key, milliseconds: int, t: real, reply: Reply, after: Db) {
    && ElsewhereKept(db, after, [], key)
    && if !IsThere(db, key, t) then reply == Number(0) && IsGone(after, key)
       else
         && reply == Number(1)
         && if milliseconds as real <= 1000.0 * t then IsGone(after, key)
            else
              && Alike(db.data, after.data, key)
              && key in after.deadlines && 1000.0 * after.deadlines[key] == milliseconds as real
  }

  ghost predicate PersistMakes(db: Db, key: Key, t: real, reply: Reply, after: Db) {
    && ElsewhereKept(db, after, [], key)
    && if !IsThere(db, key, t) then reply == Number(0) && IsGone(after, key)
       else
         && reply == Number(if key in db.deadlines then 1 else 0)
         && Alike(db.data, after.data, key) && key !in after.deadlines
  }

  ghost predicate FlushMakes(after: Db) {
    forall k :: IsGone(after, k)
  }

  /** A key whose deadline has come does not survive being looked at. */
  ghost predicate ReadMakes(db: Db, keys: seq<Key>, t: real, after: Db) {
    forall k :: if k in keys && HasCome(db, k, t) then IsGone(after, k) else Untouched(db, after, k)
  }

  ghost predicate Makes(db: Db, cmd: Command, t: real, gone: seq<Key>, reply: Reply, after: Db) {
    match cmd
    case Set(key, value, options) => SetMakes(db, key, value, options, t, gone, reply, after)
    case MSet(pairs) => MSetMakes(db, pairs, gone, reply, after)
    case Write(key, op) => WriteMakes(db, key, op, t, gone, reply, after)
    case Del(keys) => DelMakes(db, keys, reply, after)
    case Expire(key, seconds) => ExpireMakes(db, key, seconds, t, reply, after)
    case PExpireAt(key, milliseconds) => PExpireAtMakes(db, key, milliseconds, t, reply, after)
    case Persist(key) => PersistMakes(db, key, t, reply, after)
    case FlushAll => FlushMakes(after)
    case Read(keys) => ReadMakes(db, keys, t, after)
  }

  // ----- the handlers do that -----

  lemma DeletedAre(db: Db, gone: seq<Key>)
    requires Tidy(db)
    ensures forall k :: GoneOrUntouched(db, DeleteAll(db, gone), gone, k)
    ensures DeleteAll(db, gone).deadlines.Keys <= DeleteAll(db, gone).data.Keys
  {
    hide DeleteAll;
    DeleteAllIs(db, gone);
  }

  lemma SetMade(db: Db, key: Key, value: Bytes, options: seq<SetOption>, t: real, gone: seq<Key>, h: Handled)
    requires Tidy(db) && key !in gone && Outcome(db, Set(key, value, options), t, gone, h)
    ensures SetMakes(db, key, value, options, t, gone, h.reply, h.db)
  {
    hide DeleteAll, TtlOf;
    DeletedAre(db, gone);
    TtlAsked(options);
    var base := DeleteAll(db, gone);
    assert GoneOrUntouched(db, base, gone, key);
    if h.reply.Error? {
      assert h.db == base;
    } else {
      assert !TtlOf(options, NoTtl).BadOption?;
      forall k | k != key ensures GoneOrUntouched(db, h.db, gone, k) {
        assert GoneOrUntouched(db, base, gone, k);
      }
    }
  }

  lemma StoredMakes(db: Db, pairs: seq<(Key, Bytes)>, gone: seq<Key>, after: Db)
    requires Tidy(db) && pairs != [] && Stored(DeleteAll(db, gone), pairs, gone, after)
    ensures MSetMakes(db, pairs, gone, Number(0), after)
  {
    hide DeleteAll, SetStrings, FirstTimes;
    DeletedAre(db, gone);
    FirstTimesKeys(pairs);
    var base := DeleteAll(db, gone);
    forall k | !Named(pairs, k) ensures GoneOrUntouched(db, after, gone, k) {
      assert k !in FirstTimes(pairs) && GoneOrUntouched(db, base, gone, k);
      assert Find(after.data, k) == Find(base.data, k);
    }
    forall i: nat | LastOf(pairs, i) ensures LastValue(pairs[i], gone, after) {
      LastIsSet(base, pairs, i);
      assert Named(pairs, pairs[i].0) && pairs[i].0 in FirstTimes(pairs);
      assert HoldsOrGone(SetStrings(base, pairs), after, gone, pairs[i].0);
    }
  }

  lemma PutBackMakes(db: Db, pairs: seq<(Key, Bytes)>, gone: seq<Key>)
    requires Tidy(db)
    ensures MSetMakes(db, pairs, gone, Error, PutBack(db, FirstTimes(pairs), gone))
  {
    hide FirstTimes;
    FirstTimesKeys(pairs);
  }

  lemma MSetMade(db: Db, pairs: seq<(Key, Bytes)>, t: real, gone: seq<Key>, h: Handled)
    requires Tidy(db) && Outcome(db, MSet(pairs), t, gone, h) && (pairs == [] ==> h.reply.Error?)
    requires h.reply.Error? ==> forall k :: k in gone ==> !Named(pairs, k)
    ensures MSetMakes(db, pairs, gone, h.reply, h.db)
  {
    hide DeleteAll, FirstTimes, Stored, MSetMakes, PutBack;
    if h.reply.Error? {
      FirstTimesKeys(pairs);
      PutBackNoneLost(db, FirstTimes(pairs), gone);
      PutBackMakes(db, pairs, gone);
    } else {
      StoredMakes(db, pairs, gone, h.db);
    }
  }

  lemma {:induction false} LastIsSet(db: Db, pairs: seq<(Key, Bytes)>, i: nat)
    requires LastOf(pairs, i)
    ensures Find(SetStrings(db, pairs).data, pairs[i].0) == Some(StringValue(pairs[i].1))
    decreases |pairs|
  {
    var rest, mid := pairs[1..], SetString(db, pairs[0].0, pairs[0].1);
    if i > 0 {
      assert rest[i - 1] == pairs[i];
      LastIsSet(mid, rest, i - 1);
    } else {
      SetStringsKeys(mid, rest);
      FirstTimesKeys(rest);
      forall j | 0 <= j < |rest| ensures rest[j].0 != pairs[0].0 {
        assert rest[j] == pairs[j + 1];
      }
    }
  }

  lemma BareIs(op: Op)
    ensures Bare(op) <==> !HasArguments(op)
  {
  }

  lemma PurgedAsSeen(db: Db, key: Key, t: real)
    requires Tidy(db)
    ensures Tidy(Purge(db, key, t)) && AsSeen(db, Purge(db, key, t), key, t)
    ensures Find(Purge(db, key, t).data, key) == Seen(db, key, t)
    ensures ElsewhereKept(db, Purge(db, key, t), [], key)
  {
  }

  lemma WriteMade(db: Db, key: Key, op: Op, t: real, gone: seq<Key>, h: Handled)
    requires Tidy(db) && key !in gone && Outcome(db, Write(key, op), t, gone, h)
    ensures WriteMakes(db, key, op, t, gone, h.reply, h.db)
  {
    hide DeleteAll, Apply, EffectDoes, Purge;
    BareIs(op);
    if Bare(op) {
      DeletedAre(db, gone);
    } else {
      var looked := Purge(db, key, t);
      PurgedAsSeen(db, key, t);
      DeletedAre(looked, gone);
      LookedNotDue(db, key, t, gone);
      var base, e := DeleteAll(looked, gone), Apply(op, Seen(db, key, t));
      assert GoneOrUntouched(looked, base, gone, key);
      assert Find(base.data, key) == Seen(db, key, t);
      ApplyDoes(op, Seen(db, key, t));
      forall k | k != key ensures GoneOrUntouched(db, h.db, gone, k) {
        assert GoneOrUntouched(looked, base, gone, k) && GoneOrUntouched(db, looked, [], k);
        EffectedElsewhere(base, key, e, k);
      }
      EffectedTakes(db, looked, base, key, e, t);
      assert WriteEndsBy(db, key, e, t, gone, h.reply, h.db);
    }
  }

  lemma EffectedElsewhere(base: Db, key: Key, e: Effect, k: Key)
    requires k != key
    ensures Untouched(base, Effected(base, key, e), k)
  {
  }

  lemma EffectedTakes(db: Db, looked: Db, base: Db, key: Key, e: Effect, t: real)
    requires Tidy(base) && AsSeen(db, looked, key, t) && Untouched(looked, base, key)
    ensures AsSeen(db, base, key, t) && Takes(db, key, e, t, Effected(base, key, e))
  {
  }

  lemma DelMade(db: Db, keys: seq<Key>, t: real)
    requires Tidy(db)
    ensures var h := Handle(db, Del(keys), t); DelMakes(db, keys, h.reply, h.db)
  {
    hide DeleteAll;
    DeletedAre(db, keys);
    forall k ensures if k in keys then IsGone(Handle(db, Del(keys), t).db, k) else Untouched(db, Handle(db, Del(keys), t).db, k) {
      assert GoneOrUntouched(db, DeleteAll(db, keys), keys, k);
    }
  }

  lemma ExpireMade(db: Db, key: Key, seconds: int, t: real)
    requires Tidy(db)
    ensures var h := Handle(db, Expire(key, seconds), t); ExpireMakes(db, key, seconds, t, h.reply, h.db)
  {
  }

  lemma PExpireAtMade(db: Db, key: Key, milliseconds: int, t: real)
    requires Tidy(db)
    ensures var h := Handle(db, PExpireAt(key, milliseconds), t); PExpireAtMakes(db, key, milliseconds, t, h.reply, h.db)
  {
  }

  lemma PersistMade(db: Db, key: Key, t: real)
    requires Tidy(db)
    ensures var h := Handle(db, Persist(key), t); PersistMakes(db, key, t, h.reply, h.db)
  {
  }

  lemma {:induction false} ReadMade(db: Db, keys: seq<Key>, t: real)
    requires Tidy(db)
    ensures ReadMakes(db, keys, t, PurgeAll(db, keys, t))
    decreases |keys|
  {
    if keys != [] {
      var mid := Purge(db, keys[0], t);
      ReadMade(mid, keys[1..], t);
      forall k
        ensures if k in keys && HasCome(db, k, t) then IsGone(PurgeAll(db, keys, t), k) else Untouched(db, PurgeAll(db, keys, t), k)
      {
        assert k in keys <==> k == keys[0] || k in keys[1..];
        assert if k in keys[1..] && HasCome(mid, k, t) then IsGone(PurgeAll(db, keys, t), k)
          else Untouched(mid, PurgeAll(db, keys, t), k);
      }
    }
  }

  /** In whichever of the ways a command may end, it does what it is for. */
  lemma OutcomeMakes(db: Db, cmd: Command, t: real, gone: seq<Key>, h: Handled)
    requires Tidy(db) && Outcome(db, cmd, t, gone, h) && (cmd.Set? || cmd.Write? ==> cmd.key !in gone)
    requires cmd.MSet? ==> (cmd.pairs == [] ==> h.reply.Error?)
    requires cmd.MSet? && h.reply.Error? ==> forall k :: k in gone ==> !Named(cmd.pairs, k)
    ensures Makes(db, cmd, t, gone, h.reply, h.db)
  {
    hide SetMakes, MSetMakes, WriteMakes, DelMakes, ExpireMakes, PExpireAtMakes, PersistMakes, ReadMakes, Purge, PurgeAll, Apply, Stored;
    match cmd
    case Set(key, value, options) => SetMade(db, key, value, options, t, gone, h);
    case MSet(pairs) => MSetMade(db, pairs, t, gone, h);
    case Write(key, op) => WriteMade(db, key, op, t, gone, h);
    case Del(keys) => DelMade(db, keys, t);
    case Expire(key, seconds) => ExpireMade(db, key, seconds, t);
    case PExpireAt(key, milliseconds) => PExpireAtMade(db, key, milliseconds, t);
    case Persist(key) => PersistMade(db, key, t);
    case FlushAll =>
    case Read(keys) => ReadMade(db, keys, t);
  }

  /** Without a limit every handler does, with nothing deleted for room; and then only a write that
  cannot be done is refused. */
  lemma HandleMakes(db: Db, cmd: Command, t: real)
    requires Tidy(db)
    ensures var h := Handle(db, cmd, t);
      && Makes(db, cmd, t, [], h.reply, h.db)
      && (cmd.Write? && h.reply.Error? ==> Bare(cmd.op) || EffectDoes(cmd.op, Seen(db, cmd.key, t), Refuses))
      && (cmd.MSet? && h.reply.Error? ==> cmd.pairs == [])
      && (cmd.Set? && h.reply.Error? ==> exists i :: 0 <= i < |cmd.options| && IsBad(cmd.options[i]))
  {
    hide Makes, Apply, EffectDoes, TtlOf, Purge, Outcome, Asks;
    HandleIsOutcome(db, cmd, t);
    OutcomeMakes(db, cmd, t, [], Handle(db, cmd, t));
    if cmd.Write? {
      BareIs(cmd.op);
      PurgedAsSeen(db, cmd.key, t);
      ApplyDoes(cmd.op, Seen(db, cmd.key, t));
    }
    if cmd.Set? {
      SetRefusedIff(cmd.options);
    }
  }

  lemma SetRefusedIff(options: seq<SetOption>)
    ensures TtlOf(options, NoTtl).BadOption? <==> exists i :: 0 <= i < |options| && IsBad(options[i])
  {
    hide TtlOf;
    TtlAsked(options);
  }
}
