/** When keys were last used, and that under LRU the keys used longest ago go first. */
module Recency {
  import opened Ordering
  import opened Numbers
  import opened Commands
  import opened Aof
  import opened Accounting
  import opened Outcomes
  import opened Marks
  import opened MSetSteps
  import opened Handlers
  import opened Fidelity

  /** Of the two keys, `b` was used after the last use of `a`. */
  predicate UsedLater(uses: seq<Key>, a: Key, b: Key) {
    a in uses && exists j :: 0 <= j < |uses| && uses[j] == b && a !in uses[j..]
  }

  /** Between two states the keys of `uses` were used, in that order: those of them that are there
  have stamps of that time, in the order of their last uses, and every other key that is left has
  the stamp it had. */
  ghost predicate Used(before: Mark, after: Mark, uses: seq<Key>) {
    && before.tick <= after.tick
    && (forall k :: k in after.stamps && k in uses ==> before.tick <= after.stamps[k] < after.tick)
    && (forall k :: k in after.stamps && k !in uses ==> k in before.stamps && after.stamps[k] == before.stamps[k])
    && (forall a, b :: a in after.stamps && b in after.stamps && UsedLater(uses, a, b) ==> after.stamps[a] < after.stamps[b])
  }

  ghost predicate Below(m: Mark) {
    forall k :: k in m.stamps ==> m.stamps[k] < m.tick
  }

  lemma UsedNothing(m: Mark)
    ensures Used(m, m, [])
  {
  }

  lemma OnlyUse(key: Key, a: Key, b: Key)
    ensures !UsedLater([key], a, b)
  {
    assert [key][0..] == [key];
  }

  lemma UsedOne(before: Mark, after: Mark, key: Key)
    requires before.tick <= after.tick && NoneNewer(before.stamps, after.stamps, key)
    requires key in after.stamps ==> before.tick <= after.stamps[key] < after.tick
    ensures Used(before, after, [key])
  {
    forall a, b ensures !UsedLater([key], a, b) {
      OnlyUse(key, a, b);
    }
  }

  lemma UsedNone(before: Mark, after: Mark)
    requires before.tick <= after.tick
    requires forall k :: k in after.stamps ==> k in before.stamps && after.stamps[k] == before.stamps[k]
    ensures Used(before, after, [])
  {
  }

  lemma LaterInParts(x: seq<Key>, y: seq<Key>, a: Key, b: Key)
    requires UsedLater(x + y, a, b)
    ensures UsedLater(y, a, b) || (a !in y && b in y) || (a !in y && UsedLater(x, a, b))
  {
    var uses := x + y;
    var j :| 0 <= j < |uses| && uses[j] == b && a !in uses[j..];
    assert a in x || a in y;
    if j >= |x| {
      assert uses[j..] == y[j - |x|..] && y[j - |x|] == b;
    } else {
      assert uses[j..] == x[j..] + y && x[j] == b;
    }
  }

  lemma UsedMore(m0: Mark, m1: Mark, m2: Mark, x: seq<Key>, y: seq<Key>)
    requires Used(m0, m1, x) && Used(m1, m2, y) && Below(m1)
    ensures Used(m0, m2, x + y)
  {
    forall a, b | a in m2.stamps && b in m2.stamps && UsedLater(x + y, a, b) ensures m2.stamps[a] < m2.stamps[b] {
      LaterInParts(x, y, a, b);
      if !UsedLater(y, a, b) {
        assert a in m1.stamps && m2.stamps[a] == m1.stamps[a];
        if b !in y {
          assert b in m1.stamps && m2.stamps[b] == m1.stamps[b];
        }
      }
    }
    forall k | k in m2.stamps
      ensures k in x + y ==> m0.tick <= m2.stamps[k] < m2.tick
      ensures k !in x + y ==> k in m0.stamps && m2.stamps[k] == m0.stamps[k]
    {
      assert k in x + y <==> k in x || k in y;
    }
  }

  lemma UsedLost(before: Mark, after: Mark, gone: seq<Key>)
    requires Lost(before, after, gone)
    ensures Used(before, after, [])
  {
    hide DeleteAll;
    LostKeeps(before, after, gone);
    UsedNone(before, after);
  }

  /** A value written under a key, and keys deleted for it. */
  lemma UsedWritten(before: Mark, key: Key, v: Value, after: Mark, gone: seq<Key>)
    requires Lost(Written(before, key, v), after, gone)
    ensures Used(before, after, [key])
  {
    hide DeleteAll;
    LostKeeps(Written(before, key, v), after, gone);
    LostTick(Written(before, key, v), after, gone);
    UsedOne(before, after, key);
  }

  /** The same with the key put back. */
  lemma UsedRestored(before: Mark, key: Key, v: Value, mid: Mark, gone: seq<Key>)
    requires Lost(Written(before, key, v), mid, gone)
    ensures Used(before, Restored(mid, key, BackupIn(before, key)), [])
  {
    hide DeleteAll;
    LostKeeps(Written(before, key, v), mid, gone);
    LostTick(Written(before, key, v), mid, gone);
    UsedNone(before, Restored(mid, key, BackupIn(before, key)));
  }

  // ----- what goes -----

  /** The key, not due, went when none of the others had been unused for longer. */
  ghost predicate WentBefore(before: Mark, gone: seq<Key>, i: nat, x: Key)
    requires i < |gone| && x in before.stamps
  {
    x !in gone[..i] ==> gone[i] in before.stamps && before.stamps[gone[i]] <= before.stamps[x]
  }

  /** The deletions of a call that used the keys of `p`: but for the keys that were due, a key went
  only when every key that the call does not use, and that had been used less recently, was gone. */
  ghost predicate OldestWent(before: Mark, p: set<Key>, gone: seq<Key>, t: real) {
    forall i: nat, x :: i < |gone| && x in before.stamps && x !in p && !HasCome(before.db, gone[i], t) ==> WentBefore(before, gone, i, x)
  }

  lemma NothingWent(before: Mark, p: set<Key>, t: real)
    ensures OldestWent(before, p, [], t)
  {
  }

  lemma WrittenOldestWent(before: Mark, key: Key, v: Value, sizeOf: Sizer, limit: int, policy: Policy, t: real, gone: seq<Key>, swept: nat)
    requires Below(before) && policy.AllKeysLru?
    requires Justified(Written(before, key, v), sizeOf, limit, policy, t, gone, swept)
    ensures OldestWent(before, {key}, gone, t)
  {
    hide AllNeeded;
    var start := Written(before, key, v);
    forall i: nat | i < swept ensures Due(before.db, gone[i], t) {
      assert gone[..swept][i] == gone[i];
    }
    forall i: nat, x | i < |gone| && x in before.stamps && x !in {key} && !Due(before.db, gone[i], t)
      ensures WentBefore(before, gone, i, x)
    {
      assert Oldest(start.stamps, gone, i);
      assert x in start.stamps && start.stamps[x] == before.stamps[x];
    }
  }

  /** First some deletions, then those of one more write. */
  lemma OldestWentMore(before: Mark, mid: Mark, p: set<Key>, gone: seq<Key>, key: Key, more: seq<Key>, t: real)
    requires OldestWent(before, p, gone, t) && OldestWent(mid, {key}, more, t) && Below(before)
    requires mid.stamps - p == before.stamps - (p + KeySet(gone))
    requires forall k :: k in mid.stamps ==> Aged(before, k, mid.stamps[k])
    requires forall k :: Due(mid.db, k, t) ==> Due(before.db, k, t)
    ensures OldestWent(before, p + {key}, gone + more, t)
  {
    hide KeySet;
    forall i: nat, x | i < |gone + more| && x in before.stamps && x !in p + {key} && !Due(before.db, (gone + more)[i], t)
      ensures WentBefore(before, gone + more, i, x)
    {
      if i < |gone| {
        assert (gone + more)[..i] == gone[..i];
        assert WentBefore(before, gone, i, x);
      } else {
        LaterWent(before, mid, p, gone, key, more, t, i - |gone|, x);
      }
    }
  }

  lemma LaterWent(before: Mark, mid: Mark, p: set<Key>, gone: seq<Key>, key: Key, more: seq<Key>, t: real, i: nat, x: Key)
    requires OldestWent(mid, {key}, more, t) && Below(before) && i < |more|
    requires mid.stamps - p == before.stamps - (p + KeySet(gone))
    requires forall k :: k in mid.stamps ==> Aged(before, k, mid.stamps[k])
    requires x in before.stamps && x !in p + {key} && !Due(mid.db, more[i], t)
    ensures WentBefore(before, gone + more, |gone| + i, x)
  {
    var all := gone + more;
    assert all[..|gone| + i] == gone + more[..i];
    if x !in all[..|gone| + i] {
      assert x !in gone && x !in more[..i];
      assert x in before.stamps - (p + KeySet(gone));
      assert x in mid.stamps - p && (mid.stamps - p)[x] == mid.stamps[x];
      assert (before.stamps - (p + KeySet(gone)))[x] == before.stamps[x];
      assert WentBefore(mid, more, i, x);
      assert Aged(before, more[i], mid.stamps[more[i]]);
    }
  }

  lemma OldestWentWiden(before: Mark, p: set<Key>, q: set<Key>, gone: seq<Key>, t: real)
    requires OldestWent(before, p, gone, t) && p <= q
    ensures OldestWent(before, q, gone, t)
  {
    forall i: nat, x | i < |gone| && x in before.stamps && x !in q && !HasCome(before.db, gone[i], t)
      ensures WentBefore(before, gone, i, x)
    {
      assert x !in p;
    }
  }

  // ----- one typed write -----

  /** The stamps after a call that wrote to `key` and deleted `gone`: that of the key is the one it
  had or a new one. */
  ghost predicate Stamped(before: Mark, after: Mark, key: Key, gone: seq<Key>) {
    && before.tick <= after.tick
    && after.stamps - {key} == before.stamps - ({key} + KeySet(gone))
    && (key in after.stamps ==> Aged(before, key, after.stamps[key]))
  }

  /** The same where the key has been looked at. */
  ghost predicate StampedSince(before: Mark, after: Mark, key: Key, gone: seq<Key>) {
    Stamped(before, after, key, gone) && (key in after.stamps ==> before.tick <= after.stamps[key])
  }

  lemma StampedLooked(before: Mark, after: Mark, key: Key)
    requires before.tick <= after.tick && after.stamps - {key} == before.stamps - {key}
    requires key in after.stamps ==> before.tick <= after.stamps[key]
    ensures StampedSince(before, after, key, []) && Stamped(before, after, key, [])
  {
    assert KeySet([]) == {};
  }

  lemma StampedMore(m0: Mark, m1: Mark, m2: Mark, key: Key, gone: seq<Key>, more: seq<Key>)
    requires Stamped(m0, m1, key, gone) && Stamped(m1, m2, key, more)
    ensures Stamped(m0, m2, key, gone + more)
    ensures StampedSince(m0, m1, key, gone) ==> StampedSince(m0, m2, key, gone + more)
  {
    var p := {key};
    assert KeySet(gone + more) == KeySet(gone) + KeySet(more);
    assert m2.stamps - p == (m1.stamps - p) - KeySet(more);
    assert m0.stamps - (p + KeySet(gone + more)) == (m0.stamps - (p + KeySet(gone))) - KeySet(more);
  }

  lemma WrittenStampOff(stamps: map<Key, nat>, key: Key, stamp: nat, gone: set<Key>)
    ensures (stamps[key := stamp] - gone) - {key} == stamps - ({key} + gone)
    ensures key in stamps[key := stamp] - gone ==> (stamps[key := stamp] - gone)[key] == stamp
  {
  }

  lemma PutStampOff(stamps: map<Key, nat>, key: Key, stamp: Option<nat>)
    ensures Put(stamps, key, stamp) - {key} == stamps - {key}
    ensures key in Put(stamps, key, stamp) ==> stamp == Some(Put(stamps, key, stamp)[key])
  {
  }

  lemma LostStamps(before: Mark, key: Key, v: Value, mid: Mark, gone: seq<Key>)
    requires Lost(Written(before, key, v), mid, gone)
    ensures mid.stamps == before.stamps[key := before.tick] - KeySet(gone) && mid.tick == before.tick + 1
  {
    hide DeleteAll, KeySet;
  }

  /** The same where the key may have been put back with an older stamp. */
  ghost predicate StampedOr(before: Mark, after: Mark, key: Key, gone: seq<Key>, stamp: Option<nat>) {
    && before.tick <= after.tick
    && after.stamps - {key} == before.stamps - ({key} + KeySet(gone))
    && (key in after.stamps ==> before.tick <= after.stamps[key] || stamp == Some(after.stamps[key]))
  }

  lemma StampedWritten(before: Mark, key: Key, v: Value, mid: Mark, gone: seq<Key>, b: Backup)
    requires Lost(Written(before, key, v), mid, gone)
    ensures StampedOr(before, mid, key, gone, b.access) && StampedOr(before, Restored(mid, key, b), key, gone, b.access)
  {
    hide Lost, KeySet, Put;
    LostStamps(before, key, v, mid, gone);
    WrittenStampOff(before.stamps, key, before.tick, KeySet(gone));
    PutStampOff(mid.stamps, key, b.access);
  }

  lemma StampedUsed(before: Mark, after: Mark, key: Key, gone: seq<Key>)
    requires StampedSince(before, after, key, gone) && Below(after)
    ensures Used(before, after, [key])
  {
    StampedOff(before, after, key, gone);
    UsedOne(before, after, key);
  }

  lemma StampedOff(before: Mark, after: Mark, key: Key, gone: seq<Key>)
    requires Stamped(before, after, key, gone)
    ensures NoneNewer(before.stamps, after.stamps, key)
    ensures forall k :: k in after.stamps ==> Aged(before, k, after.stamps[k])
  {
    forall k | k in after.stamps && k != key ensures k in before.stamps && after.stamps[k] == before.stamps[k] {
      assert k in after.stamps - {key} && (after.stamps - {key})[k] == after.stamps[k];
      assert (before.stamps - ({key} + KeySet(gone)))[k] == before.stamps[k];
    }
  }

  lemma PartWent(before: Mark, mid: Mark, key: Key, gone: seq<Key>, more: seq<Key>, t: real)
    requires Stamped(before, mid, key, gone) && Below(before)
    requires OldestWent(before, {key}, gone, t) && OldestWent(mid, {key}, more, t)
    requires forall k :: Due(mid.db, k, t) ==> Due(before.db, k, t)
    ensures OldestWent(before, {key}, gone + more, t)
  {
    hide OldestWent;
    StampedOff(before, mid, key, gone);
    OldestWentMore(before, mid, {key}, gone, key, more, t);
    assert {key} + {key} == {key};
  }

  /** A key looked at and then written, or put back as it was before the look. */
  lemma StampedAgain(before: Mark, looked: Mark, after: Mark, key: Key, gone: seq<Key>)
    requires StampedSince(before, looked, key, []) && StampedOr(looked, after, key, gone, Find(before.stamps, key))
    ensures Stamped(before, after, key, gone)
  {
    hide KeySet;
    NoKeys();
    assert before.stamps - ({key} + KeySet(gone)) == (before.stamps - {key}) - KeySet(gone);
    assert looked.stamps - ({key} + KeySet(gone)) == (looked.stamps - {key}) - KeySet(gone);
  }

  lemma NoKeys()
    ensures KeySet([]) == {}
  {
  }

  lemma LookedWent(before: Mark, looked: Mark, key: Key, gone: seq<Key>, t: real)
    requires StampedSince(before, looked, key, []) && Below(before) && looked.db == before.db
    requires OldestWent(looked, {key}, gone, t)
    ensures OldestWent(before, {key}, gone, t)
  {
    hide OldestWent;
    NothingWent(before, {key}, t);
    PartWent(before, looked, key, [], gone, t);
    assert [] + gone == gone;
  }

  /** The key put back as it was once it had been looked at. */
  lemma StampedPutBack(before: Mark, looked: Mark, now: Mark, after: Mark, key: Key, gone: seq<Key>)
    requires StampedSince(before, looked, key, []) && StampedSince(before, now, key, gone) && now.tick <= after.tick
    requires after.stamps == Put(now.stamps, key, Find(looked.stamps, key))
    ensures StampedSince(before, after, key, gone)
  {
    hide KeySet;
    PutStampOff(now.stamps, key, Find(looked.stamps, key));
  }

  /** After `exists`. */
  lemma LookedSince(before: Mark, after: Mark, key: Key, there: bool)
    requires before.tick <= after.tick
    requires after.stamps == if there then before.stamps[key := before.tick] else before.stamps - {key}
    ensures StampedSince(before, after, key, [])
  {
    assert after.stamps - {key} == before.stamps - {key};
    StampedLooked(before, after, key);
  }

  lemma StampedSinceMore(m0: Mark, m1: Mark, m2: Mark, key: Key, gone: seq<Key>, more: seq<Key>)
    requires StampedSince(m0, m1, key, gone) && Stamped(m1, m2, key, more)
    ensures StampedSince(m0, m2, key, gone + more) && Stamped(m0, m1, key, gone)
  {
    StampedMore(m0, m1, m2, key, gone, more);
  }

  // ----- keys looked at or deleted -----

  lemma UsedLooked(before: Mark, after: Mark, key: Key, there: bool)
    requires after.tick == before.tick + 1
    requires after.stamps == if there then before.stamps[key := before.tick] else before.stamps - {key}
    ensures Used(before, after, [key])
  {
    UsedOne(before, after, key);
  }

  lemma UsedWithout(before: Mark, mid: Mark, after: Mark, uses: seq<Key>, key: Key)
    requires Used(before, mid, uses) && after.stamps == mid.stamps - {key} && after.tick == mid.tick
    ensures Used(before, after, uses)
  {
  }

  // ----- MSET -----

  /** The keys of the pairs, in their order. */
  function Names(pairs: seq<(Key, Bytes)>): seq<Key> {
    seq(|pairs|, i requires 0 <= i < |pairs| => pairs[i].0)
  }

  lemma NamesStep(pairs: seq<(Key, Bytes)>, i: nat)
    requires i < |pairs|
    ensures Names(pairs[..i + 1]) == Names(pairs[..i]) + [pairs[i].0]
  {
  }

  lemma UsedAlike(before: Mark, mid: Mark, after: Mark, uses: seq<Key>)
    requires Used(before, mid, uses) && after.stamps == mid.stamps && after.tick == mid.tick
    ensures Used(before, after, uses)
  {
  }

  lemma UsedLess(before: Mark, after: Mark, lost: set<Key>)
    requires before.tick <= after.tick && after.stamps == before.stamps - lost
    ensures Used(before, after, [])
  {
    UsedNone(before, after);
  }

  lemma PairWent(before: Mark, mid: Mark, p: set<Key>, gone: seq<Key>, key: Key, more: seq<Key>, t: real)
    requires Overlaid(before, mid, p, gone) && Below(before)
    requires OldestWent(before, p, gone, t) && OldestWent(mid, {key}, more, t)
    requires forall k :: Due(mid.db, k, t) ==> Due(before.db, k, t)
    ensures OldestWent(before, p + {key}, gone + more, t)
  {
    hide OldestWent, Aged;
    OldestWentMore(before, mid, p, gone, key, more, t);
  }

  /** What is due in the middle of an MSET was due before it. */
  lemma DueBefore(before: Mark, now: Mark, p: set<Key>, gone: seq<Key>, t: real)
    requires Overlaid(before, now, p, gone) && AllPlain(now.db, p)
    ensures forall k :: Due(now.db, k, t) ==> Due(before.db, k, t)
  {
    hide Aged;
    var left := p + KeySet(gone);
    forall k | Due(now.db, k, t) ensures Due(before.db, k, t) {
      assert k in p ==> Plain(now.db, k);
      assert k in now.db.deadlines - p && k in before.db.deadlines - left;
      assert (before.db.deadlines - left)[k] == (now.db.deadlines - p)[k];
    }
  }

  // ----- commands -----

  /** The keys a command uses, in order: those it writes if it is answered without an error, those
  it looks at in any case; DEL and FLUSHALL use none. */
  function Uses(cmd: Command, reply: Reply): seq<Key> {
    match cmd
    case Set(key, _, _) => if reply.Error? then [] else [key]
    case MSet(pairs) => if reply.Error? then [] else Names(pairs)
    case Write(key, op) => if HasArguments(op) then [key] else []
    case Del(_) => []
    case Expire(key, _) => [key]
    case PExpireAt(key, _) => [key]
    case Persist(key) => [key]
    case FlushAll => []
    case Read(keys) => keys
  }

  /** The keys looked at to record it. */
  function RecordUses(cmd: Command, reply: Reply): seq<Key> {
    if reply.Error? then []
    else
      match cmd
      case Set(key, _, _) => [key]
      case MSet(pairs) => FirstTimes(pairs)
      case Write(key, _) => [key]
      case Expire(key, _) => [key]
      case PExpireAt(key, _) => [key]
      case _ => []
  }

  /** The keys a command may give a value to. */
  function Targets(cmd: Command): set<Key> {
    match cmd
    case Set(key, _, _) => {key}
    case MSet(pairs) => KeySet(FirstTimes(pairs))
    case Write(key, _) => {key}
    case _ => {}
  }

  /** All keys used by the first `n` requests of a run and to record them, in order. */
  function History(requests: seq<Request>, replies: seq<Reply>, n: nat): seq<Key>
    requires n <= |requests| && n <= |replies|
  {
    if n == 0 then []
    else
      var cmd, reply := requests[n - 1].cmd, replies[n - 1];
      History(requests, replies, n - 1) + (Uses(cmd, reply) + RecordUses(cmd, reply))
  }

  /** A key that was not due went only when every other key that was there, and that the command
  gives no value to, was gone or had been used after each of its uses. */
  ghost predicate LongestUnusedWent(m: Mark, history: seq<Key>, targets: set<Key>, gone: seq<Key>, t: real) {
    forall j: nat, x :: j < |gone| && x in m.db.data && x !in targets && !HasCome(m.db, gone[j], t) && x !in gone[..j] ==>
      UsedAfterAll(history, gone[j], x)
  }

  ghost predicate UsedAfterAll(history: seq<Key>, key: Key, x: Key) {
    forall p :: 0 <= p < |history| && history[p] == key ==> x in history[p..]
  }

  lemma UsesDecide(start: Mark, m: Mark, history: seq<Key>, targets: set<Key>, gone: seq<Key>, t: real)
    requires Used(start, m, history) && start.stamps == map[] && m.stamps.Keys == m.db.data.Keys
    requires OldestWent(m, targets, gone, t)
    ensures LongestUnusedWent(m, history, targets, gone, t)
  {
    forall j: nat, x | j < |gone| && x in m.db.data && x !in targets && !HasCome(m.db, gone[j], t) && x !in gone[..j]
      ensures UsedAfterAll(history, gone[j], x)
    {
      assert x in m.stamps && x in history;
      assert WentBefore(m, gone, j, x);
      forall p | 0 <= p < |history| && history[p] == gone[j] ensures x in history[p..] {
        assert x !in history[p..] ==> UsedLater(history, x, gone[j]);
      }
    }
  }

  lemma {:induction false} HistoryAlike(requests: seq<Request>, replies: seq<Reply>, reply: Reply, n: nat)
    requires n <= |replies| && n <= |requests|
    ensures History(requests, replies + [reply], n) == History(requests, replies, n)
  {
    hide Uses, RecordUses;
    if n > 0 {
      HistoryAlike(requests, replies, reply, n - 1);
    }
  }

  lemma HistoryStep(requests: seq<Request>, replies: seq<Reply>, reply: Reply)
    requires |replies| < |requests|
    ensures var cmd, n := requests[|replies|].cmd, |replies|;
      History(requests, replies + [reply], n + 1) == History(requests, replies, n) + (Uses(cmd, reply) + RecordUses(cmd, reply))
  {
    hide Uses, RecordUses;
    HistoryAlike(requests, replies, reply, |replies|);
  }

  /** So it went at every request of a run, as far as it has come. */
  ghost predicate AllWent(requests: seq<Request>, replies: seq<Reply>, marks: seq<Mark>, gones: seq<seq<Key>>)
    requires |replies| == |marks| == |gones| <= |requests|
  {
    forall i: nat :: i < |marks| && Tidy(marks[i].db) ==>
      LongestUnusedWent(marks[i], History(requests, replies, i), Targets(requests[i].cmd), gones[i], requests[i].t)
  }

  lemma AllWentSnoc(requests: seq<Request>, replies: seq<Reply>, marks: seq<Mark>, gones: seq<seq<Key>>,
      reply: Reply, m: Mark, gone: seq<Key>)
    requires |replies| == |marks| == |gones| < |requests| && AllWent(requests, replies, marks, gones)
    requires Tidy(m.db) ==>
      LongestUnusedWent(m, History(requests, replies, |replies|), Targets(requests[|marks|].cmd), gone, requests[|marks|].t)
    ensures AllWent(requests, replies + [reply], marks + [m], gones + [gone])
  {
    hide LongestUnusedWent, Targets, Tidy, History;
    var n, replies', marks', gones' := |marks|, replies + [reply], marks + [m], gones + [gone];
    forall i: nat | i < |marks'| && Tidy(marks'[i].db)
      ensures LongestUnusedWent(marks'[i], History(requests, replies', i), Targets(requests[i].cmd), gones'[i], requests[i].t)
    {
      HistoryAlike(requests, replies, reply, i);
      if i < n {
        assert marks'[i] == marks[i] && gones'[i] == gones[i];
      }
    }
  }

  /** What is kept of the uses in the course of a run that started at `start`. */
  ghost predicate RecentlyUsed(start: Mark, now: Mark, requests: seq<Request>, replies: seq<Reply>, marks: seq<Mark>,
      gones: seq<seq<Key>>, policy: Policy)
  {
    && |replies| == |marks| == |gones| <= |requests| && start.stamps == map[]
    && Used(start, now, History(requests, replies, |replies|))
    && (policy.AllKeysLru? ==> AllWent(requests, replies, marks, gones))
  }

  lemma RecentStart(start: Mark, requests: seq<Request>, policy: Policy)
    requires start.stamps == map[]
    ensures RecentlyUsed(start, start, requests, [], [], [], policy)
  {
    UsedNothing(start);
  }

  lemma RecentStep(start: Mark, found: Mark, now: Mark, requests: seq<Request>, replies: seq<Reply>, marks: seq<Mark>,
      gones: seq<seq<Key>>, reply: Reply, gone: seq<Key>, policy: Policy)
    requires RecentlyUsed(start, found, requests, replies, marks, gones, policy) && |replies| < |requests|
    requires Below(found) && found.stamps.Keys == found.db.data.Keys
    requires var cmd := requests[|replies|].cmd; Used(found, now, Uses(cmd, reply) + RecordUses(cmd, reply))
    requires var request := requests[|replies|];
      Tidy(found.db) && policy.AllKeysLru? ==> OldestWent(found, Targets(request.cmd), gone, request.t)
    ensures RecentlyUsed(start, now, requests, replies + [reply], marks + [found], gones + [gone], policy)
  {
    hide Used, OldestWent, AllWent, Uses, RecordUses, Targets, LongestUnusedWent, Below, History;
    var history, request := History(requests, replies, |replies|), requests[|replies|];
    if policy.AllKeysLru? {
      if Tidy(found.db) {
        UsesDecide(start, found, history, Targets(request.cmd), gone, request.t);
      }
      AllWentSnoc(requests, replies, marks, gones, reply, found, gone);
    }
    HistoryStep(requests, replies, reply);
    UsedMore(start, found, now, history, Uses(request.cmd, reply) + RecordUses(request.cmd, reply));
  }

  lemma RecentAll(start: Mark, now: Mark, requests: seq<Request>, replies: seq<Reply>, marks: seq<Mark>,
      gones: seq<seq<Key>>, policy: Policy)
    requires RecentlyUsed(start, now, requests, replies, marks, gones, policy)
    ensures policy.AllKeysLru? ==> |replies| == |marks| == |gones| <= |requests| && AllWent(requests, replies, marks, gones)
  {
  }
}
