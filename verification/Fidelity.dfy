/** Logs and the keyspaces they rebuild: what every step keeps, whole runs, and where it fails. */
module Fidelity {
  import opened Ordering
  import opened Numbers
  import opened Commands
  import opened Aof
  import opened Outcomes
  import opened LateReplay
  import opened Survival

  /** Replaying the log at that clock meets no error and rebuilds the keyspace, deadlines to the
  millisecond, none of them past. */
  ghost predicate Faithful(db: Db, log: seq<Command>, clock: real) {
    && Tidy(db) && NoneStale(db, clock)
    && Replay(log, clock) == Some(Db(db.data, map k | k in db.deadlines :: Rounded(db.deadlines[k])))
  }

  /** Replaying the log at that clock meets no error and rebuilds what is left of the keyspace
  by then: all but the keys whose deadline is past. */
  ghost predicate LateFaithful(db: Db, log: seq<Command>, clock: real) {
    Tidy(db) && Replay(log, clock) == Some(Late(db, clock))
  }

  lemma FaithfulIsOnTime(db: Db, log: seq<Command>, clock: real)
    ensures Faithful(db, log, clock) <==> LateFaithful(db, log, clock) && NoneStale(db, clock)
  {
    if NoneStale(db, clock) {
      LateOnTime(db, clock);
    }
  }

  /** What such a log brings back, said of values and deadlines alone. */
  lemma LateFaithfulBack(db: Db, log: seq<Command>, clock: real)
    requires LateFaithful(db, log, clock)
    ensures Replay(log, clock).Some? && BroughtBack(db, Replay(log, clock).value, clock)
  {
    hide Late, BroughtBack;
    LateIsBack(db, clock);
  }

  lemma FaithfulBack(db: Db, log: seq<Command>, clock: real)
    requires Faithful(db, log, clock)
    ensures Replay(log, clock).Some? && AllBack(db, Replay(log, clock).value)
  {
    hide AllBack, Rounded;
    RoundedIsAllBack(db);
  }

  // ----- one step -----

  /** A command handled, with whatever deletions it brought about, and recorded keeps the log
  right at a clock, before or after its deadlines, if and only if it does not break. */
  lemma StepLateIff(db: Db, log: seq<Command>, clock: real, cmd: Command, t: real, u: real, gone: seq<Key>, h: Handled)
    requires LateFaithful(db, log, clock) && Outcome(db, cmd, t, gone, h)
    ensures var r := Record(h.db, cmd, h.reply, u);
      LateFaithful(r.db, log + (h.log + r.log), clock) <==>
        (h.reply.Error? || !Breaks(DeleteAll(Looked(db, cmd, t), gone), cmd, t, u, clock))
  {
    hide Handle, Record, ReplayFrom, Outcome, Breaks, Late;
    var r := Record(h.db, cmd, h.reply, u);
    StepReplay(db, clock, cmd, t, u, gone, h);
    ReplayConcat(EMPTY_DB, log, h.log + r.log, clock);
  }

  /** Without a memory limit the condition is on the command and the keyspace it finds. */
  lemma HandledLateIff(db: Db, log: seq<Command>, clock: real, cmd: Command, t: real, u: real)
    requires LateFaithful(db, log, clock)
    ensures var h := Handle(db, cmd, t);
      var r := Record(h.db, cmd, h.reply, u);
      LateFaithful(r.db, log + (h.log + r.log), clock) <==> !Breaks(db, cmd, t, u, clock)
  {
    hide Record, LateFaithful, Late, MissedWrite, Apply;
    LateFaithfulTidy(db, log, clock);
    HandleIsOutcome(db, cmd, t);
    StepLateIff(db, log, clock, cmd, t, u, [], Handle(db, cmd, t));
    BreaksAlike(db, cmd, t, u, clock, []);
    if Handle(db, cmd, t).reply.Error? {
      RefusedBreaksNothing(db, cmd, t, u, clock);
    }
  }

  lemma LateFaithfulTidy(db: Db, log: seq<Command>, clock: real)
    requires LateFaithful(db, log, clock)
    ensures Tidy(db)
  {
  }

  lemma RefusedBreaksNothing(db: Db, cmd: Command, t: real, u: real, clock: real)
    requires Handle(db, cmd, t).reply.Error?
    ensures !Breaks(db, cmd, t, u, clock)
  {
  }

  /** Deletions of other keys do not matter. */
  lemma BreaksAlike(db: Db, cmd: Command, t: real, u: real, clock: real, gone: seq<Key>)
    requires Tidy(db) && (cmd.Write? ==> cmd.key !in gone) && (gone != [] ==> cmd.Set? || cmd.MSet? || cmd.Write?)
    ensures Breaks(DeleteAll(Looked(db, cmd, t), gone), cmd, t, u, clock) <==> Breaks(db, cmd, t, u, clock)
  {
    hide Apply, Rounded;
    if cmd.Write? {
      DeleteAllIs(Purge(db, cmd.key, t), gone);
      LookedNotDue(db, cmd.key, t, gone);
      assert cmd.key !in KeySet(gone);
    }
  }

  // ----- on time -----

  predicate Times(cmd: Command, k: Key) {
    (cmd.Set? || cmd.Expire? || cmd.PExpireAt?) && cmd.key == k
  }

  lemma HandledDeadlines(db: Db, cmd: Command, t: real, gone: seq<Key>, h: Handled, k: Key)
    requires Outcome(db, cmd, t, gone, h) && k in h.db.deadlines
    ensures (k in db.deadlines && db.deadlines[k] == h.db.deadlines[k]) || (Times(cmd, k) && !h.reply.Error?)
  {
    hide Apply, DeleteAll;
    DeleteAllIs(Looked(db, cmd, t), gone);
    match cmd
    case Del(keys) => DeleteAllIs(db, keys);
    case Read(keys) => PurgeAllKeeps(db, keys, t, k);
    case _ =>
  }

  lemma RecordedDeadlines(db: Db, cmd: Command, reply: Reply, u: real, k: Key)
    requires k in Record(db, cmd, reply, u).db.deadlines
    ensures var r := Record(db, cmd, reply, u);
      && k in db.deadlines && db.deadlines[k] == r.db.deadlines[k]
      && (Times(cmd, k) && !reply.Error? && Tidy(db) ==> r.log != [] && r.log[|r.log| - 1] == PExpireAt(k, DeadlineMs(r.db.deadlines[k])))
  {
    hide DeadlineMs;
    if cmd.MSet? && !reply.Error? {
      RecordFinalKeeps(db, FirstTimes(cmd.pairs), u, k);
    }
  }

  /** A deadline is either an old one or the last thing in the log. */
  lemma NewDeadlines(db: Db, cmd: Command, t: real, u: real, gone: seq<Key>, h: Handled, k: Key)
    requires Tidy(db) && Outcome(db, cmd, t, gone, h)
    requires k in Record(h.db, cmd, h.reply, u).db.deadlines
    ensures var r := Record(h.db, cmd, h.reply, u);
      || (k in db.deadlines && db.deadlines[k] == r.db.deadlines[k])
      || (r.log != [] && r.log[|r.log| - 1] == PExpireAt(k, DeadlineMs(r.db.deadlines[k])))
  {
    hide Handle, Record, DeadlineMs, DeleteAll;
    RecordedDeadlines(h.db, cmd, h.reply, u, k);
    HandledDeadlines(db, cmd, t, gone, h, k);
    DeleteAllIs(db, gone);
    if cmd.Set? {
      HandleTidy(DeleteAll(db, gone), cmd, t);
    } else if cmd.Expire? || cmd.PExpireAt? {
      HandleTidy(db, cmd, t);
    }
  }

  lemma {:induction false} PurgeAllKeeps(db: Db, keys: seq<Key>, t: real, k: Key)
    requires k in PurgeAll(db, keys, t).deadlines
    ensures k in db.deadlines && db.deadlines[k] == PurgeAll(db, keys, t).deadlines[k]
    decreases |keys|
  {
    if keys != [] {
      PurgeAllKeeps(Purge(db, keys[0], t), keys[1..], t, k);
    }
  }

  lemma {:induction false} RecordFinalKeeps(db: Db, keys: seq<Key>, u: real, k: Key)
    requires k in RecordFinal(db, keys, u).db.deadlines
    ensures k in db.deadlines && db.deadlines[k] == RecordFinal(db, keys, u).db.deadlines[k]
    decreases |keys|
  {
    if keys != [] {
      RecordFinalKeeps(Purge(db, keys[0], u), keys[1..], u, k);
    }
  }

  lemma StepOnTime(db: Db, clock: real, cmd: Command, t: real, u: real, gone: seq<Key>, h: Handled)
    requires Tidy(db) && NoneStale(db, clock) && Outcome(db, cmd, t, gone, h)
    requires Before(Record(h.db, cmd, h.reply, u).log, clock)
    ensures NoneStale(Record(h.db, cmd, h.reply, u).db, clock)
  {
    hide Record, Outcome, DeadlineMs;
    var r := Record(h.db, cmd, h.reply, u);
    forall k | k in r.db.deadlines ensures !Stale(r.db, k, clock) {
      NewDeadlines(db, cmd, t, u, gone, h, k);
      assert k in db.deadlines ==> !Stale(db, k, clock);
    }
  }

  /** On time only EXPIRE with no time left can break. */
  lemma OnTimeBreaks(db: Db, clock: real, cmd: Command, t: real, u: real, gone: seq<Key>)
    requires Tidy(db) && NoneStale(db, clock)
    requires gone != [] ==> cmd.Set? || cmd.MSet? || cmd.Write?
    ensures Breaks(DeleteAll(Looked(db, cmd, t), gone), cmd, t, u, clock) <==> Silent(db, cmd, t)
  {
    hide Apply, Rounded;
    DeleteAllIs(Looked(db, cmd, t), gone);
  }

  /** EXPIRE with no time left deletes the key and leaves no record. */
  predicate Silent(db: Db, cmd: Command, t: real) {
    cmd.Expire? && cmd.seconds <= 0 && cmd.key in Purge(db, cmd.key, t).data
  }

  /** While no logged deadline is past, a command keeps a faithful log faithful if and only if
  it is not an EXPIRE that deletes its key. */
  lemma StepFaithfulIff(db: Db, log: seq<Command>, clock: real, cmd: Command, t: real, u: real, gone: seq<Key>, h: Handled)
    requires Faithful(db, log, clock) && Outcome(db, cmd, t, gone, h)
    requires Before(Record(h.db, cmd, h.reply, u).log, clock)
    ensures var r := Record(h.db, cmd, h.reply, u);
      Faithful(r.db, log + (h.log + r.log), clock) <==> !Silent(db, cmd, t)
  {
    hide Record, LateFaithful, Faithful, NoneStale, Breaks, Before, Apply;
    var r := Record(h.db, cmd, h.reply, u);
    FaithfulIsOnTime(db, log, clock);
    LateFaithfulTidy(db, log, clock);
    StepOnTime(db, clock, cmd, t, u, gone, h);
    StepLateIff(db, log, clock, cmd, t, u, gone, h);
    OnTimeBreaks(db, clock, cmd, t, u, gone);
    FaithfulIsOnTime(r.db, log + (h.log + r.log), clock);
  }

  /** A command handled and recorded, in one of the ways it may end. */
  ghost predicate Ended(db: Db, log: seq<Command>, cmd: Command, t: real, u: real, gone: seq<Key>, reply: Reply, db': Db, log': seq<Command>) {
    exists h ::
      && Outcome(db, cmd, t, gone, h) && h.reply == reply && (cmd.Write? ==> cmd.key !in gone)
      && db' == Record(h.db, cmd, reply, u).db && log' == log + (h.log + Record(h.db, cmd, reply, u).log)
  }

  lemma EndedBy(db: Db, log: seq<Command>, cmd: Command, t: real, u: real, gone: seq<Key>, h: Handled)
    requires Outcome(db, cmd, t, gone, h) && (cmd.Write? ==> cmd.key !in gone)
    ensures var r := Record(h.db, cmd, h.reply, u); Ended(db, log, cmd, t, u, gone, h.reply, r.db, log + (h.log + r.log))
  {
    hide Outcome, Record;
  }

  lemma EndedFaithful(db: Db, log: seq<Command>, clock: real, cmd: Command, t: real, u: real, gone: seq<Key>, reply: Reply, db': Db, log': seq<Command>)
    requires Tidy(db) ==> Ended(db, log, cmd, t, u, gone, reply, db', log')
    ensures LateFaithful(db, log, clock) ==> (LateFaithful(db', log', clock) <==> reply.Error? || !Breaks(db, cmd, t, u, clock))
    ensures !Silent(db, cmd, t) && Faithful(db, log, clock) && Before(log', clock) ==> Faithful(db', log', clock)
  {
    hide Outcome, Record, LateFaithful, Faithful, Breaks, Silent, Before;
    FaithfulIsOnTime(db, log, clock);
    if LateFaithful(db, log, clock) {
      LateFaithfulTidy(db, log, clock);
      var h :| Outcome(db, cmd, t, gone, h) && h.reply == reply && (cmd.Write? ==> cmd.key !in gone)
        && db' == Record(h.db, cmd, reply, u).db && log' == log + (h.log + Record(h.db, cmd, reply, u).log);
      StepLateIff(db, log, clock, cmd, t, u, gone, h);
      OnlyWritersDelete(db, cmd, t, gone, h);
      BreaksAlike(db, cmd, t, u, clock, gone);
      var more := Record(h.db, cmd, reply, u).log;
      BeforeConcat(log, h.log + more, clock);
      BeforeConcat(h.log, more, clock);
      if Faithful(db, log, clock) && Before(log', clock) {
        StepFaithfulIff(db, log, clock, cmd, t, u, gone, h);
      }
    }
  }

  lemma EndedTidy(db: Db, log: seq<Command>, cmd: Command, t: real, u: real, gone: seq<Key>, reply: Reply, db': Db, log': seq<Command>)
    requires Tidy(db) && Ended(db, log, cmd, t, u, gone, reply, db', log')
    ensures Tidy(db') && log <= log'
  {
    hide Outcome, Record, Breaks, Late, ReplayFrom;
    var h :| Outcome(db, cmd, t, gone, h) && h.reply == reply && (cmd.Write? ==> cmd.key !in gone)
      && db' == Record(h.db, cmd, reply, u).db && log' == log + (h.log + Record(h.db, cmd, reply, u).log);
    StepReplay(db, 0.0, cmd, t, u, gone, h);
  }

  lemma OnlyWritersDelete(db: Db, cmd: Command, t: real, gone: seq<Key>, h: Handled)
    requires Outcome(db, cmd, t, gone, h)
    ensures gone != [] ==> cmd.Set? || cmd.MSet? || cmd.Write?
  {
  }

  /** Automatic deletions alone, recorded as they happen. */
  lemma DeletionsFaithful(db: Db, log: seq<Command>, clock: real, gone: seq<Key>)
    ensures LateFaithful(db, log, clock) ==> LateFaithful(DeleteAll(db, gone), log + Dels(gone), clock)
    ensures Faithful(db, log, clock) ==> Faithful(DeleteAll(db, gone), log + Dels(gone), clock)
  {
    hide Late, NoneStale, ReplayFrom;
    FaithfulIsOnTime(db, log, clock);
    if LateFaithful(db, log, clock) {
      ReplayDels(db, clock, gone);
      ReplaySteps(EMPTY_DB, log, Late(db, clock), Dels(gone), Some(Late(DeleteAll(db, gone), clock)), clock);
      FaithfulIsOnTime(DeleteAll(db, gone), log + Dels(gone), clock);
      FewerStale(db, clock, gone);
    }
  }

  lemma FewerStale(db: Db, clock: real, gone: seq<Key>)
    ensures NoneStale(db, clock) ==> NoneStale(DeleteAll(db, gone), clock)
  {
    DeleteAllIs(db, gone);
  }

  /** Deletions that leave no record, made once the log has been replayed, leave it right exactly
  when none of the keys would be left by now anyway. */
  lemma UnrecordedIff(db: Db, log: seq<Command>, clock: real, now: real, gone: seq<Key>)
    requires LateFaithful(db, log, now) && clock <= now
    ensures LateFaithful(DeleteAll(Late(db, clock), gone), log, now) <==> forall k :: k in gone ==> k !in Late(db, now).data
  {
    hide DeleteAll, Late, ReplayFrom;
    var rep := Late(db, clock);
    LateTidy(db, clock);
    LateTidy(db, now);
    LateThenLater(db, clock, now);
    LateDeleteAll(rep, now, gone);
    DeleteAllIs(rep, gone);
    DeleteAllIs(Late(db, now), gone);
    var left := Late(db, now);
    if k :| k in gone && k in left.data {
      assert k !in DeleteAll(left, gone).data;
    } else {
      assert KeySet(gone) * left.data.Keys == {};
      assert left.data - KeySet(gone) == left.data && left.deadlines - {} == left.deadlines;
    }
  }

  /** An empty log is right if and only if nothing is left by then. */
  lemma EmptyLogIff(db: Db, clock: real)
    requires Tidy(db)
    ensures LateFaithful(db, [], clock) <==> forall k :: k in db.data ==> Stale(db, k, clock)
  {
    hide Rounded;
    var left := Late(db, clock);
    if forall k :: k in db.data ==> Stale(db, k, clock) {
      assert left.data == map[] && left.deadlines == map[];
    } else {
      var k :| k in db.data && !Stale(db, k, clock);
      assert k in left.data;
    }
  }

  /** Replay keeps deadlines to keys that are there. */
  lemma {:induction false} ReplayTidy(db: Db, log: seq<Command>, clock: real)
    requires Tidy(db)
    ensures ReplayFrom(db, log, clock).Some? ==> Tidy(ReplayFrom(db, log, clock).value)
    decreases |log|
  {
    hide Handle;
    if log != [] {
      HandleTidy(db, log[0], clock);
      ReplayTidy(Handle(db, log[0], clock).db, log[1..], clock);
    }
  }

  // ----- whole runs -----

  /** A client command handled at time `t` and recorded at time `u`. A pass of active expiry is
  a Read of the keys it samples, at the one clock reading it makes. */
  datatype Request = Request(cmd: Command, t: real, u: real)

  datatype Served = Served(db: Db, log: seq<Command>)

  /** Serving requests from an empty keyspace without a memory limit. */
  function Run(requests: seq<Request>): Served {
    if requests == [] then Served(EMPTY_DB, [])
    else
      var before, last := Run(requests[..|requests| - 1]), requests[|requests| - 1];
      var h := Handle(before.db, last.cmd, last.t);
      var r := Record(h.db, last.cmd, h.reply, last.u);
      Served(r.db, before.log + (h.log + r.log))
  }

  /** Without a limit every deadline belongs to a key that is there. */
  lemma {:induction false} RunTidy(requests: seq<Request>)
    ensures Tidy(Run(requests).db)
  {
    if requests != [] {
      var before, last := Run(requests[..|requests| - 1]), requests[|requests| - 1];
      RunTidy(requests[..|requests| - 1]);
      HandleTidy(before.db, last.cmd, last.t);
      RecordTidy(Handle(before.db, last.cmd, last.t).db, last.cmd, Handle(before.db, last.cmd, last.t).reply, last.u);
    }
  }

  ghost predicate NeverBreaks(requests: seq<Request>, clock: real) {
    forall i :: 0 <= i < |requests| ==> !Breaks(Run(requests[..i]).db, requests[i].cmd, requests[i].t, requests[i].u, clock)
  }

  /** If no command of a run breaks, replaying its log, however late, rebuilds what is left of
  the keyspace by then: the keys without a deadline or with one at least a millisecond ahead, and
  none whose deadline has come. */
  lemma {:induction false} RunLate(requests: seq<Request>, clock: real)
    requires NeverBreaks(requests, clock)
    ensures LateFaithful(Run(requests).db, Run(requests).log, clock)
    ensures Replay(Run(requests).log, clock).Some?
    ensures BroughtBack(Run(requests).db, Replay(Run(requests).log, clock).value, clock)
  {
    hide Handle, Record, Breaks, BroughtBack;
    if requests == [] {
      NothingYet(clock);
      LateFaithfulBack(EMPTY_DB, [], clock);
    } else {
      var n := |requests| - 1;
      var init, last := requests[..n], requests[n];
      assert forall i :: 0 <= i < n ==> init[..i] == requests[..i] && init[i] == requests[i];
      RunLate(init, clock);
      HandledLateIff(Run(init).db, Run(init).log, clock, last.cmd, last.t, last.u);
      LateFaithfulBack(Run(requests).db, Run(requests).log, clock);
    }
  }

  lemma NothingYet(clock: real)
    ensures Run([]) == Served(EMPTY_DB, []) && LateFaithful(EMPTY_DB, [], clock) && Faithful(EMPTY_DB, [], clock)
  {
    assert Late(EMPTY_DB, clock) == EMPTY_DB;
    FaithfulIsOnTime(EMPTY_DB, [], clock);
  }

  ghost predicate NeverSilent(requests: seq<Request>) {
    forall i :: 0 <= i < |requests| ==> !Silent(Run(requests[..i]).db, requests[i].cmd, requests[i].t)
  }

  /** Replaying the log of a run rebuilds all that the run left, at any clock that is still before
  every logged deadline. */
  lemma {:induction false} RunFaithful(requests: seq<Request>, clock: real)
    requires NeverSilent(requests) && Before(Run(requests).log, clock)
    ensures Faithful(Run(requests).db, Run(requests).log, clock)
    ensures Replay(Run(requests).log, clock).Some?
    ensures AllBack(Run(requests).db, Replay(Run(requests).log, clock).value)
  {
    hide Handle, Record, Silent, Outcome, Before, Faithful, AllBack;
    if requests == [] {
      NothingYet(clock);
      FaithfulBack(EMPTY_DB, [], clock);
    } else {
      var n := |requests| - 1;
      var init, last := requests[..n], requests[n];
      var before := Run(init);
      var h := Handle(before.db, last.cmd, last.t);
      var r := Record(h.db, last.cmd, h.reply, last.u);
      BeforeConcat(before.log, h.log + r.log, clock);
      BeforeConcat(h.log, r.log, clock);
      assert forall i :: 0 <= i < n ==> init[..i] == requests[..i] && init[i] == requests[i];
      RunFaithful(init, clock);
      RunTidy(init);
      HandleIsOutcome(before.db, last.cmd, last.t);
      StepFaithfulIff(before.db, before.log, clock, last.cmd, last.t, last.u, [], h);
      FaithfulBack(Run(requests).db, Run(requests).log, clock);
    }
  }

  // ----- runs without deadlines -----

  predicate Untimed(cmd: Command) {
    !cmd.Expire? && !cmd.PExpireAt? && (cmd.Set? ==> cmd.options == [])
  }

  ghost predicate NoDeadlines(log: seq<Command>) {
    forall i :: 0 <= i < |log| ==> !log[i].PExpireAt?
  }

  lemma {:induction false} PurgeAllUntimed(db: Db, keys: seq<Key>, t: real)
    requires db.deadlines == map[]
    ensures PurgeAll(db, keys, t) == db && PurgeAllLog(db, keys, t) == []
    decreases |keys|
  {
    if keys != [] {
      PurgeAllUntimed(db, keys[1..], t);
    }
  }

  lemma {:induction false} RecordFinalUntimed(db: Db, keys: seq<Key>, u: real)
    requires db.deadlines == map[]
    ensures RecordFinal(db, keys, u).db == db && NoDeadlines(RecordFinal(db, keys, u).log)
    decreases |keys|
  {
    if keys != [] {
      RecordFinalUntimed(db, keys[1..], u);
    }
  }

  lemma UntimedHandled(db: Db, cmd: Command, t: real, gone: seq<Key>, h: Handled)
    requires db.deadlines == map[] && Untimed(cmd) && Outcome(db, cmd, t, gone, h)
    ensures h.db.deadlines == map[] && NoDeadlines(h.log)
  {
    hide Apply;
    DeleteAllIs(Looked(db, cmd, t), gone);
    match cmd
    case Set(_, _, options) => assert TtlOf(options, NoTtl) == NoTtl;
    case Del(keys) => DeleteAllIs(db, keys);
    case Read(keys) => PurgeAllUntimed(db, keys, t);
    case _ =>
  }

  lemma UntimedRecorded(db: Db, cmd: Command, reply: Reply, u: real)
    requires db.deadlines == map[] && Untimed(cmd)
    ensures Record(db, cmd, reply, u).db == db && NoDeadlines(Record(db, cmd, reply, u).log)
  {
    if cmd.MSet? {
      RecordFinalUntimed(db, FirstTimes(cmd.pairs), u);
    }
  }

  // ----- where the log fails -----

  /** A failed MSET keeps the log right, at whatever clock, exactly when it put back no key whose
  deletion had been recorded, unless its deadline is past anyway. */
  lemma PutBackFaithfulIff(db: Db, log: seq<Command>, clock: real, keys: seq<Key>, gone: seq<Key>)
    requires LateFaithful(db, log, clock)
    ensures LateFaithful(PutBack(db, keys, gone), log + Dels(gone), clock) <==>
      forall k :: k in gone && k in keys ==> k !in db.data || Stale(db, k, clock)
  {
    hide Rounded, ReplayFrom, DeleteAll;
    DeletionsFaithful(db, log, clock, gone);
    DeleteAllIs(db, gone);
    var back, left := PutBack(db, keys, gone), DeleteAll(db, gone);
    if k :| k in gone && k in keys && k in db.data && !Stale(db, k, clock) {
      assert k in Late(back, clock).data && k !in Late(left, clock).data;
    } else {
      assert Late(back, clock) == Late(left, clock);
    }
  }

  lemma RunSnoc(requests: seq<Request>, last: Request)
    ensures var before := Run(requests);
      var h := Handle(before.db, last.cmd, last.t);
      var r := Record(h.db, last.cmd, h.reply, last.u);
      Run(requests + [last]) == Served(r.db, before.log + (h.log + r.log))
  {
    assert (requests + [last])[..|requests|] == requests;
  }

  /** A list with a deadline at one second. */
  function TimedList(key: Key, x: Text): seq<Request> {
    [Request(Write(key, RPush([x])), 0.0, 0.0)] + [Request(PExpireAt(key, 1000), 0.0, 0.0)]
  }

  /** The list pushed, at any clock. */
  lemma ListPushed(key: Key, x: Text, t: real)
    ensures var push, db := Write(key, RPush([x])), Db(map[key := ListValue([x])], map[]);
      && Handle(EMPTY_DB, push, t) == Handled(db, Number(0), [])
      && Record(db, push, Number(0), t) == Recorded(db, [push])
  {
    assert [] + [x] == [x];
  }

  /** Its deadline set, on time and too late. */
  lemma ListTimed(key: Key, x: Text)
    ensures var at, db := PExpireAt(key, 1000), Db(map[key := ListValue([x])], map[]);
      var timed := db.(deadlines := map[key := 1.0]);
      && Handle(db, at, 0.0) == Handled(timed, Number(1), [])
      && Record(timed, at, Number(1), 0.0) == Recorded(timed, [at])
      && Handle(db, at, 2.0) == Handled(EMPTY_DB, Number(1), [Del([key])])
  {
    hide DeadlineMs;
    MsExact(1000);
    assert 1000 as real / 1000.0 == 1.0;
  }

  lemma TimedListRuns(key: Key, x: Text)
    ensures Run(TimedList(key, x)) ==
      Served(Db(map[key := ListValue([x])], map[key := 1.0]), [Write(key, RPush([x])), PExpireAt(key, 1000)])
    ensures Replay(Run(TimedList(key, x)).log, 2.0) == Some(EMPTY_DB)
  {
    hide Handle, Record, ReplayFrom, Run;
    var push, at := Write(key, RPush([x])), PExpireAt(key, 1000);
    var first, second := Request(push, 0.0, 0.0), Request(at, 0.0, 0.0);
    var db := Db(map[key := ListValue([x])], map[]);
    ListPushed(key, x, 0.0);
    ListPushed(key, x, 2.0);
    ListTimed(key, x);
    NothingYet(2.0);
    RunSnoc([], first);
    assert [] + [first] == [first];
    RunSnoc([first], second);
    ReplayOne(EMPTY_DB, push, 2.0);
    ReplayOne(db, at, 2.0);
    assert [push] + [at] == [push, at];
    ReplaySteps(EMPTY_DB, [push], db, [at], Some(EMPTY_DB), 2.0);
  }

  /** Replayed after the deadline, a later RPUSH brings the key back, as another value and without
  a deadline, when for clients it is gone. */
  lemma LateReplayRevives(key: Key, x: Text, y: Text)
    ensures var end := Run(TimedList(key, x) + [Request(Write(key, RPush([y])), 0.0, 0.0)]);
      && Purge(end.db, key, 2.0) == EMPTY_DB
      && Replay(end.log, 2.0) == Some(Db(map[key := ListValue([y])], map[]))
  {
    var push := Write(key, RPush([y]));
    var before := Run(TimedList(key, x));
    TimedListRuns(key, x);
    RunSnoc(TimedList(key, x), Request(push, 0.0, 0.0));
    var end := Run(TimedList(key, x) + [Request(push, 0.0, 0.0)]);
    assert [x] + [y] == [x, y] && [] + [y] == [y];
    assert end == Served(before.db.(data := map[key := ListValue([x, y])]), before.log + [push]);
    ReplayOne(EMPTY_DB, push, 2.0);
    ReplaySteps(EMPTY_DB, before.log, EMPTY_DB, [push], Some(Db(map[key := ListValue([y])], map[])), 2.0);
  }

  /** And a later LSET stops the replay with an error. */
  lemma LateReplayAborts(key: Key, x: Text, y: Text)
    ensures Replay(Run(TimedList(key, x) + [Request(Write(key, LSet(0, y)), 0.0, 0.0)]).log, 2.0) == None
  {
    var set' := Write(key, LSet(0, y));
    var before := Run(TimedList(key, x));
    TimedListRuns(key, x);
    RunSnoc(TimedList(key, x), Request(set', 0.0, 0.0));
    assert [x][0 := y] == [y];
    assert Run(TimedList(key, x) + [Request(set', 0.0, 0.0)]).log == before.log + [set'];
    ReplayOne(EMPTY_DB, set', 2.0);
    ReplaySteps(EMPTY_DB, before.log, EMPTY_DB, [set'], None, 2.0);
  }

  /** SET, then EXPIRE with no time left: for clients the key is gone, and every replay has it. */
  lemma ExpireUnrecorded(key: Key, value: Bytes, clock: real)
    ensures var end := Run([Request(Set(key, value, []), 0.0, 0.0)] + [Request(Expire(key, 0), 0.0, 0.0)]);
      end.db == EMPTY_DB && Replay(end.log, clock) == Some(Db(map[key := StringValue(value)], map[]))
  {
    hide Handle, Record, ReplayFrom, Run;
    var set', expire := Set(key, value, []), Expire(key, 0);
    var first := Request(set', 0.0, 0.0);
    NothingYet(clock);
    StringSetAt(key, value, 0.0);
    StringSetAt(key, value, clock);
    RunSnoc([], first);
    assert [] + [first] == [first];
    RunSnoc([first], Request(expire, 0.0, 0.0));
    StringExpired(key, value);
    ReplayOne(EMPTY_DB, set', clock);
    assert [] + ([] + [set']) + ([] + []) == [set'];
  }

  lemma StringSetAt(key: Key, value: Bytes, t: real)
    ensures var set', db := Set(key, value, []), Db(map[key := StringValue(value)], map[]);
      Handle(EMPTY_DB, set', t) == Handled(db, Number(0), []) && Record(db, set', Number(0), t) == Recorded(db, [set'])
  {
    assert TtlOf([], NoTtl) == NoTtl;
    assert [] + ([Set(key, value, [])] + []) == [Set(key, value, [])];
  }

  lemma StringExpired(key: Key, value: Bytes)
    ensures var db, expire := Db(map[key := StringValue(value)], map[]), Expire(key, 0);
      && Handle(db, expire, 0.0) == Handled(EMPTY_DB, Number(1), [])
      && Record(EMPTY_DB, expire, Number(1), 0.0) == Recorded(EMPTY_DB, [])
  {
  }
}
