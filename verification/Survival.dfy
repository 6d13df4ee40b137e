/** What a restart brings back, said of values and deadlines alone: not in the terms the log
rounds deadlines by. */
module Survival {
  import opened Ordering
  import opened Commands
  import opened Aof

  /** Whole milliseconds for a time in seconds: the fraction is cut off. */
  predicate WithinMs(d: real, ms: int) {
    if d >= 0.0 then 0.0 <= d * 1000.0 - ms as real < 1.0 else -1.0 < d * 1000.0 - ms as real <= 0.0
  }

  /** The same of a time that was written down in milliseconds and read back. */
  predicate Near(d: real, d': real) {
    if d >= 0.0 then d' <= d < d' + 0.001 else d' - 0.001 < d <= d'
  }

  lemma DeadlineWithinMs(d: real)
    ensures WithinMs(d, DeadlineMs(d))
  {
  }

  lemma RoundedNear(d: real)
    ensures Near(d, Rounded(d))
    ensures d < 0.0 ==> Rounded(d) <= 0.0
  {
    DeadlineWithinMs(d);
  }

  /** The key is there again with its value, and with its deadline if it had one. */
  ghost predicate ComesBack(db: Db, after: Db, k: Key)
    requires k in db.data
  {
    && k in after.data && after.data[k] == db.data[k]
    && (k in db.deadlines <==> k in after.deadlines)
    && (k in db.deadlines ==> Near(db.deadlines[k], after.deadlines[k]))
  }

  /** A keyspace after a restart at `clock`: the keys without a deadline and those with one that is
  a millisecond ahead are there again; those whose deadline has come are not; nothing else is. */
  ghost predicate BroughtBack(db: Db, after: Db, clock: real) {
    && (forall k :: k in db.data && k !in db.deadlines ==> ComesBack(db, after, k))
    && (forall k :: k in db.data && k in db.deadlines && db.deadlines[k] >= clock + 0.001 ==> ComesBack(db, after, k))
    && (forall k :: k in db.deadlines && db.deadlines[k] <= clock && (0.0 <= db.deadlines[k] || 0.0 <= clock) ==> k !in after.data)
    && (forall k :: k in after.data ==> k in db.data && ComesBack(db, after, k))
    && (forall k :: k in after.deadlines ==> k in after.data)
  }

  /** All of it, the deadlines to the millisecond. */
  ghost predicate AllBack(db: Db, after: Db) {
    && after.data == db.data && after.deadlines.Keys == db.deadlines.Keys
    && forall k :: k in db.deadlines ==> Near(db.deadlines[k], after.deadlines[k])
  }

  /** Which keys are stale, but for the millisecond in doubt. */
  lemma StaleMeans(db: Db, k: Key, clock: real)
    requires k in db.deadlines
    ensures db.deadlines[k] >= clock + 0.001 ==> !Stale(db, k, clock)
    ensures db.deadlines[k] <= clock && (0.0 <= db.deadlines[k] || 0.0 <= clock) ==> Stale(db, k, clock)
  {
    hide Rounded;
    RoundedNear(db.deadlines[k]);
  }

  lemma LateIsBack(db: Db, clock: real)
    requires Tidy(db)
    ensures BroughtBack(db, Late(db, clock), clock)
  {
    hide Rounded, Stale;
    var after := Late(db, clock);
    forall k | k in db.deadlines
      ensures Near(db.deadlines[k], Rounded(db.deadlines[k]))
      ensures db.deadlines[k] >= clock + 0.001 ==> !Stale(db, k, clock)
      ensures db.deadlines[k] <= clock && (0.0 <= db.deadlines[k] || 0.0 <= clock) ==> Stale(db, k, clock)
    {
      RoundedNear(db.deadlines[k]);
      StaleMeans(db, k, clock);
    }
    forall k | k in db.data && k !in db.deadlines ensures !Stale(db, k, clock) {
      UntimedNeverStale(db, k, clock);
    }
  }

  lemma UntimedNeverStale(db: Db, k: Key, clock: real)
    requires k !in db.deadlines
    ensures !Stale(db, k, clock)
  {
  }

  lemma RoundedIsAllBack(db: Db)
    ensures AllBack(db, Db(db.data, map k | k in db.deadlines :: Rounded(db.deadlines[k])))
  {
    hide Rounded;
    forall k | k in db.deadlines ensures Near(db.deadlines[k], Rounded(db.deadlines[k])) {
      RoundedNear(db.deadlines[k]);
    }
  }

  // ----- what is recorded -----

  /** Every deadline in these records is that of its key, to the millisecond. */
  ghost predicate DeadlinesRecorded(db: Db, records: seq<Command>) {
    forall i :: 0 <= i < |records| && records[i].PExpireAt? ==>
      records[i].key in db.deadlines && WithinMs(db.deadlines[records[i].key], records[i].milliseconds)
  }

  lemma {:induction false} RecordFinalTimeless(db: Db, keys: seq<Key>, u: real)
    ensures DeadlinesRecorded(EMPTY_DB, RecordFinal(db, keys, u).log)
    decreases |keys|
  {
    if keys != [] {
      RecordFinalTimeless(Purge(db, keys[0], u), keys[1..], u);
    }
  }

  lemma RecordedWithinMs(db: Db, cmd: Command, reply: Reply, u: real)
    ensures var r := Record(db, cmd, reply, u); DeadlinesRecorded(r.db, r.log)
  {
    hide DeadlineMs, WithinMs;
    forall d ensures WithinMs(d, DeadlineMs(d)) {
      DeadlineWithinMs(d);
    }
    if cmd.MSet? {
      RecordFinalTimeless(db, FirstTimes(cmd.pairs), u);
    }
  }
}
