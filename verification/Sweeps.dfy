/** A sweep for keys whose deadline has come: how many it takes. */
module Sweeps {
  import opened Ordering
  import opened Commands
  import opened Aof
  import opened Outcomes
  import opened Marks

  /** What a sweep takes: of the keys whose time has come all, if there are at most twenty deadlines;
  else as many as a sample of twenty must have of them, and while at least a quarter of each sample
  is due, four times that. */
  ghost predicate SweepTakes(db: Db, t: real, removed: nat) {
    var ahead := Ahead(db, t);
    && removed <= 80
    && (|db.deadlines| <= 20 ==> removed + |ahead| == |db.deadlines|)
    && (|db.deadlines| > 20 ==> removed + |ahead| >= 20)
    && (|ahead| <= 15 ==> removed + |ahead| == |db.deadlines| || removed + 4 * |ahead| >= 80)
  }

  /** The keys whose time is still to come. */
  ghost function Ahead(db: Db, t: real): set<Key> {
    set k | k in db.deadlines && db.deadlines[k] > t
  }

  /** After some passes of a sweep of a keyspace whose deadlines belong to keys that are there. */
  ghost predicate Sweeping(db: Db, now: Db, t: real, removed: nat, pass: nat) {
    var ahead := Ahead(db, t);
    && Tidy(now) && Ahead(now, t) == ahead && |now.deadlines| + removed == |db.deadlines| && removed <= 20 * pass
    && (pass > 0 && |db.deadlines| > 20 ==> removed + |ahead| >= 20)
    && (pass > 0 && |db.deadlines| <= 20 ==> removed + |ahead| == |db.deadlines|)
    && (|ahead| <= 15 ==> removed + |ahead| == |db.deadlines| || removed + pass * |ahead| >= 20 * pass)
  }

  lemma SweepingStarts(db: Db, t: real)
    ensures Tidy(db) ==> Sweeping(db, db, t, 0, 0)
  {
  }

  /** One pass more. */
  lemma SweepingMore(db: Db, before: Mark, after: Mark, t: real, removed: nat, pass: nat, sample: set<Key>, more: nat, gone: seq<Key>)
    requires Sweeping(db, before.db, t, removed, pass) && Lost(before, after, gone)
    requires sample <= before.db.deadlines.Keys
    requires if |before.db.deadlines| <= 20 then sample == before.db.deadlines.Keys else |sample| == 20
    requires var expired := ExpiredOf(before.db, sample, t);
      (forall k :: k in gone ==> k in expired) && (forall k :: k in expired ==> k !in after.db.data) && more == |expired|
    ensures Sweeping(db, after.db, t, removed + more, pass + 1) && Ahead(before.db, t) == Ahead(db, t)
    ensures |after.db.deadlines| == |before.db.deadlines| - more
  {
    hide Lost, Ahead;
    var keys, ahead, expired := before.db.deadlines.Keys, Ahead(db, t), ExpiredOf(before.db, sample, t);
    ExpiredIs(before.db, sample, t);
    TidyAfter(before, after, gone);
    ExpiredLeave(before, after, gone, expired, t);
    Counts(keys, sample, ahead);
    PassMore(pass, |ahead|);
  }

  /** The keys of a sample whose time has come. */
  ghost function ExpiredOf(db: Db, sample: set<Key>, t: real): set<Key>
    requires sample <= db.deadlines.Keys
  {
    set k | k in sample && t >= db.deadlines[k]
  }

  lemma ExpiredIs(db: Db, sample: set<Key>, t: real)
    requires sample <= db.deadlines.Keys
    ensures ExpiredOf(db, sample, t) == sample - Ahead(db, t) && Ahead(db, t) <= db.deadlines.Keys
  {
  }

  /** Exactly the expired keys of the sample leave. */
  lemma ExpiredLeave(before: Mark, after: Mark, gone: seq<Key>, expired: set<Key>, t: real)
    requires Tidy(before.db) && Lost(before, after, gone) && expired <= before.db.deadlines.Keys
    requires (forall k :: k in gone ==> k in expired) && (forall k :: k in expired ==> k !in after.db.data)
    requires forall k :: k in expired ==> before.db.deadlines[k] <= t
    ensures after.db.deadlines.Keys == before.db.deadlines.Keys - expired && Ahead(after.db, t) == Ahead(before.db, t)
  {
    hide Lost;
    LostKeeps(before, after, gone);
    TidyAfter(before, after, gone);
    assert forall k :: k in expired ==> k in gone;
  }

  lemma Counts(keys: set<Key>, sample: set<Key>, ahead: set<Key>)
    requires sample <= keys && ahead <= keys
    ensures |keys - (sample - ahead)| == |keys| - |sample - ahead|
    ensures |sample| - |ahead| <= |sample - ahead| <= |sample|
    ensures sample == keys ==> |sample - ahead| + |ahead| == |keys| && keys - (sample - ahead) == ahead
  {
    SplitSize(sample, ahead);
    SplitSize(keys, sample - ahead);
    assert keys * (sample - ahead) == sample - ahead;
    if sample == keys {
      assert sample * ahead == ahead;
    }
  }

  lemma PassMore(pass: nat, n: nat)
    ensures (pass + 1) * n == pass * n + n
  {
  }

  lemma SplitSize(a: set<Key>, b: set<Key>)
    ensures |a - b| + |a * b| == |a| && |a * b| <= |b|
  {
    assert a == (a - b) + (a * b);
    Subset(a * b, b);
  }

  lemma TidyAfter(before: Mark, after: Mark, gone: seq<Key>)
    requires Tidy(before.db) && Lost(before, after, gone)
    ensures Tidy(after.db) && after.db.deadlines.Keys == before.db.deadlines.Keys - KeySet(gone)
  {
    hide DeleteAll;
    DeleteAllIs(before.db, gone);
  }

  lemma SweepingTidy(db: Db, now: Db, t: real, removed: nat, pass: nat)
    ensures Sweeping(db, now, t, removed, pass) ==> now.deadlines.Keys <= now.data.Keys
  {
  }

  lemma NoneAhead(db: Db, t: real)
    requires db.deadlines == map[]
    ensures SweepTakes(db, t, 0)
  {
    assert Ahead(db, t) == {};
  }

  /** No key of the sample is due. */
  lemma NoneExpired(db: Db, now: Db, t: real, removed: nat, pass: nat, sample: set<Key>)
    requires pass < 4 && sample <= now.deadlines.Keys && forall k :: k in sample ==> now.deadlines[k] > t
    requires if |now.deadlines| <= 20 then sample == now.deadlines.Keys else |sample| == 20
    ensures Sweeping(db, now, t, removed, pass) ==> SweepTakes(db, t, removed)
  {
    assert sample <= Ahead(now, t);
    Subset(sample, Ahead(now, t));
    assert sample == now.deadlines.Keys ==> Ahead(now, t) == sample;
  }

  /** Less than a quarter of the sample was due. */
  lemma TooFew(db: Db, before: Db, now: Db, t: real, removed: nat, pass: nat, sample: set<Key>)
    requires 0 < pass <= 4 && sample <= before.deadlines.Keys
    requires if |before.deadlines| <= 20 then sample == before.deadlines.Keys else |sample| == 20
    requires |ExpiredOf(before, sample, t)| * 4 < |sample|
    requires Ahead(before, t) == Ahead(db, t)
    requires |now.deadlines| == |before.deadlines| - |ExpiredOf(before, sample, t)|
    ensures Sweeping(db, now, t, removed, pass) ==> SweepTakes(db, t, removed)
  {
    hide Ahead;
    ExpiredIs(before, sample, t);
    Counts(before.deadlines.Keys, sample, Ahead(db, t));
  }

  lemma LastPass(db: Db, now: Db, t: real, removed: nat, pass: nat)
    ensures pass == 4 && Sweeping(db, now, t, removed, pass) ==> SweepTakes(db, t, removed)
  {
  }

  /** Twenty deadlines, or all if there are no more. */
  ghost predicate IsSample(db: Db, sample: set<Key>) {
    sample <= db.deadlines.Keys && if |db.deadlines| <= 20 then sample == db.deadlines.Keys else |sample| == 20
  }

  lemma ExpiredAreDue(db: Db, sample: set<Key>, t: real)
    requires IsSample(db, sample)
    ensures forall k :: k in ExpiredOf(db, sample, t) ==> Due(db, k, t)
  {
  }

  /** If all were looked at, none that is due is left. */
  lemma SweptAreGone(before: Mark, after: Mark, sample: set<Key>, t: real, gone: seq<Key>)
    requires IsSample(before.db, sample) && Lost(before, after, gone)
    requires forall k :: k in ExpiredOf(before.db, sample, t) ==> k !in after.db.data
    ensures |before.db.deadlines| <= 20 ==> forall k :: k in after.db.data ==> !Due(after.db, k, t)
  {
    hide Lost;
    LostKeeps(before, after, gone);
  }

  lemma SweepingPass(db: Db, before: Mark, after: Mark, t: real, removed: nat, pass: nat, sample: set<Key>, more: nat,
      gone: seq<Key>, stop: bool)
    requires pass < 4 && IsSample(before.db, sample) && Lost(before, after, gone) && more == |gone|
    requires Sweeping(db, before.db, t, removed, pass)
    requires var expired := ExpiredOf(before.db, sample, t);
      && (forall k :: k in gone ==> k in expired) && (forall k :: k in expired ==> k !in after.db.data)
      && (Tidy(before.db) ==> more == |expired|)
      && (stop <==> expired == {} || |expired| * 4 < |sample|)
    ensures if stop then SweepTakes(db, t, removed + more) else Sweeping(db, after.db, t, removed + more, pass + 1)
  {
    hide Lost, Sweeping, SweepTakes, Ahead, ExpiredOf;
    SweepingTidy(db, before.db, t, removed, pass);
    if ExpiredOf(before.db, sample, t) == {} {
      SampleAhead(before.db, sample, t);
      NoneExpired(db, before.db, t, removed, pass, sample);
    } else {
      SweepingMore(db, before, after, t, removed, pass, sample, more, gone);
      if stop {
        TooFew(db, before.db, after.db, t, removed + more, pass + 1, sample);
      }
    }
  }

  lemma SampleAhead(db: Db, sample: set<Key>, t: real)
    requires sample <= db.deadlines.Keys && ExpiredOf(db, sample, t) == {}
    ensures forall k :: k in sample ==> db.deadlines[k] > t
  {
    forall k | k in sample ensures db.deadlines[k] > t {
      assert k !in ExpiredOf(db, sample, t);
    }
  }
}
