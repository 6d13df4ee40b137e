/** The keyspace with its deadlines, memory accounting, eviction and log.

One class stands for the store, the expiry dictionary and the log they write to. Handlers take
the clock reading `t` of their dispatch; ghost results list the keys deleted automatically. */
module DataStores {
  import opened Ordering
  import opened Numbers
  import opened Commands
  import opened Aof
  import opened Accounting
  import opened Outcomes
  import opened LateReplay
  import opened Survival
  import opened Fidelity
  import opened Marks
  import opened WriteSteps
  import opened MSetSteps
  import opened Evictions
  import opened Handlers
  import opened Recency
  import opened Sweeps

  function Max0(n: int): int {
    if n < 0 then 0 else n
  }

  const SAMPLE_SIZE: nat := 20

  const MAX_PASSES: nat := 4

  datatype TtlReply = Missing | Forever | Remaining(seconds: real)

  class DataStore {
    const sizeOf: Sizer
    const maxMemory: int
    const policy: Policy
    var data: map<Key, Value>
    var deadlines: map<Key, real>
    var lastAccess: map<Key, nat>
    var keySizes: map<Key, nat>
    var usedMemory: int
    /** The next access stamp: no two are the same. */
    var tick: nat
    var log: seq<Command>

    ghost function View(): Db
      reads `data, `deadlines
    {
      Db(data, deadlines)
    }

    /** Between operations every key has a stamp of its own and a current size, and the used
    memory is the sum of the sizes. */
    ghost predicate Accounted()
      reads `data, `deadlines, `lastAccess, `keySizes, `usedMemory, `tick
    {
      && lastAccess.Keys == data.Keys
      && keySizes == Sizes(View(), sizeOf)
      && usedMemory == Total(keySizes)
      && Apart(lastAccess)
      && forall k :: k in lastAccess ==> lastAccess[k] < tick
    }

    /** In the middle of a write to `key`: only that key's stamp and size may be out of date. */
    ghost predicate Pending(key: Key)
      reads this
    {
      && key in data
      && lastAccess.Keys + {key} == data.Keys
      && keySizes - {key} == Sizes(View(), sizeOf) - {key}
      && usedMemory == Total(keySizes)
      && Apart(lastAccess)
      && forall k :: k in lastAccess ==> lastAccess[k] < tick
    }

    constructor (sizeOf: Sizer, maxMemory: int, policy: Policy)
      ensures Accounted() && View() == EMPTY_DB && log == []
      ensures this.sizeOf == sizeOf && this.maxMemory == maxMemory && this.policy == policy
    {
      this.sizeOf, this.maxMemory, this.policy := sizeOf, maxMemory, policy;
      data, deadlines, lastAccess, keySizes, usedMemory, tick, log := map[], map[], map[], map[], 0, 0, [];
    }

    /** The same store under another limit. */
    constructor Limited(store: DataStore, maxMemory: int)
      requires store.Accounted()
      ensures Accounted() && Now() == store.Now() && fresh(this)
      ensures sizeOf == store.sizeOf && this.maxMemory == maxMemory && policy == store.policy
    {
      sizeOf, this.maxMemory, policy := store.sizeOf, maxMemory, store.policy;
      data, deadlines, lastAccess, keySizes := store.data, store.deadlines, store.lastAccess, store.keySizes;
      usedMemory, tick, log := store.usedMemory, store.tick, store.log;
    }

    // ----- bookkeeping -----

    ghost function BackupOf(key: Key): Backup
      reads this
    {
      BackupIn(Now(), key)
    }

    method SnapshotKey(key: Key) returns (b: Backup)
      ensures b == BackupOf(key)
    {
      b := Backup(Find(data, key), Find(lastAccess, key));
    }

    method TouchKey(key: Key)
      modifies `lastAccess, `tick
      ensures lastAccess == (if key in data then old(lastAccess)[key := old(tick)] else old(lastAccess))
      ensures tick == old(tick) + 1
    {
      if key in data {
        lastAccess := lastAccess[key := tick];
      }
      tick := tick + 1;
    }

    method SyncMemory(key: Key)
      requires usedMemory == Total(keySizes) && keySizes - {key} == Sizes(View(), sizeOf) - {key}
      modifies `keySizes, `usedMemory
      ensures keySizes == Sizes(View(), sizeOf) && usedMemory == Total(keySizes)
    {
      hide Total, Sizes;
      var previous := if key in keySizes then keySizes[key] else 0;
      TotalUpdate(keySizes, key, 0);
      SizesSynced(keySizes, View(), key, sizeOf);
      if key !in data {
        keySizes := keySizes - {key};
        usedMemory := Max0(usedMemory - previous);
        return;
      }
      var current := sizeOf(key, data[key], key in deadlines);
      TotalUpdate(keySizes, key, current);
      keySizes := keySizes[key := current];
      usedMemory := usedMemory + current - previous;
    }

    method RestoreKey(key: Key, b: Backup)
      requires Accounted()
      requires b.value.Some? <==> b.access.Some?
      requires b.access.Some? ==> b.access.value < tick
      requires Unused(lastAccess, key, b.access)
      modifies this
      ensures Accounted() && tick == old(tick) && log == old(log)
      ensures View() == Db(Put(old(data), key, b.value), old(deadlines))
      ensures lastAccess == Put(old(lastAccess), key, b.access)
    {
      hide Total, Sizes, SameBut, Apart, Unused;
      PutApart(lastAccess, key, b.access);
      var current := if key in keySizes then keySizes[key] else 0;
      TotalUpdate(keySizes, key, 0);
      keySizes := keySizes - {key};
      usedMemory := Max0(usedMemory - current);
      PutSameBut(View(), key, b.value);
      SizesSameBut(View(), Db(Put(data, key, b.value), deadlines), key, sizeOf);
      if b.value.None? {
        data := data - {key};
        lastAccess := lastAccess - {key};
      } else {
        data := data[key := b.value.value];
        lastAccess := Put(lastAccess, key, b.access);
        assert keySizes - {key} == keySizes;
        SyncMemory(key);
      }
    }

    // ----- deletion -----

    /** `auto`: the reason is expiry or eviction, so the log gets a record. */
    method Delete(key: Key, auto: bool) returns (n: nat)
      requires Accounted()
      modifies this
      ensures Accounted() && tick == old(tick)
      ensures View() == Aof.Delete(old(View()), key)
      ensures log == old(log) + if auto && key in old(data) then [Del([key])] else []
      ensures lastAccess == old(lastAccess) - {key}
      ensures n == if key in old(data) then 1 else 0
      ensures n == 0 ==> Now() == old(Now())
    {
      hide Total, Sizes, Max0;
      if key in data {
        BooksWithout(View(), key, sizeOf);
        var removed := if key in keySizes then keySizes[key] else 0;
        keySizes := keySizes - {key};
        data := data - {key};
        lastAccess := lastAccess - {key};
        usedMemory := Max0(usedMemory - removed);
        deadlines := deadlines - {key};
        assert View() == Aof.Delete(old(View()), key) && Accounted();
        if auto {
          log := log + [Del([key])];
        }
        n := 1;
      } else {
        n := 0;
      }
    }

    ghost function Now(): Mark
      reads this
    {
      Mark(View(), lastAccess, tick, log)
    }

    // ----- active expiry -----

    method DeleteExpired(expired: set<Key>) returns (removed: nat, ghost gone: seq<Key>)
      requires Accounted()
      modifies this
      ensures Accounted() && Lost(old(Now()), Now(), gone) && removed == |gone|
      ensures forall k :: k in gone ==> k in expired
      ensures forall k :: k in expired ==> k !in data
      ensures removed <= |expired| && (expired <= old(data).Keys ==> removed == |expired|)
    {
      hide Accounted, Lost;
      removed, gone := 0, [];
      LostNothing(Now());
      var todo := expired;
      while todo != {}
        invariant todo <= expired
        invariant Accounted() && Lost(old(Now()), Now(), gone) && removed == |gone|
        invariant forall k :: k in gone ==> k in expired
        invariant forall k :: k in expired - todo ==> k !in data
        invariant removed + |todo| <= |expired|
        invariant expired <= old(data).Keys ==> todo <= data.Keys && removed + |todo| == |expired|
        decreases |todo|
      {
        var key :| key in todo;
        ghost var before := Now();
        var n := Delete(key, true);
        if n == 1 {
          LostOne(before, Now(), key);
          LostMore(old(Now()), before, Now(), gone, [key]);
          removed, gone := removed + n, gone + [key];
        }
        todo := todo - {key};
      }
    }

    /** One pass over a sample. The loop stops when none of the sample is due, or less than a quarter
    of it. */
    method SweepPass(t: real) returns (removed: nat, stop: bool, ghost sample: set<Key>, ghost gone: seq<Key>)
      requires Accounted()
      modifies this
      ensures Accounted() && Lost(old(Now()), Now(), gone) && removed == |gone|
      ensures IsSample(old(View()), sample)
      ensures forall k :: k in gone ==> k in ExpiredOf(old(View()), sample, t)
      ensures forall k :: k in ExpiredOf(old(View()), sample, t) ==> k !in data
      ensures Tidy(old(View())) ==> removed == |ExpiredOf(old(View()), sample, t)|
      ensures stop <==> ExpiredOf(old(View()), sample, t) == {} || |ExpiredOf(old(View()), sample, t)| * 4 < |sample|
    {
      hide Accounted, Lost;
      LostNothing(Now());
      removed, gone, stop := 0, [], true;
      var keys := deadlines.Keys;
      var some := keys;
      if |keys| > SAMPLE_SIZE {
        ghost var any := SubsetOfSize(keys, SAMPLE_SIZE);
        some :| some <= keys && |some| == SAMPLE_SIZE;
      }
      sample := some;
      var expired := set k | k in some && t >= deadlines[k];
      assert expired == ExpiredOf(View(), sample, t);
      if expired == {} {
        return;
      }
      stop := |expired| * 4 < |some|;
      removed, gone := DeleteExpired(expired);
    }

    method EvictExpiredSamples(t: real) returns (removed: nat, ghost gone: seq<Key>)
      requires Accounted()
      modifies this
      ensures Accounted() && Lost(old(Now()), Now(), gone) && removed == |gone|
      ensures forall k :: k in gone ==> Due(old(View()), k, t)
      ensures |old(deadlines)| <= SAMPLE_SIZE ==> forall k :: k in data ==> !Due(View(), k, t)
      ensures Tidy(old(View())) ==> SweepTakes(old(View()), t, removed)
    {
      hide Accounted, Lost, Sweeping, SweepTakes, ExpiredOf, IsSample;
      ghost var found, db := Now(), View();
      removed, gone := 0, [];
      LostNothing(found);
      SweepingStarts(db, t);
      if deadlines == map[] {
        NoneAhead(db, t);
        return;
      }
      var pass := 0;
      while pass < MAX_PASSES
        invariant Accounted() && Lost(found, Now(), gone) && removed == |gone|
        invariant forall k :: k in gone ==> Due(db, k, t)
        invariant pass > 0 && |old(deadlines)| <= SAMPLE_SIZE ==> forall k :: k in data ==> !Due(View(), k, t)
        invariant pass <= MAX_PASSES && (Tidy(db) ==> Sweeping(db, View(), t, removed, pass))
      {
        LostKeeps(found, Now(), gone);
        ghost var before := Now();
        var n, stop;
        ghost var sample, more;
        n, stop, sample, more := SweepPass(t);
        LostMore(found, before, Now(), gone, more);
        ExpiredAreDue(before.db, sample, t);
        SweptAreGone(before, Now(), sample, t, more);
        if Tidy(db) {
          SweepingPass(db, before, Now(), t, removed, pass, sample, n, more, stop);
        }
        removed, gone, pass := removed + n, gone + more, pass + 1;
        if stop {
          break;
        }
      }
      LastPass(db, View(), t, removed, pass);
    }

    // ----- eviction -----

    method SelectCandidate() returns (c: Option<Key>)
      requires lastAccess.Keys == data.Keys
      ensures c.Some? ==> c.value in data
      ensures policy.NoEviction? ==> c.None?
      ensures policy.AllKeysRandom? || policy.AllKeysLru? ==> (c.None? <==> data == map[])
      ensures policy.AllKeysLru? && c.Some? ==> forall k :: k in lastAccess ==> lastAccess[c.value] <= lastAccess[k]
      ensures policy.VolatileTtl? ==> (c.None? <==> deadlines.Keys * data.Keys == {})
      ensures policy.VolatileTtl? && c.Some? ==> c.value in deadlines
      ensures policy.VolatileTtl? && c.Some? ==> forall k :: k in deadlines && k in data ==> Sooner(deadlines[c.value], deadlines[k])
      ensures policy.VolatileTtl? && c.Some? ==> forall k :: k in deadlines && k in data ==>
        deadlines[k] == 0.0 || (deadlines[c.value] != 0.0 && deadlines[c.value] <= deadlines[k])
    {
      if data == map[] {
        return None;
      }
      match policy
      case AllKeysRandom =>
        var key :| key in data;
        c := Some(key);
      case AllKeysLru =>
        ghost var oldest := OldestExists(lastAccess);
        var key :| key in data && forall k :: k in data ==> lastAccess[key] <= lastAccess[k];
        c := Some(key);
      case VolatileTtl =>
        var candidates := set k | k in deadlines && k in data;
        if candidates == {} {
          assert deadlines.Keys * data.Keys == candidates;
          return None;
        }
        ghost var soonest := SoonestExists(deadlines, candidates);
        var key :| key in candidates && forall k :: k in candidates ==> Sooner(deadlines[key], deadlines[k]);
        c := Some(key);
        assert key in deadlines.Keys * data.Keys;
      case NoEviction =>
        c := None;
    }

    /** Why the victims so far had to go, and why they and no others. */
    ghost predicate Evicting(start: Mark, victims: seq<Key>, current: Option<Key>) {
      && (policy.AllKeysLru? ==> OldestFirst(start.stamps, victims, 0))
      && (policy.VolatileTtl? ==> SoonestFirst(start.db, victims, 0))
      && AllNeeded(start.db, sizeOf, maxMemory, victims, 0)
      && (policy.AllKeysLru? && current.Some? && Newest(start.stamps, current.value) ==> current.value !in victims)
    }

    lemma EvictingStarts(start: Mark, current: Option<Key>)
      ensures Evicting(start, [], current)
    {
    }

    lemma EvictingMore(start: Mark, now: Mark, victims: seq<Key>, current: Option<Key>, key: Key)
      requires Lost(start, now, victims) && Evicting(start, victims, current) && Total(Sizes(now.db, sizeOf)) > maxMemory
      requires now.stamps.Keys == now.db.data.Keys && key in now.db.data
      requires policy.AllKeysLru? ==> forall k :: k in now.stamps ==> now.stamps[key] <= now.stamps[k]
      requires policy.VolatileTtl? ==> key in now.db.deadlines
      requires policy.VolatileTtl? ==> forall k :: k in now.db.deadlines && k in now.db.data ==>
        Sooner(now.db.deadlines[key], now.db.deadlines[k])
      requires current.Some? ==> current.value in start.db.data && Sizes(start.db, sizeOf)[current.value] <= maxMemory
      ensures Evicting(start, victims + [key], current)
    {
      hide Lost, Total, Sizes, OldestFirst, SoonestFirst, AllNeeded, Newest, Sooner;
      OneMoreNeeded(start, now, sizeOf, maxMemory, victims, key);
      if policy.AllKeysLru? {
        OneMoreOldest(start, now, victims, key);
        if current.Some? && Newest(start.stamps, current.value) {
          NewestSpared(start, now, sizeOf, maxMemory, victims, current.value, key);
        }
      }
      if policy.VolatileTtl? {
        OneMoreSoonest(start, now, victims, key);
      }
    }

    /** The eviction loop. `current`, the key being written, fits on its own. */
    method Evict(ghost current: Option<Key>) returns (ok: bool, ghost victims: seq<Key>)
      requires Accounted()
      requires current.Some? ==> current.value in data && keySizes[current.value] <= maxMemory
      requires maxMemory > 0
      modifies this
      ensures Accounted() && Lost(old(Now()), Now(), victims)
      ensures ok ==> usedMemory <= maxMemory
      ensures policy.AllKeysLru? ==> ok && OldestFirst(old(lastAccess), victims, 0)
      ensures policy.AllKeysRandom? ==> ok
      ensures policy.VolatileTtl? ==> SoonestFirst(old(View()), victims, 0) && (ok || deadlines.Keys * data.Keys == {})
      ensures AllNeeded(old(View()), sizeOf, maxMemory, victims, 0)
      ensures policy.AllKeysLru? && current.Some? && Newest(old(lastAccess), current.value) ==> current.value !in victims
    {
      hide Lost, Total, Sizes, DeleteAll, OldestFirst, AllNeeded, Newest, SoonestFirst, Sooner;
      victims := [];
      ghost var start := Now();
      LostNothing(start);
      EvictingStarts(start, current);
      while usedMemory > maxMemory
        invariant Accounted() && Lost(start, Now(), victims) && Evicting(start, victims, current)
        decreases |data|
      {
        LostKeeps(start, Now(), victims);
        var candidate := SelectCandidate();
        if candidate.None? {
          if data == map[] {
            EmptyTotal(View(), sizeOf);
          }
          return false, victims;
        }
        var key := candidate.value;
        ghost var before := Now();
        EvictingMore(start, before, victims, current, key);
        var n := Delete(key, true);
        LostOne(before, Now(), key);
        LostMore(start, before, Now(), victims, [key]);
        victims := victims + [key];
      }
      ok := true;
    }

    /** What the limit does to a key just written, when it is known what a sweep takes: too large
    on its own it is refused at once; else every due key is swept, this one among them, and with
    noeviction that has to be enough. */
    ghost predicate Swept(start: Mark, key: Key, t: real, gone: seq<Key>, swept: nat, ok: bool) {
      maxMemory > 0 && Sweepable(start.db, t) && key in start.db.data ==>
        if sizeOf(key, start.db.data[key], key in start.db.deadlines) > maxMemory then gone == [] && !ok
        else
          && swept <= |gone| && DeleteAll(start.db, gone[..swept]) == Alive(start.db, t)
          && (policy.NoEviction? ==> swept == |gone| && (ok <==> Total(Sizes(Alive(start.db, t), sizeOf)) <= maxMemory))
    }

    method EnforceMaxMemory(current: Option<Key>, t: real) returns (ok: bool, ghost gone: seq<Key>, ghost swept: nat)
      requires Accounted()
      modifies this
      ensures Accounted() && Lost(old(Now()), Now(), gone)
      ensures Justified(old(Now()), sizeOf, maxMemory, policy, t, gone, swept)
      ensures maxMemory <= 0 ==> ok && gone == []
      ensures maxMemory > 0 && ok ==> usedMemory <= maxMemory
      ensures maxMemory > 0 && policy.NoEviction? ==> (ok <==> usedMemory <= maxMemory)
      ensures old(usedMemory) <= maxMemory ==> ok && swept == |gone|
      ensures (policy.AllKeysLru? || policy.AllKeysRandom?) && !ok ==>
        gone == [] && current.Some? && current.value in data && keySizes[current.value] > maxMemory
      ensures maxMemory > 0 && ok && current.Some? && current.value in old(keySizes) ==> old(keySizes)[current.value] <= maxMemory
      ensures maxMemory > 0 && Tidy(old(View())) && (gone != [] || ok || current.None?) ==> SweepTakes(old(View()), t, swept)
      ensures policy.VolatileTtl? && !ok ==>
        || (gone == [] && current.Some? && current.value in data && keySizes[current.value] > maxMemory)
        || deadlines.Keys * data.Keys == {}
      ensures policy.AllKeysLru? && current.Some? && Newest(old(lastAccess), current.value) && !Due(old(View()), current.value, t)
        ==> current.value !in gone
      ensures maxMemory > 0 && current.None? && Sweepable(old(View()), t) ==>
        (ok && (forall k :: k in gone ==> k !in Alive(old(View()), t).data) <==>
         Total(Sizes(Alive(old(View()), t), sizeOf)) <= maxMemory)
      ensures current.Some? ==> Swept(old(Now()), current.value, t, gone, swept, ok)
    {
      hide Lost, Total, Sizes, DeleteAll, Oldest, AllNeeded, Newest, Justified, Alive, Swept, Sweepable, Accounted, NoneDue, SweepTakes;
      gone, swept := [], 0;
      ghost var start := Now();
      SizesFollow();
      LostNothing(start);
      JustifiedSweep(start, sizeOf, maxMemory, policy, t, []);
      if maxMemory <= 0 {
        SweptNothing(start, t);
        return true, gone, swept;
      }
      if current.Some? {
        FitsInTotal(View(), sizeOf, current.value);
        SizeOfKeyThere(View(), sizeOf, current.value);
        if current.value in keySizes && keySizes[current.value] > maxMemory {
          SweptTooLarge(start, current.value, t);
          return false, gone, swept;
        }
      }
      ghost var n;
      n, gone := EvictExpiredSamples(t);
      swept := |gone|;
      SizesFollow();
      SweepEnds(start, Now(), t, gone);
      if usedMemory <= maxMemory {
        if current.Some? {
          SweptRest(start, current.value, t, gone, swept, true);
        }
        return true, gone, swept;
      }
      if policy.NoEviction? {
        if current.Some? {
          SweptRest(start, current.value, t, gone, swept, false);
        }
        return false, gone, swept;
      }
      ok, gone := EvictAfterSweep(current, t, start, gone);
      SizesFollow();
      if current.Some? {
        SweptRest(start, current.value, t, gone, swept, ok);
      }
    }

    /** The second half: there is still too much. */
    method EvictAfterSweep(current: Option<Key>, t: real, ghost start: Mark, ghost sweep: seq<Key>)
      returns (ok: bool, ghost gone: seq<Key>)
      requires Accounted() && Lost(start, Now(), sweep) && forall k :: k in sweep ==> Due(start.db, k, t)
      requires maxMemory > 0 && usedMemory > maxMemory && !policy.NoEviction?
      requires current.Some? && current.value in data ==> keySizes[current.value] <= maxMemory
      modifies this
      ensures Accounted() && Lost(start, Now(), gone) && |sweep| <= |gone| && gone[..|sweep|] == sweep
      ensures Justified(start, sizeOf, maxMemory, policy, t, gone, |sweep|)
      ensures (ok ==> usedMemory <= maxMemory) && (policy.AllKeysLru? || policy.AllKeysRandom? ==> ok)
      ensures ok ==> exists k :: k in gone && k in old(data)
      ensures policy.VolatileTtl? && !ok ==> deadlines.Keys * data.Keys == {}
      ensures policy.AllKeysLru? && current.Some? && Newest(start.stamps, current.value) && !Due(start.db, current.value, t)
        ==> current.value !in gone
    {
      hide Lost, Total, Sizes, DeleteAll, Oldest, AllNeeded, Newest, Justified;
      ghost var before := Now();
      if current.Some? && Newest(start.stamps, current.value) && !Due(start.db, current.value, t) {
        NewestKept(start, before, sweep, current.value);
      }
      ghost var written := if current.Some? && current.value in data then current else None;
      ghost var victims;
      ok, victims := Evict(written);
      LostSome(before, Now(), victims);
      LostMore(start, before, Now(), sweep, victims);
      JustifiedEvictions(start, before, sizeOf, maxMemory, policy, t, sweep, victims);
      gone := sweep + victims;
    }

    /** What the sweep has done. */
    lemma SweepEnds(start: Mark, mid: Mark, t: real, gone: seq<Key>)
      requires Lost(start, mid, gone) && forall k :: k in gone ==> Due(start.db, k, t)
      requires |start.db.deadlines| <= SAMPLE_SIZE ==> forall k :: k in mid.db.data ==> !Due(mid.db, k, t)
      ensures Justified(start, sizeOf, maxMemory, policy, t, gone, |gone|)
      ensures Total(Sizes(mid.db, sizeOf)) <= Total(Sizes(start.db, sizeOf))
      ensures forall k :: k in mid.db.data ==>
        k in start.db.data && k in Sizes(mid.db, sizeOf) && Sizes(mid.db, sizeOf)[k] == Sizes(start.db, sizeOf)[k]
      ensures gone[..|gone|] == gone
      ensures Sweepable(start.db, t) ==> mid.db == Alive(start.db, t) == DeleteAll(start.db, gone)
      ensures Sweepable(start.db, t) ==> forall k :: k in gone ==> k !in mid.db.data
    {
      hide Lost, Total, Sizes, DeleteAll, Justified, Alive;
      JustifiedSweep(start, sizeOf, maxMemory, policy, t, gone);
      SweepShrinks(start, mid, sizeOf, gone);
      StillNoneDue(start, mid, gone, t);
      if Sweepable(start.db, t) {
        SweptIsAlive(start, mid, t, gone);
        LostDb(start, mid, gone);
      }
    }

    lemma SweptNothing(start: Mark, t: real)
      requires maxMemory <= 0
      ensures forall key :: Swept(start, key, t, [], 0, true)
    {
    }

    lemma SweptTooLarge(start: Mark, key: Key, t: real)
      requires key in start.db.data && sizeOf(key, start.db.data[key], key in start.db.deadlines) > maxMemory
      ensures Swept(start, key, t, [], 0, false)
    {
    }

    lemma SweptRest(start: Mark, key: Key, t: real, gone: seq<Key>, swept: nat, ok: bool)
      requires key in start.db.data ==> sizeOf(key, start.db.data[key], key in start.db.deadlines) <= maxMemory
      requires swept <= |gone| && (Sweepable(start.db, t) ==> DeleteAll(start.db, gone[..swept]) == Alive(start.db, t))
      requires policy.NoEviction? ==> swept == |gone|
      requires policy.NoEviction? && Sweepable(start.db, t) ==> (ok <==> Total(Sizes(Alive(start.db, t), sizeOf)) <= maxMemory)
      ensures Swept(start, key, t, gone, swept, ok)
    {
    }

    /** The end of every write to `key`: enforce the limit, or put the key back. */
    method FinalizeMutation(key: Key, b: Backup, t: real) returns (ok: bool, ghost gone: seq<Key>, ghost swept: nat)
      requires Pending(key)
      requires b.value.Some? <==> b.access.Some?
      requires b.access.Some? ==> b.access.value < tick
      requires Unused(lastAccess, key, b.access)
      modifies this
      ensures Accounted() && tick == old(tick) + 1
      ensures var start := Written(old(Now()), key, old(data[key]));
        && Justified(start, sizeOf, maxMemory, policy, t, gone, swept)
        && (ok ==> Lost(start, Now(), gone))
        && (!ok ==> exists mid :: Lost(start, mid, gone) && Now() == Restored(mid, key, b))
        && (maxMemory <= 0 ==> ok && gone == [])
        && (maxMemory > 0 && ok ==> usedMemory <= maxMemory && sizeOf(key, old(data[key]), key in old(deadlines)) <= maxMemory)
        && (Total(Sizes(start.db, sizeOf)) <= maxMemory ==> ok)
        && ((policy.AllKeysLru? || policy.AllKeysRandom?) && !ok ==>
              gone == [] && sizeOf(key, old(data[key]), key in old(deadlines)) > maxMemory)
        && ((policy.AllKeysLru? || policy.NoEviction?) && !Due(start.db, key, t) ==> key !in gone)
        && Swept(start, key, t, gone, swept, ok)
    {
      hide Lost, Total, Sizes, Justified, Swept, Unused, NoneNewer;
      ghost var start := Written(Now(), key, data[key]);
      if key in data {
        TouchKey(key);
        SyncMemory(key);
      }
      assert Now() == start;
      NewestWritten(old(Now()), key, data[key]);
      SizeOfKey(start.db, sizeOf, key);
      ok, gone, swept := EnforceMaxMemory(Some(key), t);
      LostTick(start, Now(), gone);
      if policy.NoEviction? {
        SweptAreDue(start, sizeOf, maxMemory, policy, t, gone, swept);
      }
      if !ok {
        ghost var mid := Now();
        WrittenNoneNewer(old(Now()), key, old(data[key]), mid, gone, b);
        StillUnused(old(lastAccess), lastAccess, key, b.access);
        RestoreKey(key, b);
      }
    }

    // ----- deadlines -----

    method SetExpiryAt(key: Key, at: real)
      requires Accounted()
      modifies `deadlines, `keySizes, `usedMemory
      ensures Accounted() && deadlines == old(deadlines)[key := at]
    {
      hide Total, Sizes;
      SizesSameBut(View(), Db(data, deadlines[key := at]), key, sizeOf);
      deadlines := deadlines[key := at];
      SyncMemory(key);
    }

    method RemoveExpiry(key: Key)
      requires Accounted()
      modifies `deadlines, `keySizes, `usedMemory
      ensures Accounted() && deadlines == old(deadlines) - {key}
    {
      hide Total, Sizes;
      SizesSameBut(View(), Db(data, deadlines - {key}), key, sizeOf);
      deadlines := deadlines - {key};
      SyncMemory(key);
    }

    method PurgeIfExpired(key: Key, t: real)
      requires Accounted()
      modifies this
      ensures Accounted() && tick == old(tick)
      ensures View() == Purge(old(View()), key, t) && log == old(log) + PurgeLog(old(View()), key, t)
      ensures lastAccess == if key in data then old(lastAccess) else old(lastAccess) - {key}
      ensures !(Due(old(View()), key, t) && key in old(data)) ==> Now() == old(Now())
    {
      if key in deadlines && t >= deadlines[key] {
        var n := Delete(key, true);
      }
    }

    /** Also the first half of `get` and of `get_type`. */
    method Exists(key: Key, t: real) returns (r: bool)
      requires Accounted()
      modifies this
      ensures Accounted()
      ensures View() == Purge(old(View()), key, t) && log == old(log) + PurgeLog(old(View()), key, t)
      ensures r <==> key in data
      ensures lastAccess == if r then old(lastAccess)[key := old(tick)] else old(lastAccess) - {key}
      ensures tick == old(tick) + 1
    {
      PurgeIfExpired(key, t);
      TouchKey(key);
      r := key in data;
    }

    // ----- writes -----

    /** A new value in place, and the end of the write. */
    method Overwrite(key: Key, v: Value, b: Backup, t: real) returns (ok: bool, ghost gone: seq<Key>, ghost swept: nat)
      requires Accounted()
      requires b.value.Some? <==> b.access.Some?
      requires b.access.Some? ==> b.access.value < tick
      requires Unused(lastAccess, key, b.access)
      modifies this
      ensures Accounted() && tick == old(tick) + 1
      ensures var start := Written(old(Now()), key, v);
        && Justified(start, sizeOf, maxMemory, policy, t, gone, swept)
        && (ok ==> Lost(start, Now(), gone))
        && (!ok ==> exists mid :: Lost(start, mid, gone) && Now() == Restored(mid, key, b))
        && (maxMemory <= 0 ==> ok && gone == [])
        && (maxMemory > 0 && ok ==> usedMemory <= maxMemory && sizeOf(key, v, key in old(deadlines)) <= maxMemory)
        && (Total(Sizes(start.db, sizeOf)) <= maxMemory ==> ok)
        && ((policy.AllKeysLru? || policy.AllKeysRandom?) && !ok ==>
              gone == [] && sizeOf(key, v, key in old(deadlines)) > maxMemory)
        && ((policy.AllKeysLru? || policy.NoEviction?) && !Due(start.db, key, t) ==> key !in gone)
        && Swept(start, key, t, gone, swept, ok)
    {
      hide Lost, Total, Sizes, Justified, Swept;
      ghost var before := Now();
      PutSameBut(View(), key, Some(v));
      SizesSameBut(View(), Db(data[key := v], deadlines), key, sizeOf);
      data := data[key := v];
      assert Written(Now(), key, data[key]) == Written(before, key, v);
      ok, gone, swept := FinalizeMutation(key, b, t);
    }

    method StoreSet(key: Key, v: Value, t: real) returns (ok: bool, ghost gone: seq<Key>, ghost swept: nat)
      requires Accounted()
      modifies this
      ensures Accounted()
      ensures var start := Written(old(Now()), key, v);
        && Justified(start, sizeOf, maxMemory, policy, t, gone, swept)
        && (ok ==> Lost(start, Now(), gone))
        && (!ok ==> exists mid :: Lost(start, mid, gone) && Now() == Restored(mid, key, old(BackupOf(key))))
        && (maxMemory <= 0 ==> ok && gone == [])
        && (maxMemory > 0 && ok ==> usedMemory <= maxMemory && sizeOf(key, v, key in old(deadlines)) <= maxMemory)
        && ((policy.AllKeysLru? || policy.AllKeysRandom?) && !ok ==>
              gone == [] && sizeOf(key, v, key in old(deadlines)) > maxMemory)
        && ((policy.AllKeysLru? || policy.NoEviction?) && !Due(start.db, key, t) ==> key !in gone)
        && Swept(start, key, t, gone, swept, ok)
    {
      hide Lost, Total, Sizes, Justified, Swept;
      var b := SnapshotKey(key);
      ok, gone, swept := Overwrite(key, v, b, t);
    }

    // ----- handlers -----

    /** The option loop of SET. */
    static method ReadOptions(options: seq<SetOption>) returns (ttl: Ttl)
      ensures ttl == TtlOf(options, NoTtl) && Asks(options, ttl)
    {
      hide Asks;
      TtlAsked(options);
      ttl := NoTtl;
      var index := 0;
      while index < |options|
        invariant index <= |options| && !ttl.BadOption?
        invariant TtlOf(options, NoTtl) == TtlOf(options[index..], ttl)
      {
        assert options[index..][1..] == options[index + 1..] && options[index..][0] == options[index];
        var option := options[index];
        index := index + 1;
        match option
        case EX(seconds) =>
          if seconds <= 0 {
            return BadOption;
          }
          ttl := Seconds(seconds as real);
        case PX(milliseconds) =>
          if milliseconds <= 0 {
            return BadOption;
          }
          ttl := Seconds(milliseconds as real / 1000.0);
        case _ =>
          return BadOption;
      }
    }

    /** The string does not fit under the key even with everything else evicted, with or without
    a deadline. */
    ghost predicate TooBig(key: Key, value: Bytes) {
      exists timed :: sizeOf(key, StringValue(value), timed) > maxMemory
    }

    /** What there is room for. */
    function Memory(): Room {
      Room(sizeOf, maxMemory, policy)
    }

    ghost predicate CanFit(key: Key, value: Bytes) {
      exists timed :: sizeOf(key, StringValue(value), timed) <= maxMemory
    }

    method CmdSet(key: Key, value: Bytes, options: seq<SetOption>, t: real) returns (reply: Reply, ghost gone: seq<Key>)
      requires Accounted()
      modifies this
      ensures Accounted() && log == old(log) + Dels(gone)
      ensures key !in gone ==> Outcome(old(View()), Set(key, value, options), t, gone, Handled(View(), reply, Dels(gone)))
      ensures maxMemory <= 0 ==> gone == [] && reply == Handle(old(View()), Set(key, value, options), t).reply
      ensures (policy.AllKeysLru? || policy.NoEviction?) && !Due(old(View()), key, t) ==> key !in gone
      ensures var ttl := TtlOf(options, NoTtl);
        if ttl.BadOption? then reply == Error && View() == old(View())
        else View() == SetEnds(old(View()), key, value, ttl, t, gone, reply)
      ensures (policy.AllKeysLru? || policy.AllKeysRandom?) && reply.Error? && !TtlOf(options, NoTtl).BadOption? ==> TooBig(key, value)
      ensures Predictable(old(View()), t) && !TtlOf(options, NoTtl).BadOption? ==>
        && SetSweeps(old(View()), key, value, t, gone, reply, Memory())
        && (Tidy(View()) <==> !LeavesDeadline(old(View()), key, value, TtlOf(options, NoTtl), t, Memory()))
      ensures reply in {Error, Number(0)} && (TtlOf(options, NoTtl).BadOption? ==> gone == [])
      ensures Tidy(old(View())) && key !in gone ==> SetMakes(old(View()), key, value, options, t, gone, reply, View())
      ensures Used(old(Now()), Now(), if reply.Error? then [] else [key])
      ensures policy.AllKeysLru? ==> OldestWent(old(Now()), {key}, gone, t)
    {
      hide Accounted, Lost, Justified, Swept, DeleteAll, Outcome, SetSweeps, LeavesDeadline, SetEnds, Predictable, Total, Sizes;
      hide Used, OldestWent, SetMakes;
      gone := [];
      ghost var now := Now();
      NothingWent(now, {key}, t);
      StampsBelow();
      var ttl := ReadOptions(options);
      if ttl.BadOption? {
        SetRefused(View(), key, value, options, t);
        UsedNothing(now);
        OutcomeSets(View(), key, value, options, t, gone, Error, View());
        return Error, gone;
      }
      var ok;
      ghost var swept;
      ok, gone, swept := StoreSet(key, StringValue(value), t);
      if policy.AllKeysLru? {
        WrittenOldestWent(now, key, StringValue(value), sizeOf, maxMemory, policy, t, gone, swept);
      }
      if !ok {
        ghost var mid :| Lost(Written(now, key, StringValue(value)), mid, gone) && Now() == Restored(mid, key, BackupIn(now, key));
        AfterSet(now, key, value, options, t, gone, swept, ok, mid);
        UsedRestored(now, key, StringValue(value), mid, gone);
        return Error, gone;
      }
      ghost var mid := Now();
      AfterSet(now, key, value, options, t, gone, swept, ok, mid);
      UsedWritten(now, key, StringValue(value), mid, gone);
      RemoveExpiry(key);
      if ttl.Seconds? {
        SetExpiryAt(key, t + ttl.s);
      }
      UsedAlike(now, mid, Now(), [key]);
      reply := Number(0);
    }

    lemma OutcomeSets(db: Db, key: Key, value: Bytes, options: seq<SetOption>, t: real, gone: seq<Key>, reply: Reply, after: Db)
      ensures Tidy(db) && key !in gone && Outcome(db, Set(key, value, options), t, gone, Handled(after, reply, Dels(gone))) ==>
        SetMakes(db, key, value, options, t, gone, reply, after)
    {
      hide Outcome, SetMakes;
      if Tidy(db) && key !in gone && Outcome(db, Set(key, value, options), t, gone, Handled(after, reply, Dels(gone))) {
        SetMade(db, key, value, options, t, gone, Handled(after, reply, Dels(gone)));
      }
    }

    /** What a SET leaves, once the value has been stored or put back. */
    lemma AfterSet(now: Mark, key: Key, value: Bytes, options: seq<SetOption>, t: real, gone: seq<Key>, swept: nat, ok: bool, mid: Mark)
      requires !TtlOf(options, NoTtl).BadOption? && Lost(Written(now, key, StringValue(value)), mid, gone)
      requires Swept(Written(now, key, StringValue(value)), key, t, gone, swept, ok)
      requires policy.AllKeysLru? && !ok ==> sizeOf(key, StringValue(value), key in now.db.deadlines) > maxMemory
      requires (policy.AllKeysLru? || policy.NoEviction?) && !Due(now.db, key, t) ==> key !in gone
      ensures var ttl, reply := TtlOf(options, NoTtl), if ok then Number(0) else Error;
        var after := SetEnds(now.db, key, value, ttl, t, gone, reply);
        && after == (if !ok then Db(Put(mid.db.data, key, Find(now.db.data, key)), mid.db.deadlines)
             else Db(mid.db.data, if ttl.Seconds? then (mid.db.deadlines - {key})[key := t + ttl.s] else mid.db.deadlines - {key}))
        && mid.log == now.log + Dels(gone)
        && (key !in gone ==> Outcome(now.db, Set(key, value, options), t, gone, Handled(after, reply, Dels(gone))))
        && (Tidy(now.db) && key !in gone ==> SetMakes(now.db, key, value, options, t, gone, reply, after))
        && (Predictable(now.db, t) ==>
              && SetSweeps(now.db, key, value, t, gone, reply, Memory())
              && (Tidy(after) <==> !LeavesDeadline(now.db, key, value, ttl, t, Memory())))
    {
      hide Lost, DeleteAll, Outcome, SetSweeps, LeavesDeadline, SetEnds, Total, Sizes, Alive, SetMakes;
      var ttl, reply := TtlOf(options, NoTtl), if ok then Number(0) else Error;
      LostDb(Written(now, key, StringValue(value)), mid, gone);
      SetEndsIs(now.db, key, value, ttl, t, gone);
      if key !in gone {
        if ok {
          SetDone(now.db, key, value, options, t, gone, SetEnds(now.db, key, value, ttl, t, gone, reply));
        } else {
          SetFailed(now.db, key, value, options, t, gone, mid.db);
        }
        OutcomeSets(now.db, key, value, options, t, gone, reply, SetEnds(now.db, key, value, ttl, t, gone, reply));
      }
      if Predictable(now.db, t) {
        StillSweepable(now.db, key, StringValue(value), t);
        if sizeOf(key, StringValue(value), key in now.db.deadlines) <= maxMemory {
          SweepTakesDue(Written(now, key, StringValue(value)).db, gone, swept, t);
        }
        SetSwept(now, key, value, t, gone, ok, Memory());
        SetTidyIff(now.db, key, value, ttl, t, gone, reply, Memory());
      }
    }

    /** It is known what a sweep takes: no key is due, or there are no more deadlines than it looks
    at. */
    static ghost predicate Sweepable(db: Db, t: real) {
      Tidy(db) && (|db.deadlines| <= SAMPLE_SIZE || NoneDue(db, t))
    }

    /** There is a limit and a policy that takes the oldest keys or none, and it is known what a
    sweep takes. */
    ghost predicate Predictable(db: Db, t: real) {
      maxMemory > 0 && (policy.AllKeysLru? || policy.NoEviction?) && Sweepable(db, t)
    }

    static lemma StillSweepable(db: Db, key: Key, v: Value, t: real)
      requires Sweepable(db, t)
      ensures Sweepable(Db(db.data[key := v], db.deadlines), t)
    {
      var written := Db(db.data[key := v], db.deadlines);
      forall k ensures Due(written, k, t) <==> Due(db, k, t) {
      }
      if NoneDue(db, t) {
        forall k ensures !Due(written, k, t) {
          assert !Due(db, k, t);
        }
      }
    }

    /** The backups MSET takes, in the order of its keys. */
    method TakeSnapshots(pairs: seq<(Key, Bytes)>)
      returns (order: seq<Key>, snapshots: map<Key, Backup>, expirySnapshots: map<Key, Option<real>>)
      ensures order == FirstTimes(pairs) && snapshots.Keys == expirySnapshots.Keys == KeySet(order)
      ensures forall k :: k in snapshots ==> snapshots[k] == BackupOf(k) && expirySnapshots[k] == Find(deadlines, k)
    {
      order, snapshots, expirySnapshots := [], map[], map[];
      for i := 0 to |pairs|
        invariant order == FirstTimes(pairs[..i]) && snapshots.Keys == expirySnapshots.Keys == KeySet(order)
        invariant forall k :: k in snapshots ==> snapshots[k] == BackupOf(k) && expirySnapshots[k] == Find(deadlines, k)
      {
        var key := pairs[i].0;
        FirstTimesStep(pairs, i);
        if key !in snapshots {
          snapshots := snapshots[key := Backup(Find(data, key), Find(lastAccess, key))];
          expirySnapshots := expirySnapshots[key := Find(deadlines, key)];
          order := order + [key];
        }
      }
      assert pairs[..|pairs|] == pairs;
    }

    method CmdMSet(pairs: seq<(Key, Bytes)>, t: real) returns (reply: Reply, ghost gone: seq<Key>)
      requires Accounted()
      modifies this
      ensures Accounted() && log == old(log) + Dels(gone)
      ensures pairs != [] && !reply.Error? && Tidy(old(View())) ==>
        Stored(DeleteAll(old(View()), gone), pairs, gone, View())
      ensures !reply.Error? && gone == [] ==> View() == SetStrings(old(View()), pairs)
      ensures reply.Error? ==> View() == PutBack(old(View()), FirstTimes(pairs), gone)
      ensures reply.Error? ==> lastAccess == old(lastAccess) - (KeySet(gone) - KeySet(FirstTimes(pairs)))
      ensures reply in {Error, Number(0)} && (pairs == [] ==> reply.Error? && gone == [])
      ensures maxMemory <= 0 ==> gone == [] && Handled(View(), reply, []) == Handle(old(View()), MSet(pairs), t)
      ensures policy.NoEviction? ==> forall k :: k in gone ==> Due(old(View()), k, t)
      ensures policy.NoEviction? && (forall k :: !Due(old(View()), k, t)) ==> gone == []
      ensures policy.AllKeysLru? && reply.Error? && pairs != [] ==>
        exists i, mid :: FailedAt(old(Now()), pairs, t, gone, i, mid)
      ensures maxMemory > 0 && !reply.Error? ==>
        forall i :: 0 <= i < |pairs| ==> CanFit(pairs[i].0, pairs[i].1)
      ensures Predictable(old(View()), t) ==> MSetEnds(old(Now()), pairs, gone, reply, View(), t, Memory())
      ensures Predictable(old(View()), t) && policy.NoEviction? && !reply.Error? ==>
        View() == SetStrings(Alive(old(View()), t), Kept(old(View()), pairs, t))
      ensures reply.Error? && gone == [] ==>
        && View() == old(View()) && lastAccess == old(lastAccess)
        && keySizes == old(keySizes) && usedMemory == old(usedMemory)
      ensures Tidy(old(View())) ==> MSetMakes(old(View()), pairs, gone, reply, View())
      ensures Used(old(Now()), Now(), if reply.Error? then [] else Names(pairs))
      ensures policy.AllKeysLru? ==> OldestWent(old(Now()), KeySet(FirstTimes(pairs)), gone, t)
    {
      hide Accounted, Lost, Justified, DeleteAll, Overlaid, AllPlain, Due, Total, Sizes, Fits, TooBig, CanFit;
      hide Used, OldestWent, MSetMakes, Fails, Displaced, MSetLeaves, Predictable, Stored, SetStrings, PutBack, Kept, Alive;
      gone := [];
      NothingDisplaced(Now(), t, Memory());
      if Predictable(View(), t) {
        PredictableTidy(View(), t);
      }
      if pairs == [] {
        PutBackNothing(View(), []);
        PutBackDone(View(), pairs, []);
        UsedNothing(Now());
        NothingWent(Now(), KeySet(FirstTimes(pairs)), t);
        return Error, gone;
      }
      var order, snapshots, expirySnapshots := TakeSnapshots(pairs);
      ghost var before := Now();
      StampsBelow();
      SizesFollow();
      var ok;
      ghost var at, mid;
      ok, gone, at, mid := StorePairs(pairs, t);
      SomeKey(gone);
      OverlaidTick(before, Now(), KeySet(FirstTimes(pairs)), gone);
      if ok {
        reply := Number(0);
        if Tidy(before.db) {
          StoredWhenOverlaid(before, Now(), pairs, gone);
          StoredMakes(before.db, pairs, gone, View());
        }
      } else {
        reply := Error;
        RollBack(before, order, snapshots, expirySnapshots, gone);
        PutBackNothing(before.db, order);
        PutBackDone(before.db, pairs, gone);
        UsedLess(before, Now(), KeySet(gone) - KeySet(order));
        SizesFollow();
      }
    }

    /** The loop of MSET over its pairs, up to the first that is refused, number `at`. */
    method StorePairs(pairs: seq<(Key, Bytes)>, t: real) returns (ok: bool, ghost gone: seq<Key>, ghost at: nat, ghost mid: Mark)
      requires Accounted()
      modifies this
      ensures Accounted() && Overlaid(old(Now()), Now(), KeySet(FirstTimes(pairs)), gone)
      ensures ok ==> AllPlain(View(), KeySet(FirstTimes(pairs)))
      ensures policy.NoEviction? ==> forall k :: k in gone ==> Due(old(View()), k, t)
      ensures maxMemory <= 0 ==> ok && gone == [] && View() == SetStrings(old(View()), pairs)
      ensures policy.AllKeysLru? && !ok ==> FailedAt(old(Now()), pairs, t, gone, at, mid)
      ensures maxMemory > 0 && ok ==> forall i :: 0 <= i < |pairs| ==> CanFit(pairs[i].0, pairs[i].1)
      ensures ok ==> Valued(SetStrings(old(View()), pairs), View(), KeySet(FirstTimes(pairs)), gone)
      ensures ok && gone == [] ==> View() == SetStrings(old(View()), pairs)
      ensures Predictable(old(View()), t) ==> (ok <==> !Fails(old(Now()), pairs, t, Memory()))
      ensures Predictable(old(View()), t) && ok ==> View() == MSetLeaves(old(Now()), pairs, t, Memory())
      ensures Predictable(old(View()), t) && ok && policy.NoEviction? && pairs != [] ==>
        View() == SetStrings(Alive(old(View()), t), Kept(old(View()), pairs, t))
      ensures Predictable(old(View()), t) && !ok ==>
        forall k :: k in old(data) ==> (k in gone <==> Displaced(old(Now()), pairs, k, t, Memory()))
      ensures ok ==> Used(old(Now()), Now(), Names(pairs))
      ensures policy.AllKeysLru? ==> OldestWent(old(Now()), KeySet(FirstTimes(pairs)), gone, t)
    {
      hide Accounted, Lost, DeleteAll, Overlaid, AllPlain, Due, Total, Sizes, Fits, TooBig, CanFit, Traced, Trimmed, NoneDue, Apart;
      hide Used, OldestWent, Valued, PairEnds, FailsAt, Fails, Displaced, MSetLeaves, SetStrings, Predictable, Alive, Kept;
      gone, at, mid := [], 0, Now();
      ghost var before := Now();
      StampsBelow();
      TracedStart(before, pairs, t, Memory());
      ValuedNothing(before.db);
      OverlaidNothing(before);
      UsedNothing(before);
      assert Names(pairs[..0]) == [];
      NothingWent(before, {}, t);
      for i := 0 to |pairs|
        invariant Used(before, Now(), Names(pairs[..i]))
        invariant policy.AllKeysLru? ==> OldestWent(before, KeySet(FirstTimes(pairs[..i])), gone, t)
        invariant Accounted() && (policy.NoEviction? ==> forall k :: k in gone ==> Due(before.db, k, t))
        invariant Overlaid(before, Now(), KeySet(FirstTimes(pairs[..i])), gone) && AllPlain(View(), KeySet(FirstTimes(pairs[..i])))
        invariant maxMemory <= 0 ==> gone == [] && View() == SetStrings(before.db, pairs[..i])
        invariant policy.AllKeysLru? && i > 0 ==> Fits(before, pairs[i - 1].0, pairs[i - 1].1, t, Now())
        invariant maxMemory > 0 ==> forall j :: 0 <= j < i ==> CanFit(pairs[j].0, pairs[j].1)
        invariant Valued(SetStrings(before.db, pairs[..i]), View(), KeySet(FirstTimes(pairs[..i])), gone)
        invariant gone == [] ==> View() == SetStrings(before.db, pairs[..i])
        invariant Predictable(before.db, t) ==>
          Predictable(View(), t) && Traced(before, pairs, i, Now(), gone, t, Memory())
      {
        FirstTimesStep(pairs, i);
        StampsBelow();
        ghost var p, was := KeySet(FirstTimes(pairs[..i])), gone;
        ghost var more;
        at, mid := i, Now();
        ghost var want := SetStrings(before.db, pairs[..i]);
        ok, more := StorePair(before, p, gone, want, pairs[i].0, pairs[i].1, t);
        gone := was + more;
        if policy.AllKeysLru? {
          PairWent(before, mid, p, was, pairs[i].0, more, t);
        }
        if Predictable(before.db, t) {
          PairTraced(before, pairs, i, mid, was, ok, Now(), more, t, Memory());
        }
        if !ok {
          assert was + [] == was;
          OverlaidWiden(before, Now(), p + {pairs[i].0}, KeySet(FirstTimes(pairs)), gone);
          if policy.AllKeysLru? {
            OldestWentWiden(before, p + {pairs[i].0}, KeySet(FirstTimes(pairs)), gone, t);
          }
          return;
        }
        NamesStep(pairs, i);
        UsedMore(before, mid, Now(), Names(pairs[..i]), [pairs[i].0]);
        SetStringsSnoc(before.db, pairs, i);
      }
      ok := true;
      assert pairs[..|pairs|] == pairs;
      if Predictable(before.db, t) {
        MSetSucceeds(before, pairs, Now(), gone, t, Memory());
        if policy.NoEviction? && pairs != [] {
          PredictableTidy(before.db, t);
          NoEvictionLeaves(before, pairs, Now(), gone, t, Memory());
        }
      }
    }

    lemma PutBackDone(db: Db, pairs: seq<(Key, Bytes)>, gone: seq<Key>)
      ensures Tidy(db) ==> MSetMakes(db, pairs, gone, Error, PutBack(db, FirstTimes(pairs), gone))
    {
      if Tidy(db) {
        PutBackMakes(db, pairs, gone);
      }
    }

    lemma PredictableTidy(db: Db, t: real)
      requires Predictable(db, t)
      ensures Tidy(db)
    {
    }

    /** After a pair of MSET was stored under LRU: unless it was due it is there, and if there are
    no deadlines everything fits. */
    ghost predicate Fits(before: Mark, key: Key, value: Bytes, t: real, now: Mark) {
      && (!Due(before.db, key, t) ==> Find(now.db.data, key) == Some(StringValue(value)))
      && (maxMemory > 0 && before.db.deadlines == map[] ==> Total(Sizes(now.db, sizeOf)) <= maxMemory)
    }

    /** How an MSET fails under LRU: at pair `i`, which is too big, when the pairs before it are
    stored and `gone` were evicted for them. */
    ghost predicate FailedAt(before: Mark, pairs: seq<(Key, Bytes)>, t: real, gone: seq<Key>, i: nat, mid: Mark) {
      && i < |pairs| && TooBig(pairs[i].0, pairs[i].1)
      && Overlaid(before, mid, KeySet(FirstTimes(pairs[..i])), gone)
      && (i > 0 ==> Fits(before, pairs[i - 1].0, pairs[i - 1].1, t, mid))
    }

    lemma SizesFollow()
      requires Accounted()
      ensures keySizes == Sizes(View(), sizeOf) && usedMemory == Total(keySizes)
    {
    }

    lemma StampsBelow()
      requires Accounted()
      ensures lastAccess.Keys == data.Keys && Apart(lastAccess) && forall k :: k in lastAccess ==> lastAccess[k] < tick
    {
    }

    /** One pair of MSET: the value stored, and the old deadline dropped. */
    method StorePair(ghost before: Mark, ghost p: set<Key>, ghost gone: seq<Key>, ghost want: Db, key: Key, value: Bytes, t: real)
      returns (ok: bool, ghost more: seq<Key>)
      requires Accounted() && Overlaid(before, Now(), p, gone) && AllPlain(View(), p) && Valued(want, View(), p, gone)
      modifies this
      ensures Accounted() && Overlaid(before, Now(), p + {key}, gone + more)
      ensures ok ==> Valued(SetString(want, key, value), View(), p + {key}, gone + more)
      ensures ok && more == [] ==> View() == SetString(old(View()), key, value)
      ensures ok ==> AllPlain(View(), p + {key})
      ensures policy.NoEviction? ==> forall k :: k in more ==> Due(before.db, k, t)
      ensures maxMemory <= 0 ==> ok && more == [] && View() == SetString(old(View()), key, value)
      ensures policy.AllKeysLru? && !ok ==> more == [] && TooBig(key, value)
      ensures policy.AllKeysLru? && ok ==> Fits(before, key, value, t, Now())
      ensures maxMemory > 0 && ok ==> CanFit(key, value)
      ensures policy.AllKeysLru? && maxMemory > 0 ==>
        (ok <==> sizeOf(key, StringValue(value), key in old(deadlines)) <= maxMemory)
      ensures Predictable(old(View()), t) ==>
        PairEnds(old(Now()), key, value, ok, Now(), more, t, Memory()) && (ok ==> Predictable(View(), t))
      ensures ok ==> Used(old(Now()), Now(), [key])
      ensures policy.AllKeysLru? ==> OldestWent(old(Now()), {key}, more, t)
      ensures forall k :: Due(old(View()), k, t) ==> Due(before.db, k, t)
    {
      hide Accounted, Lost, Justified, Swept, DeleteAll, Overlaid, AllPlain, Valued, Due, Total, Sizes, Fits, PairEnds, Sweepable;
      hide Used, OldestWent;
      StampsBelow();
      DueBefore(before, Now(), p, gone, t);
      var v := StringValue(value);
      ghost var now := Now();
      ghost var swept;
      ok, more, swept := StoreSet(key, v, t);
      if policy.AllKeysLru? {
        WrittenOldestWent(now, key, v, sizeOf, maxMemory, policy, t, more, swept);
      }
      if policy.NoEviction? {
        SweptAreDue(Written(now, key, v), sizeOf, maxMemory, policy, t, more, swept);
        forall k | k in more ensures Due(before.db, k, t) {
          StillDue(before, now, p, gone, key, v, t, k);
        }
      }
      if !ok {
        ghost var mid :| Lost(Written(now, key, v), mid, more) && Now() == Restored(mid, key, BackupIn(now, key));
        OverlaidFailed(before, now, p, gone, key, v, mid, more);
        if Predictable(now.db, t) {
          PairRefused(now, key, value, Now(), mid, more, swept, t);
        }
        return;
      }
      ghost var after := Now();
      LostTick(Written(now, key, v), after, more);
      UsedWritten(now, key, v, after, more);
      ValuedWritten(want, now, p, gone, key, value, after, more);
      SizesFollow();
      RemoveExpiry(key);
      UsedAlike(now, after, Now(), [key]);
      OverlaidWritten(before, now, p, gone, key, value, after, more);
      if policy.AllKeysLru? {
        PairFits(before, now, p, gone, key, value, t, after, more);
      }
      if Predictable(now.db, t) {
        PairStored(now, key, value, after, more, swept, t);
      }
    }

    lemma PairFits(before: Mark, now: Mark, p: set<Key>, gone: seq<Key>, key: Key, value: Bytes, t: real,
        after: Mark, more: seq<Key>)
      requires Overlaid(before, now, p, gone) && AllPlain(now.db, p)
      requires Lost(Written(now, key, StringValue(value)), after, more)
      requires Due(Written(now, key, StringValue(value)).db, key, t) || key !in more
      requires maxMemory > 0 ==> Total(Sizes(after.db, sizeOf)) <= maxMemory
      ensures Fits(before, key, value, t, after.(db := after.db.(deadlines := after.db.deadlines - {key})))
    {
      hide Overlaid, AllPlain, Lost, Total, Sizes;
      var v := StringValue(value);
      LostKeeps(Written(now, key, v), after, more);
      if Due(Written(now, key, v).db, key, t) {
        StillDue(before, now, p, gone, key, v, t, key);
      }
      if before.db.deadlines == map[] {
        NoDeadlinesYet(before, now, p, gone);
        assert after.db.deadlines - {key} == after.db.deadlines;
      }
    }

    lemma PairRefused(now: Mark, key: Key, value: Bytes, done: Mark, mid: Mark, more: seq<Key>, swept: nat, t: real)
      requires Predictable(now.db, t) && Swept(Written(now, key, StringValue(value)), key, t, more, swept, false)
      requires Lost(Written(now, key, StringValue(value)), mid, more)
      requires policy.AllKeysLru? ==> sizeOf(key, StringValue(value), key in now.db.deadlines) > maxMemory
      ensures PairEnds(now, key, value, false, done, more, t, Memory())
    {
      hide Lost, Total, Sizes, Trimmed, DeleteAll, Sweepable;
      var start := Written(now, key, StringValue(value));
      StillSweepable(now.db, key, StringValue(value), t);
      if sizeOf(key, StringValue(value), key in now.db.deadlines) <= maxMemory {
        assert more[..swept] == more;
        LostDb(start, mid, more);
        SweptTakes(start, mid, more, t);
      }
    }

    lemma PairStored(now: Mark, key: Key, value: Bytes, after: Mark, more: seq<Key>, swept: nat, t: real)
      requires Predictable(now.db, t) && now.stamps.Keys == now.db.data.Keys
      requires Swept(Written(now, key, StringValue(value)), key, t, more, swept, true)
      requires Lost(Written(now, key, StringValue(value)), after, more)
      requires Justified(Written(now, key, StringValue(value)), sizeOf, maxMemory, policy, t, more, swept)
      requires Total(Sizes(after.db, sizeOf)) <= maxMemory
      requires sizeOf(key, StringValue(value), key in now.db.deadlines) <= maxMemory
      ensures var done := after.(db := Db(after.db.data, after.db.deadlines - {key}));
        PairEnds(now, key, value, true, done, more, t, Memory()) && Predictable(done.db, t)
    {
      hide Lost, Total, Sizes, DeleteAll, OldestFirst, AllNeeded, Made, Sweepable, Alive;
      var start := Written(now, key, StringValue(value));
      StillSweepable(now.db, key, StringValue(value), t);
      LostThere(start, after, more);
      var mid := SplitSweep(start, after, more, swept, t, Memory());
      assert Trimmed(now, key, value, after.(db := Db(after.db.data, after.db.deadlines - {key})), more, t, Memory());
      LeftSweepable(start.db, mid, after, more[swept..], key, t);
    }

    /** After a sweep no key is due. */
    lemma LeftSweepable(db: Db, mid: Mark, after: Mark, gone: seq<Key>, key: Key, t: real)
      requires Tidy(db) && key in db.data && mid.db == Alive(db, t) && Made(mid, after, gone, Memory())
      ensures Sweepable(Db(after.db.data, after.db.deadlines - {key}), t)
    {
      hide Lost, Total, Sizes, NoneDue, DeleteAll;
      AliveNoneDue(db, mid, after, gone, t, Memory());
      FewerDue(after.db, key, t);
      LostDb(mid, after, gone);
      DeleteAllIs(mid.db, gone);
    }

    /** Put back every key of a failed MSET, with its stamp and its deadline. */
    method RollBack(ghost before: Mark, order: seq<Key>, snapshots: map<Key, Backup>, expirySnapshots: map<Key, Option<real>>,
        ghost gone: seq<Key>)
      requires Accounted() && Overlaid(before, Now(), KeySet(order), gone)
      requires snapshots.Keys == expirySnapshots.Keys == KeySet(order)
      requires before.stamps.Keys == before.db.data.Keys && Apart(before.stamps)
      requires forall k :: k in before.stamps ==> before.stamps[k] < before.tick
      requires forall k :: k in snapshots ==> snapshots[k] == BackupIn(before, k) && expirySnapshots[k] == Find(before.db.deadlines, k)
      modifies this
      ensures Accounted() && log == old(log)
      ensures View() == PutBack(before.db, order, gone) && lastAccess == before.stamps - (KeySet(gone) - KeySet(order))
      ensures tick == old(tick)
    {
      hide Accounted, Overlaid, BackOn;
      OverlaidTick(before, Now(), KeySet(order), gone);
      for i := 0 to |order|
        invariant Accounted() && log == old(log) && tick == old(tick)
        invariant Overlaid(before, Now(), KeySet(order), gone) && BackOn(before, Now(), order[..i])
      {
        var key := order[i];
        ghost var now := Now();
        AgedUnused(before, now, KeySet(order), gone, key);
        RestoreKey(key, snapshots[key]);
        if expirySnapshots[key].None? {
          RemoveExpiry(key);
        } else {
          SetExpiryAt(key, expirySnapshots[key].value);
        }
        BackOnStep(before, now, Now(), order, i, gone);
      }
      assert order[..|order|] == order;
      PutBackWhenAllOn(before, Now(), order, gone);
    }

    /** The backup of a key that is then looked up. */
    method LookUp(key: Key, t: real) returns (b: Backup)
      requires Accounted()
      modifies this
      ensures Accounted() && b == old(BackupOf(key)) && tick >= old(tick)
      ensures (b.value.Some? <==> b.access.Some?) && (b.access.Some? ==> b.access.value < tick)
      ensures Unused(lastAccess, key, b.access) && lastAccess - {key} == old(lastAccess) - {key}
      ensures key in lastAccess ==> old(tick) <= lastAccess[key]
      ensures !Due(old(View()), key, t) ==>
        View() == old(View()) && log == old(log) && usedMemory == old(usedMemory)
    {
      hide Accounted, Total, Sizes, Unused, Apart;
      b := SnapshotKey(key);
      StampsBelow();
      SizesFollow();
      BackupUnused(Now(), key);
      var there := Exists(key, t);
      SizesFollow();
      NoneNewerOff(old(lastAccess), lastAccess, key);
      StillUnused(old(lastAccess), lastAccess, key, b.access);
    }

    /** One call of a typed operation of the store. */
    method Mutate(key: Key, op: Op, t: real) returns (reply: Reply, ghost gone: seq<Key>)
      requires Accounted()
      modifies this
      ensures Accounted() && tick >= old(tick) && reply in {Error, Number(0)}
      ensures NoneNewer(old(lastAccess), lastAccess, key)
      ensures !Due(old(View()), key, t) ==>
        && log == old(log) + Dels(gone)
        && !Due(View(), key, t)
        && MutateEnds(old(View()), key, op, reply, View(), gone)
        && (maxMemory <= 0 ==> gone == [] && (reply.Error? <==> Apply(op, Find(old(data), key)).Refuses?))
        && (policy.AllKeysLru? || policy.NoEviction? ==> key !in gone)
      ensures !Due(old(View()), key, t) && old(usedMemory) <= maxMemory && NoLarger(old(View()), key, op, sizeOf)
        ==> !reply.Error?
      ensures !Due(old(View()), key, t) && Apply(op, Find(old(data), key)).Leaves? ==> usedMemory == old(usedMemory)
      ensures !reply.Error? && maxMemory > 0 && !Due(old(View()), key, t) && Apply(op, Find(old(data), key)).Becomes?
        ==> usedMemory <= maxMemory
      ensures Stamped(old(Now()), Now(), key, gone)
      ensures policy.AllKeysLru? && !Due(old(View()), key, t) ==> OldestWent(old(Now()), {key}, gone, t)
      ensures Tidy(old(View())) && !Due(old(View()), key, t) ==> OpMakes(old(View()), key, op, gone, reply, View())
    {
      hide Accounted, Lost, Total, Sizes, Justified, Apply, DeleteAll, NoneNewer, Unused, Stamped, StampedSince, StampedOr, OldestWent;
      hide OpMakes, MutateEnds, EffectDoes;
      gone := [];
      NoneGone(View());
      StampsBelow();
      ghost var found := Now();
      NothingWent(found, {key}, t);
      var b := LookUp(key, t);
      ghost var looked, stamps := Now(), lastAccess;
      StampedLooked(found, looked, key);
      assert !Due(old(View()), key, t) ==> old(log) + Dels([]) == old(log);
      var effect := Perform(op, Find(data, key));
      match effect {
        case Refuses =>
          reply := Error;
          NoneNewerOff(old(lastAccess), lastAccess, key);
        case Leaves =>
          reply := Number(0);
          NoneNewerOff(old(lastAccess), lastAccess, key);
        case Removes =>
          var n := Delete(key, false);
          NoneNewerOff(old(lastAccess), lastAccess, key);
          StampedLooked(found, Now(), key);
          reply := Number(0);
        case Becomes(v) =>
          reply, gone := WriteValue(key, op, v, b, t);
          NoneNewerTwice(old(lastAccess), stamps, lastAccess, key);
          StampedAgain(found, looked, Now(), key, gone);
          if policy.AllKeysLru? && !Due(found.db, key, t) {
            LookedWent(found, looked, key, gone, t);
          }
      }
      if !effect.Becomes? {
        MutateEndsBy(looked.db, key, op, effect, View());
      }
      if Tidy(found.db) && !Due(found.db, key, t) {
        MutateMakes(found.db, key, op, reply, View(), gone);
      }
    }

    /** The last step of a typed operation that leaves the value `v`. */
    method WriteValue(key: Key, ghost op: Op, v: Value, b: Backup, t: real) returns (reply: Reply, ghost gone: seq<Key>)
      requires Accounted() && Apply(op, Find(data, key)) == Becomes(v)
      requires b.value.Some? <==> b.access.Some?
      requires b.access.Some? ==> b.access.value < tick
      requires Unused(lastAccess, key, b.access)
      modifies this
      ensures Accounted() && tick >= old(tick) && reply in {Error, Number(0)}
      ensures NoneNewer(old(lastAccess), lastAccess, key)
      ensures log == old(log) + Dels(gone)
      ensures !Due(old(View()), key, t) ==> !Due(View(), key, t)
      ensures b.value == Find(old(data), key) ==> MutateEnds(old(View()), key, op, reply, View(), gone)
      ensures maxMemory <= 0 ==> gone == [] && !reply.Error?
      ensures (policy.AllKeysLru? || policy.NoEviction?) && !Due(old(View()), key, t) ==> key !in gone
      ensures old(usedMemory) <= maxMemory && NoLarger(old(View()), key, op, sizeOf) ==> !reply.Error?
      ensures !reply.Error? && maxMemory > 0 ==> usedMemory <= maxMemory
      ensures StampedOr(old(Now()), Now(), key, gone, b.access)
      ensures policy.AllKeysLru? ==> OldestWent(old(Now()), {key}, gone, t)
    {
      hide Accounted, Lost, Total, Sizes, Justified, Swept, Apply, MutateEnds, NoLarger, Put, StampedOr, OldestWent;
      ghost var before, start := View(), Written(Now(), key, v);
      SizesFollow();
      StampsBelow();
      NoLargerFits(before, key, op, v, sizeOf);
      var ok;
      ghost var swept;
      ok, gone, swept := Overwrite(key, v, b, t);
      reply := if ok then Number(0) else Error;
      ghost var mid := Now();
      if !ok {
        mid :| Lost(start, mid, gone) && Now() == Restored(mid, key, b);
      }
      WrittenEnds(before, key, op, v, start, mid, gone, reply);
      WrittenNoneNewer(old(Now()), key, v, mid, gone, b);
      LostKeeps(start, mid, gone);
      StampedWritten(old(Now()), key, v, mid, gone, b);
      if policy.AllKeysLru? {
        WrittenOldestWent(old(Now()), key, v, sizeOf, maxMemory, policy, t, gone, swept);
      }
    }

    /** ZREM goes member by member without a backup of its own, so it is all or nothing only if
    it has one member to remove, or cannot fail after the first. */
    ghost predicate AllOrNothing(op: Op) {
      op.ZRem? && |op.members| > 1 && maxMemory > 0 ==> Shrinks(sizeOf)
    }

    /** After `i` parts of a typed write, `gone` deleted on the way. */
    ghost predicate Underway(looked: Db, key: Key, op: Op, i: nat, v: Option<Value>, now: Db, gone: seq<Key>, used: int)
      requires i <= |Parts(op)|
    {
      && AgreeBut(now, DeleteAll(looked, gone), {key})
      && (key !in gone ==> now == Landed(DeleteAll(looked, gone), key, Done(op, i, v)))
      && (key !in gone && op.ZRem? && maxMemory > 0 && Done(op, i, v).Some? && Done(op, i, v) != v ==> used <= maxMemory)
    }

    lemma UnderwayStarts(looked: Db, key: Key, op: Op, used: int)
      requires Tidy(looked)
      ensures Underway(looked, key, op, 0, Find(looked.data, key), looked, [], used) && Dels([]) == []
    {
      hide DeleteAll, AgreeBut, Landed, Done;
      LandedAtStart(looked, key, op);
      OffAtStart(looked, key);
    }

    /** One part more, stored or refused. */
    lemma UnderwayStep(looked: Db, key: Key, op: Op, i: nat, v: Option<Value>, now: Db, gone: seq<Key>, used: int,
        reply: Reply, after: Db, more: seq<Key>, used': int)
      requires i < |Parts(op)| && Underway(looked, key, op, i, v, now, gone, used)
      requires Tidy(looked) && v == Find(looked.data, key) && !Apply(op, v).Refuses?
      requires MutateEnds(now, key, Parts(op)[i], reply, after, more)
      requires used <= maxMemory && NoLarger(now, key, Parts(op)[i], sizeOf) ==> !reply.Error?
      requires Apply(Parts(op)[i], Find(now.data, key)).Leaves? ==> used' == used
      requires !reply.Error? && maxMemory > 0 && Apply(Parts(op)[i], Find(now.data, key)).Becomes? ==> used' <= maxMemory
      ensures !reply.Error? ==> Underway(looked, key, op, i + 1, v, after, gone + more, used')
      ensures AgreeBut(after, DeleteAll(looked, gone + more), {key})
      ensures reply.Error? && key !in gone + more ==>
        && after == Landed(DeleteAll(looked, gone + more), key, Done(op, i, v))
        && Apply(Parts(op)[i], Done(op, i, v)).Becomes?
      ensures key !in gone + more ==> !Apply(Parts(op)[i], Find(now.data, key)).Refuses?
      ensures reply.Error? && key !in gone + more && op.ZRem? && maxMemory > 0 && AllOrNothing(op) ==> Done(op, i, v) == v
    {
      hide DeleteAll, Apply, MutateEnds, Done, Landed, Parts, Shrinks, AgreeBut, NoLarger;
      OffStep(looked, now, key, gone, Parts(op)[i], reply, after, more);
      if key !in gone + more {
        assert key !in gone && key !in more;
        PartLands(looked, key, op, i, v, now, gone, reply, after, more);
        PartsMade(op, i, v);
        if op.ZRem? {
          ZRemStep(now, key, op, i, v, sizeOf);
        }
      }
    }

    method CmdWrite(key: Key, op: Op, t: real) returns (reply: Reply, ghost gone: seq<Key>)
      requires Accounted()
      modifies this
      ensures Accounted()
      ensures Tidy(old(View())) ==>
        && log == old(log) + (LookedLog(old(View()), Write(key, op), t) + Dels(gone))
        && WriteEnds(old(View()), key, op, t, gone, reply, View())
      ensures Tidy(old(View())) ==> WriteDoes(old(View()), key, op, t, gone, reply, View())
      ensures Used(old(Now()), Now(), if HasArguments(op) then [key] else [])
      ensures Tidy(old(View())) && policy.AllKeysLru? ==> OldestWent(old(Now()), {key}, gone, t)
    {
      hide Accounted, Apply, DeleteAll, Outcome, MutateEnds, Done, Landed, Parts, Due, Shrinks, Unused, NoneNewer, Apart;
      hide AgreeBut, Underway;
      hide WriteEnds, LookedLog, Handle, NoLarger, WriteDoes, Used, OldestWent, Stamped, StampedSince;
      ghost var db, cmd, tidy := View(), Write(key, op), Tidy(View());
      gone := [];
      NoneGone(db);
      ghost var found := Now();
      NothingWent(found, {key}, t);
      StampsBelow();
      if !HasArguments(op) {
        RefusedEnds(db, key, op, t);
        NothingLookedAt(db, key, op, t);
        UsedNothing(found);
        return Error, gone;
      }
      LooksAt(db, key, op, t);
      var there := Exists(key, t);
      ghost var seen := Now();
      LookedSince(found, seen, key, there);
      StampsBelow();
      if Apply(op, Find(data, key)).Refuses? {
        if tidy {
          RefusedEnds(db, key, op, t);
        }
        StampedUsed(found, seen, key, []);
        return Error, gone;
      }
      var b := SnapshotKey(key);
      reply, gone := WriteParts(key, op, b, t, db, found);
      assert tidy ==> log == old(log) + (LookedLog(db, cmd, t) + Dels(gone)) by {
        AppendTwice(old(log), LookedLog(db, cmd, t), Dels(gone));
      }
      StampsBelow();
      StampedUsed(found, Now(), key, gone);
    }

    /** The calls a typed write makes, up to the first that fails; then HSET and ZADD put the key back. */
    method WriteParts(key: Key, op: Op, b: Backup, t: real, ghost db: Db, ghost found: Mark) returns (reply: Reply, ghost gone: seq<Key>)
      requires Accounted() && HasArguments(op) && !Apply(op, Find(data, key)).Refuses? && b == BackupOf(key)
      requires View() == Purge(db, key, t) && found.db == db && Below(found) && StampedSince(found, Now(), key, [])
      modifies this
      ensures Accounted() && StampedSince(found, Now(), key, gone)
      ensures Tidy(db) ==>
        && log == old(log) + Dels(gone)
        && WriteEnds(db, key, op, t, gone, reply, View())
        && WriteDoes(db, key, op, t, gone, reply, View())
        && (policy.AllKeysLru? ==> OldestWent(found, {key}, gone, t))
    {
      hide Accounted, Apply, DeleteAll, Outcome, MutateEnds, Done, Landed, Parts, Due, Shrinks, Unused, NoneNewer, Apart;
      hide AgreeBut, Underway;
      hide WriteEnds, NoLarger, WriteDoes, OldestWent, Stamped, StampedSince, OpMakes, Put, Below;
      ghost var v, seen, tidy := Find(data, key), Now(), Tidy(db);
      gone := [];
      NoneGone(db);
      NothingWent(found, {key}, t);
      StampsBelow();
      BackupUnused(Now(), key);
      if tidy {
        LookedTidy(db, key, t);
        UnderwayStarts(View(), key, op, usedMemory);
      }
      for i := 0 to |Parts(op)|
        invariant Accounted() && tick >= seen.tick && Unused(lastAccess, key, b.access)
        invariant tidy ==> !Due(View(), key, t) && log == old(log) + Dels(gone)
        invariant tidy ==> Underway(seen.db, key, op, i, v, View(), gone, usedMemory)
        invariant tidy ==> (maxMemory <= 0 ==> gone == []) && (policy.AllKeysLru? || policy.NoEviction? ==> key !in gone)
        invariant StampedSince(found, Now(), key, gone)
        invariant tidy && policy.AllKeysLru? ==> OldestWent(found, {key}, gone, t)
      {
        ghost var mid, before, used := Now(), gone, usedMemory;
        ghost var more;
        reply, more := Mutate(key, Parts(op)[i], t);
        StillUnused(mid.stamps, lastAccess, key, b.access);
        gone := before + more;
        StampedSinceMore(found, mid, Now(), key, before, more);
        if tidy {
          MoreDels(old(log), before, more);
          UnderwayStep(seen.db, key, op, i, v, mid.db, before, used, reply, View(), more, usedMemory);
          if policy.AllKeysLru? {
            UnderwayDue(db, key, op, i, v, mid.db, before, used, t);
            PartWent(found, mid, key, before, more, t);
          }
        }
        if reply.Error? {
          ghost var last := Now();
          if op.HSet? || op.ZAdd? {
            RestoreKey(key, b);
            StampedPutBack(found, seen, last, Now(), key, gone);
          }
          if tidy {
            StoppedEnds(db, key, op, t, gone, i, v, last.db, View());
          }
          return;
        }
      }
      reply := Number(0);
      if tidy {
        DoneEnds(db, key, op, t, gone, v, View(), usedMemory);
      }
    }

    /** What can be seen of a typed write: while its key is not among the deleted, the operation is
    done to the value that was there, or nothing; and without a limit it is refused only if the
    operation is. */
    ghost predicate WriteDoes(db: Db, key: Key, op: Op, t: real, gone: seq<Key>, reply: Reply, after: Db) {
      && (key !in gone && AllOrNothing(op) ==> WriteMakes(db, key, op, t, gone, reply, after))
      && (maxMemory <= 0 && reply.Error? ==> Bare(op) || EffectDoes(op, Seen(db, key, t), Refuses))
    }

    lemma EndsDo(db: Db, key: Key, op: Op, t: real, gone: seq<Key>, reply: Reply, after: Db)
      requires Tidy(db) && WriteEnds(db, key, op, t, gone, reply, after)
      ensures WriteDoes(db, key, op, t, gone, reply, after)
    {
      hide AllOrNothing, AgreeBut, Outcome, WriteMakes, Handle, DeleteAll, Makes, EffectDoes, Bare;
      var h := Handled(after, reply, LookedLog(db, Write(key, op), t) + Dels(gone));
      if key !in gone && AllOrNothing(op) {
        WriteMade(db, key, op, t, gone, h);
      }
      if maxMemory <= 0 && reply.Error? {
        HandleMakes(db, Write(key, op), t);
      }
    }

    /** What is due in the middle of a typed write was due before it. */
    lemma UnderwayDue(db: Db, key: Key, op: Op, i: nat, v: Option<Value>, now: Db, gone: seq<Key>, used: int, t: real)
      requires i <= |Parts(op)| && Underway(Purge(db, key, t), key, op, i, v, now, gone, used) && !Due(now, key, t)
      ensures forall k :: Due(now, k, t) ==> Due(db, k, t)
    {
      hide DeleteAll, Parts, Landed, Done;
      DeleteAllIs(Purge(db, key, t), gone);
      var base := DeleteAll(Purge(db, key, t), gone);
      forall k | Due(now, k, t) ensures Due(db, k, t) {
        assert k in now.deadlines - {key} && k in base.deadlines - {key};
        assert (now.deadlines - {key})[k] == (base.deadlines - {key})[k];
      }
    }

    /** How a typed write ends: off its key nothing happens but the deletions, and while the key is
    not among them it is done, or not begun. */
    ghost predicate WriteEnds(db: Db, key: Key, op: Op, t: real, gone: seq<Key>, reply: Reply, after: Db) {
      var cmd := Write(key, op);
      && AgreeBut(after, DeleteAll(Looked(db, cmd, t), gone), {key})
      && (maxMemory <= 0 ==> gone == [] && reply == Handle(db, cmd, t).reply)
      && (policy.AllKeysLru? || policy.NoEviction? ==> key !in gone)
      && (key !in gone && AllOrNothing(op) ==>
            Outcome(db, cmd, t, gone, Handled(after, reply, LookedLog(db, cmd, t) + Dels(gone))))
      && (key !in gone && op.ZRem? && op.members != [] && reply.Error? ==> StoppedAt(db, key, op, t, gone, after))
    }

    lemma NothingLookedAt(db: Db, key: Key, op: Op, t: real)
      requires !HasArguments(op)
      ensures Looked(db, Write(key, op), t) == db && LookedLog(db, Write(key, op), t) == [] && [] + Dels([]) == []
    {
    }

    lemma LooksAt(db: Db, key: Key, op: Op, t: real)
      requires HasArguments(op)
      ensures Looked(db, Write(key, op), t) == Purge(db, key, t) && LookedLog(db, Write(key, op), t) == PurgeLog(db, key, t)
      ensures PurgeLog(db, key, t) + Dels([]) == PurgeLog(db, key, t)
    {
    }

    lemma RefusedEnds(db: Db, key: Key, op: Op, t: real)
      requires HasArguments(op) ==> Tidy(db) && Apply(op, Find(Purge(db, key, t).data, key)).Refuses?
      ensures WriteEnds(db, key, op, t, [], Error, Looked(db, Write(key, op), t))
      ensures Tidy(db) ==> WriteDoes(db, key, op, t, [], Error, Looked(db, Write(key, op), t))
    {
      hide WriteDoes, Apply, AgreeBut, Outcome, DeleteAll, Landed, Done, Parts;
      var looked := Looked(db, Write(key, op), t);
      WriteRefused(db, key, op, t);
      OffAtStart(looked, key);
      if HasArguments(op) {
        LookedTidy(db, key, t);
        LandedAtStart(looked, key, op);
        assert op.ZRem? ==> looked == LandedPart(db, key, op, t, [], 0);
      }
      if Tidy(db) {
        EndsDo(db, key, op, t, [], Error, looked);
      }
    }

    lemma StoppedEnds(db: Db, key: Key, op: Op, t: real, gone: seq<Key>, i: nat, v: Option<Value>, stopped: Db, after: Db)
      requires Tidy(db) && HasArguments(op) && i < |Parts(op)| && v == Find(Purge(db, key, t).data, key)
      requires !Apply(op, v).Refuses? && maxMemory > 0 && (policy.AllKeysLru? || policy.NoEviction? ==> key !in gone)
      requires var looked := Purge(db, key, t);
        && AgreeBut(stopped, DeleteAll(looked, gone), {key})
        && (key !in gone ==> stopped == Landed(DeleteAll(looked, gone), key, Done(op, i, v)))
      requires key !in gone && op.ZRem? && AllOrNothing(op) ==> Done(op, i, v) == v
      requires after == if op.HSet? || op.ZAdd? then Db(Put(stopped.data, key, v), stopped.deadlines) else stopped
      ensures WriteEnds(db, key, op, t, gone, Error, after) && WriteDoes(db, key, op, t, gone, Error, after)
    {
      hide WriteDoes, Apply, AgreeBut, Outcome, DeleteAll, Landed, Done, Parts, AllOrNothing, StoppedAt, Put;
      PartsMade(op, i, v);
      PutOff(stopped, DeleteAll(Purge(db, key, t), gone), key, v);
      if key !in gone {
        if AllOrNothing(op) {
          WriteFailed(db, key, op, t, gone, i, v, after);
        }
        StopsAt(db, key, op, t, gone, i, stopped);
      }
      EndsDo(db, key, op, t, gone, Error, after);
    }

    lemma StopsAt(db: Db, key: Key, op: Op, t: real, gone: seq<Key>, i: nat, after: Db)
      requires i < |Parts(op)| && after == LandedPart(db, key, op, t, gone, i)
      ensures StoppedAt(db, key, op, t, gone, after)
    {
    }

    lemma DoneEnds(db: Db, key: Key, op: Op, t: real, gone: seq<Key>, v: Option<Value>, after: Db, used: int)
      requires Tidy(db) && HasArguments(op) && v == Find(Purge(db, key, t).data, key) && !Apply(op, v).Refuses?
      requires Underway(Purge(db, key, t), key, op, |Parts(op)|, v, after, gone, used)
      requires (maxMemory <= 0 ==> gone == []) && (policy.AllKeysLru? || policy.NoEviction? ==> key !in gone)
      ensures WriteEnds(db, key, op, t, gone, Number(0), after) && WriteDoes(db, key, op, t, gone, Number(0), after)
    {
      hide WriteDoes, Apply, AgreeBut, Outcome, DeleteAll, Landed, Done, Parts;
      if key !in gone {
        WriteDone(db, key, op, t, gone, v, after);
      }
      EndsDo(db, key, op, t, gone, Number(0), after);
    }

    method CmdDel(keys: seq<Key>, t: real) returns (reply: Reply)
      requires Accounted()
      modifies this
      ensures Accounted() && log == old(log)
      ensures Handled(View(), reply, []) == Handle(old(View()), Del(keys), t)
      ensures Tidy(old(View())) ==> DelMakes(old(View()), keys, reply, View())
      ensures Used(old(Now()), Now(), [])
    {
      hide Accounted, DelMakes, Used;
      ghost var found := Now();
      UsedNothing(found);
      if Tidy(found.db) {
        DelMade(found.db, keys, t);
      }
      if keys == [] {
        return Error;
      }
      for i := 0 to |keys|
        invariant Used(found, Now(), [])
        invariant Accounted() && log == old(log) && View() == DeleteAll(old(View()), keys[..i])
      {
        assert keys[..i + 1] == keys[..i] + [keys[i]];
        DeleteAllConcat(old(View()), keys[..i], [keys[i]]);
        DeleteOne(View(), keys[i]);
        ghost var mid := Now();
        var n := Delete(keys[i], false);
        UsedWithout(found, mid, Now(), [], keys[i]);
      }
      assert keys[..|keys|] == keys;
      reply := Number(0);
    }

    method CmdExpire(key: Key, seconds: int, t: real) returns (reply: Reply)
      requires Accounted()
      modifies this
      ensures Accounted()
      ensures var h := Handle(old(View()), Expire(key, seconds), t); View() == h.db && reply == h.reply && log == old(log) + h.log
      ensures Tidy(old(View())) ==> ExpireMakes(old(View()), key, seconds, t, reply, View())
      ensures Used(old(Now()), Now(), [key])
    {
      hide Accounted, ExpireMakes, Used;
      ghost var found := Now();
      if Tidy(found.db) {
        ExpireMade(found.db, key, seconds, t);
      }
      StampsBelow();
      var there := Exists(key, t);
      UsedLooked(found, Now(), key, there);
      ghost var mid := Now();
      if !there {
        return Number(0);
      }
      SetExpiryAt(key, t + seconds as real);
      UsedAlike(found, mid, Now(), [key]);
      if t >= deadlines[key] {
        mid := Now();
        var n := Delete(key, false);
        UsedWithout(found, mid, Now(), [key], key);
      }
      reply := Number(1);
    }

    /** `get_ttl` reads the clock twice: to look the key up, and to see what time is left. */
    method GetTtl(key: Key, t: real, now: real) returns (r: TtlReply)
      requires Accounted()
      modifies this
      ensures Accounted()
      ensures View() == Purge(Purge(old(View()), key, t), key, now)
      ensures log == old(log) + PurgeLog(old(View()), key, t) + PurgeLog(Purge(old(View()), key, t), key, now)
      ensures r == if key !in data then Missing else if key !in deadlines then Forever else Remaining(deadlines[key] - now)
      ensures Used(old(Now()), Now(), [key])
    {
      hide Accounted, Used;
      ghost var found := Now();
      StampsBelow();
      var there := Exists(key, t);
      UsedLooked(found, Now(), key, there);
      if !there {
        return Missing;
      }
      if key !in deadlines {
        return Forever;
      }
      var remaining := deadlines[key] - now;
      if remaining <= 0.0 {
        ghost var mid := Now();
        var n := Delete(key, true);
        UsedWithout(found, mid, Now(), [key], key);
        return Missing;
      }
      r := Remaining(remaining);
    }

    method CmdPersist(key: Key, t: real) returns (reply: Reply)
      requires Accounted()
      modifies this
      ensures Accounted()
      ensures var h := Handle(old(View()), Persist(key), t); View() == h.db && reply == h.reply && log == old(log) + h.log
      ensures Tidy(old(View())) ==> PersistMakes(old(View()), key, t, reply, View())
      ensures Used(old(Now()), Now(), [key])
    {
      hide Accounted, PersistMakes, Used;
      if Tidy(View()) {
        PersistMade(View(), key, t);
      }
      var ttl := GetTtl(key, t, t);
      if !ttl.Remaining? {
        return Number(0);
      }
      ghost var mid := Now();
      RemoveExpiry(key);
      UsedAlike(old(Now()), mid, Now(), [key]);
      reply := Number(1);
    }

    method CmdPExpireAt(key: Key, milliseconds: int, t: real) returns (reply: Reply)
      requires Accounted()
      modifies this
      ensures Accounted()
      ensures var h := Handle(old(View()), PExpireAt(key, milliseconds), t);
        View() == h.db && reply == h.reply && log == old(log) + h.log
      ensures Tidy(old(View())) ==> PExpireAtMakes(old(View()), key, milliseconds, t, reply, View())
      ensures Used(old(Now()), Now(), [key])
    {
      hide Accounted, PExpireAtMakes, Used, Handle, Purge, PurgeLog;
      ghost var found := Now();
      if Tidy(found.db) {
        PExpireAtMade(found.db, key, milliseconds, t);
      }
      PExpireAtHandled(found.db, key, milliseconds, t);
      StampsBelow();
      var there := Exists(key, t);
      UsedLooked(found, Now(), key, there);
      ghost var mid := Now();
      if !there {
        return Number(0);
      }
      var at := milliseconds as real / 1000.0;
      if at <= t {
        var n := Delete(key, true);
        UsedWithout(found, mid, Now(), [key], key);
      } else {
        SetExpiryAt(key, at);
        UsedAlike(found, mid, Now(), [key]);
      }
      reply := Number(1);
    }

    static lemma PExpireAtHandled(db: Db, key: Key, milliseconds: int, t: real)
      ensures var h, purged, at := Handle(db, PExpireAt(key, milliseconds), t), Purge(db, key, t), milliseconds as real / 1000.0;
        if key !in purged.data then h == Handled(purged, Number(0), PurgeLog(db, key, t))
        else if at <= t then h == Handled(Aof.Delete(purged, key), Number(1), PurgeLog(db, key, t) + [Del([key])])
        else h == Handled(Db(purged.data, purged.deadlines[key := at]), Number(1), PurgeLog(db, key, t))
    {
    }

    /** The reasons it is called for, a command or a load, leave no records. */
    method Flush()
      requires Accounted()
      modifies `data, `deadlines, `lastAccess, `keySizes, `usedMemory
      ensures Accounted() && View() == Db(map[], old(deadlines) - old(data).Keys)
      ensures lastAccess == map[] && keySizes == map[] && usedMemory == 0
    {
      var keys := data.Keys;
      data, keySizes, lastAccess, usedMemory := map[], map[], map[], 0;
      while keys != {}
        invariant keys <= old(data).Keys
        invariant deadlines - keys == old(deadlines) - old(data).Keys
        decreases |keys|
        modifies `deadlines
      {
        var key :| key in keys;
        assert (deadlines - {key}) - (keys - {key}) == deadlines - keys;
        deadlines := deadlines - {key};
        keys := keys - {key};
      }
      assert deadlines - {} == deadlines;
      EmptyTotal(View(), sizeOf);
    }

    method CmdFlushAll(t: real) returns (reply: Reply)
      requires Accounted()
      modifies this
      ensures Accounted() && log == old(log)
      ensures Handled(View(), reply, []) == Handle(old(View()), FlushAll, t)
      ensures data == map[] && lastAccess == map[] && keySizes == map[] && usedMemory == 0
      ensures Tidy(old(View())) ==> deadlines == map[]
      ensures Used(old(Now()), Now(), [])
    {
      Flush();
      reply := Number(0);
    }

    /** Any command that only looks at some keys. */
    method CmdRead(keys: seq<Key>, t: real) returns (reply: Reply)
      requires Accounted()
      modifies this
      ensures Accounted()
      ensures var h := Handle(old(View()), Read(keys), t); View() == h.db && reply == h.reply && log == old(log) + h.log
      ensures Tidy(old(View())) ==> ReadMakes(old(View()), keys, t, View())
      ensures Used(old(Now()), Now(), keys)
    {
      hide Accounted, ReadMakes, Used;
      ghost var found := Now();
      if Tidy(found.db) {
        ReadMade(found.db, keys, t);
      }
      UsedNothing(found);
      for i := 0 to |keys|
        invariant Accounted() && Used(found, Now(), keys[..i])
        invariant PurgeAll(View(), keys[i..], t) == PurgeAll(old(View()), keys, t)
        invariant log + PurgeAllLog(View(), keys[i..], t) == old(log) + PurgeAllLog(old(View()), keys, t)
      {
        assert keys[i..][1..] == keys[i + 1..];
        ghost var rest := PurgeAllLog(Purge(View(), keys[i], t), keys[i + 1..], t);
        assert (log + PurgeLog(View(), keys[i], t)) + rest == log + (PurgeLog(View(), keys[i], t) + rest);
        ghost var mid := Now();
        StampsBelow();
        var there := Exists(keys[i], t);
        UsedLooked(mid, Now(), keys[i], there);
        UsedMore(found, mid, Now(), keys[..i], [keys[i]]);
        assert keys[..i + 1] == keys[..i] + [keys[i]];
      }
      assert keys[..|keys|] == keys;
      reply := Number(0);
    }

    // ----- the log -----

    /** `record_command` at time `u`. */
    method RecordCommand(cmd: Command, reply: Reply, u: real)
      requires Accounted()
      modifies this
      ensures Accounted()
      ensures var r := Record(old(View()), cmd, reply, u); View() == r.db && log == old(log) + r.log
      ensures |log| >= |old(log)| && DeadlinesRecorded(View(), log[|old(log)|..])
      ensures Used(old(Now()), Now(), RecordUses(cmd, reply))
    {
      hide Accounted, DeadlineMs, DeadlinesRecorded, Used;
      RecordedWithinMs(View(), cmd, reply, u);
      ghost var found := Now();
      UsedNothing(found);
      StampsBelow();
      if reply.Error? {
        return;
      }
      match cmd
      case Set(key, value, _) =>
        RecordSet(key, value, u);
      case MSet(pairs) =>
        RecordFinalValues(pairs, u);
      case Write(key, _) =>
        RecordWrite(key, cmd, u);
      case Del(_) =>
        log := log + [cmd];
        UsedAlike(found, found, Now(), []);
      case Expire(key, _) =>
        RecordDeadline(key, u);
      case PExpireAt(key, _) =>
        RecordDeadline(key, u);
      case Persist(_) =>
        if reply == Number(1) {
          log := log + [cmd];
          UsedAlike(found, found, Now(), []);
        }
      case FlushAll =>
        log := log + [FlushAll];
        UsedAlike(found, found, Now(), []);
      case Read(_) =>
    }

    /** SET and the deadline that the key has now, or a deletion if the key is gone again. */
    method RecordSet(key: Key, value: Bytes, u: real)
      requires Accounted()
      modifies this
      ensures Accounted()
      ensures var purged := Purge(old(View()), key, u);
        && View() == purged
        && log == old(log) + (PurgeLog(old(View()), key, u) +
             if key in purged.data then [Set(key, value, [])] + DeadlineLog(purged, key) else [Del([key])])
      ensures Used(old(Now()), Now(), [key])
    {
      hide Accounted, DeadlineMs, Used;
      var there := Exists(key, u);
      UsedLooked(old(Now()), Now(), key, there);
      ghost var mid := Now();
      if !there {
        log := log + [Del([key])];
      } else {
        log := log + [Set(key, value, [])];
        if key in deadlines {
          log := log + [PExpireAt(key, DeadlineMs(deadlines[key]))];
        }
      }
      UsedAlike(old(Now()), mid, Now(), [key]);
    }

    method RecordWrite(key: Key, cmd: Command, u: real)
      requires Accounted()
      modifies this
      ensures Accounted()
      ensures var purged := Purge(old(View()), key, u);
        View() == purged && log == old(log) + (PurgeLog(old(View()), key, u) + if key in purged.data then [cmd] else [Del([key])])
      ensures Used(old(Now()), Now(), [key])
    {
      hide Accounted, Used;
      var there := Exists(key, u);
      UsedLooked(old(Now()), Now(), key, there);
      ghost var mid := Now();
      log := log + [if there then cmd else Del([key])];
      UsedAlike(old(Now()), mid, Now(), [key]);
    }

    method RecordDeadline(key: Key, u: real)
      requires Accounted()
      modifies this
      ensures Accounted()
      ensures var purged := Purge(old(View()), key, u);
        View() == purged && log == old(log) + (PurgeLog(old(View()), key, u) + if key in purged.data then DeadlineLog(purged, key) else [])
      ensures Used(old(Now()), Now(), [key])
    {
      hide Accounted, DeadlineMs, Used;
      var there := Exists(key, u);
      UsedLooked(old(Now()), Now(), key, there);
      ghost var mid := Now();
      if there && key in deadlines {
        log := log + [PExpireAt(key, DeadlineMs(deadlines[key]))];
      }
      UsedAlike(old(Now()), mid, Now(), [key]);
    }

    method RecordFinalValues(pairs: seq<(Key, Bytes)>, u: real)
      requires Accounted()
      modifies this
      ensures Accounted()
      ensures var r := RecordFinal(old(View()), FirstTimes(pairs), u); View() == r.db && log == old(log) + r.log
      ensures Used(old(Now()), Now(), FirstTimes(pairs))
    {
      hide Accounted, Used, RecordFinal, PurgeLog, Purge;
      var keys := FirstTimes(pairs);
      ghost var found := Now();
      UsedNothing(found);
      for i := 0 to |keys|
        invariant Accounted() && Used(found, Now(), keys[..i])
        invariant RecordFinal(View(), keys[i..], u).db == RecordFinal(found.db, keys, u).db
        invariant log + RecordFinal(View(), keys[i..], u).log == found.log + RecordFinal(found.db, keys, u).log
      {
        ghost var before := Now();
        StampsBelow();
        RecordFinalStep(before, keys, i, u);
        RecordFinalValue(keys[i], u);
        UsedMore(found, before, Now(), keys[..i], [keys[i]]);
        assert keys[..i + 1] == keys[..i] + [keys[i]];
      }
      assert keys[..|keys|] == keys && keys[|keys|..] == [];
      NoFinalRecords(View(), u);
    }

    /** The value that one key has in the end. */
    method RecordFinalValue(key: Key, u: real)
      requires Accounted()
      modifies this
      ensures Accounted() && View() == Purge(old(View()), key, u)
      ensures log == (old(log) + PurgeLog(old(View()), key, u)) + [FinalOf(View(), key)]
      ensures Used(old(Now()), Now(), [key])
    {
      hide Accounted, Used, PurgeLog, Purge;
      var there := Exists(key, u);
      UsedLooked(old(Now()), Now(), key, there);
      ghost var mid := Now();
      log := log + [if there && data[key].StringValue? then Set(key, data[key].bytes, []) else Del([key])];
      UsedAlike(old(Now()), mid, Now(), [key]);
    }

    // ----- serving -----

    /** The keys a command writes are safe from the deletions it may bring about: this can be
    checked before the command. */
    ghost predicate OrderlyAt(m: Mark, cmd: Command, t: real) {
      maxMemory > 0 ==>
        && (policy.NoEviction? || policy.AllKeysLru?)
        && (cmd.Set? ==> !Due(m.db, cmd.key, t))
        && (cmd.MSet? ==>
              || (policy.NoEviction? && forall k :: k in FirstTimes(cmd.pairs) ==> !Due(m.db, k, t))
              || (policy.AllKeysLru? && NoneTooBig(cmd.pairs))
              || (policy.AllKeysLru? && forall k :: k in FirstTimes(cmd.pairs) ==> k !in m.db.data)
              || (Sweepable(m.db, t) && Spares(m, cmd.pairs, t, Memory())))
        && (cmd.Write? ==> AllOrNothing(cmd.op))
    }

    ghost predicate Orderly(cmd: Command, t: real)
      reads this
    {
      OrderlyAt(Now(), cmd, t)
    }

    /** The request keeps the log right at a clock, on the store it finds: it is orderly and does not
    break, or it is an MSET or a SET whose end is known and does not break. */
    ghost predicate KeepsRight(m: Mark, request: Request, clock: real) {
      var Request(cmd, t, u) := request;
      || (OrderlyAt(m, cmd, t) && !Breaks(m.db, cmd, t, u, clock))
      || (cmd.MSet? && Predictable(m.db, t) && !MSetBreaks(m, cmd.pairs, clock, t, Memory()))
      || (cmd.Set? && Predictable(m.db, t) && !SetBreaks(m.db, cmd.key, cmd.value, TtlOf(cmd.options, NoTtl), t, Memory()))
    }

    ghost predicate NoneTooBig(pairs: seq<(Key, Bytes)>) {
      forall i :: 0 <= i < |pairs| ==> !TooBig(pairs[i].0, pairs[i].1)
    }

    method Dispatch(cmd: Command, t: real) returns (reply: Reply, ghost gone: seq<Key>)
      requires Accounted()
      modifies this
      ensures Accounted()
      ensures Tidy(old(View())) ==>
        && log == old(log) + AutoLog(old(View()), cmd, t, gone)
        && (maxMemory <= 0 ==> Handled(View(), reply, AutoLog(old(View()), cmd, t, gone)) == Handle(old(View()), cmd, t))
        && (old(Orderly(cmd, t)) ==> Outcome(old(View()), cmd, t, gone, Handled(View(), reply, AutoLog(old(View()), cmd, t, gone))))
        && (old(Orderly(cmd, t)) && cmd.Write? ==> cmd.key !in gone)
      ensures cmd.MSet? && Predictable(old(View()), t) ==>
        MSetEnds(old(Now()), cmd.pairs, gone, reply, View(), t, Memory()) && log == old(log) + Dels(gone)
      ensures cmd.Set? && Predictable(old(View()), t) ==>
        SetOutcome(old(View()), cmd, t, gone, reply, View(), Memory()) && log == old(log) + Dels(gone)
      ensures Tidy(old(View())) && old(Orderly(cmd, t)) ==> Makes(old(View()), cmd, t, gone, reply, View())
      ensures Used(old(Now()), Now(), Uses(cmd, reply))
      ensures Tidy(old(View())) && policy.AllKeysLru? ==> OldestWent(old(Now()), Targets(cmd), gone, t)
    {
      hide Used, OldestWent, SetMakes, MSetMakes, WriteMakes, DelMakes, ExpireMakes, PExpireAtMakes, PersistMakes, ReadMakes;
      hide Names, EffectDoes, Seen, Bare, KeySet;
      hide Accounted, DeleteAll, Apply, Due, TtlOf, FirstTimes, Stored, PutBack, SetStrings, Outcome, TooBig;
      hide Fails, Displaced, MSetLeaves, NoneDue, SetEnds, SetSweeps, LeavesDeadline;
      gone := [];
      ghost var db, tidy, orderly := View(), Tidy(View()), Orderly(cmd, t);
      if tidy {
        HandleIsOutcome(db, cmd, t);
      }
      NothingWent(old(Now()), Targets(cmd), t);
      match cmd
      case Set(key, value, options) =>
        reply, gone := CmdSet(key, value, options, t);
        NothingLooked(db, cmd, t, gone);
        if tidy && maxMemory <= 0 {
          UnlimitedOutcome(db, cmd, t, Handled(View(), reply, Dels(gone)));
        }
      case MSet(pairs) =>
        reply, gone := CmdMSet(pairs, t);
        NothingLooked(db, cmd, t, gone);
        NothingDisplaced(old(Now()), t, Memory());
        if tidy && orderly {
          MSetOutcome(db, pairs, t, gone, reply, View());
        }
      case Write(key, op) =>
        reply, gone := CmdWrite(key, op, t);
        if tidy && maxMemory <= 0 {
          UnlimitedOutcome(db, cmd, t, Handled(View(), reply, LookedLog(db, cmd, t) + Dels(gone)));
        }
      case Del(keys) =>
        reply := CmdDel(keys, t);
      case Expire(key, seconds) =>
        reply := CmdExpire(key, seconds, t);
      case PExpireAt(key, milliseconds) =>
        reply := CmdPExpireAt(key, milliseconds, t);
      case Persist(key) =>
        reply := CmdPersist(key, t);
      case FlushAll =>
        reply := CmdFlushAll(t);
      case Read(keys) =>
        reply := CmdRead(keys, t);
    }

    /** A client command, dispatched at time `t` and recorded at time `u`. */
    method Client(cmd: Command, t: real, u: real) returns (reply: Reply, ghost gone: seq<Key>)
      requires Accounted()
      modifies this
      ensures Accounted()
      ensures maxMemory <= 0 && Tidy(old(View())) ==>
        var h := Handle(old(View()), cmd, t);
        var r := Record(h.db, cmd, h.reply, u);
        reply == h.reply && View() == r.db && log == old(log) + (h.log + r.log)
      ensures old(Orderly(cmd, t)) && Tidy(old(View())) ==> Ended(old(View()), old(log), cmd, t, u, gone, reply, View(), log)
      ensures old(Orderly(cmd, t)) ==> forall clock :: LateFaithful(old(View()), old(log), clock) ==>
        (LateFaithful(View(), log, clock) <==> reply.Error? || !Breaks(old(View()), cmd, t, u, clock))
      ensures old(Orderly(cmd, t)) && !Silent(old(View()), cmd, t) ==> forall clock ::
        Faithful(old(View()), old(log), clock) && Before(log, clock) ==> Faithful(View(), log, clock)
      ensures cmd.MSet? && Predictable(old(View()), t) ==> forall clock ::
        LateFaithful(old(View()), old(log), clock) ==>
        (LateFaithful(View(), log, clock) <==> !MSetBreaks(old(Now()), cmd.pairs, clock, t, Memory()))
      ensures cmd.Set? && Predictable(old(View()), t) ==> forall clock :: LateFaithful(old(View()), old(log), clock) ==>
        (LateFaithful(View(), log, clock) <==>
         !SetBreaks(old(View()), cmd.key, cmd.value, TtlOf(cmd.options, NoTtl), t, Memory()))
      ensures forall clock :: LateFaithful(old(View()), old(log), clock) && KeepsRight(old(Now()), Request(cmd, t, u), clock) ==>
        LateFaithful(View(), log, clock)
      ensures old(Orderly(cmd, t)) && Untimed(cmd) && old(deadlines) == map[] ==>
        deadlines == map[] && (NoDeadlines(old(log)) ==> NoDeadlines(log))
      ensures Used(old(Now()), Now(), Uses(cmd, reply) + RecordUses(cmd, reply))
      ensures Tidy(old(View())) && policy.AllKeysLru? ==> OldestWent(old(Now()), Targets(cmd), gone, t)
    {
      hide Used, OldestWent, Uses, RecordUses, Targets, Makes, Accounted, Handle, Record, AutoLog, Outcome;
      hide Faithful, LateFaithful, Before, Silent, Breaks, Ended;
      hide OrderlyAt, MSetEnds, MSetBreaks, NoneDue, SetOutcome, SetBreaks, Predictable, TtlOf;
      ghost var found := Now();
      reply, gone := Dispatch(cmd, t);
      ghost var mid := Now();
      StampsBelow();
      RecordCommand(cmd, reply, u);
      UsedMore(found, mid, Now(), Uses(cmd, reply), RecordUses(cmd, reply));
      ClientEnds(found, cmd, t, u, gone, reply, mid, Now());
    }

    /** A command dispatched and then recorded. */
    lemma ClientEnds(found: Mark, cmd: Command, t: real, u: real, gone: seq<Key>, reply: Reply, mid: Mark, after: Mark)
      requires Tidy(found.db) ==>
        && mid.log == found.log + AutoLog(found.db, cmd, t, gone)
        && (maxMemory <= 0 ==> Handled(mid.db, reply, AutoLog(found.db, cmd, t, gone)) == Handle(found.db, cmd, t))
        && (OrderlyAt(found, cmd, t) ==> Outcome(found.db, cmd, t, gone, Handled(mid.db, reply, AutoLog(found.db, cmd, t, gone))))
        && (OrderlyAt(found, cmd, t) && cmd.Write? ==> cmd.key !in gone)
      requires cmd.MSet? && Predictable(found.db, t) ==>
        MSetEnds(found, cmd.pairs, gone, reply, mid.db, t, Memory()) && mid.log == found.log + Dels(gone)
      requires cmd.Set? && Predictable(found.db, t) ==>
        SetOutcome(found.db, cmd, t, gone, reply, mid.db, Memory()) && mid.log == found.log + Dels(gone)
      requires var r := Record(mid.db, cmd, reply, u); after.db == r.db && after.log == mid.log + r.log
      ensures maxMemory <= 0 && Tidy(found.db) ==>
        var h := Handle(found.db, cmd, t);
        var r := Record(h.db, cmd, h.reply, u);
        reply == h.reply && after.db == r.db && after.log == found.log + (h.log + r.log)
      ensures OrderlyAt(found, cmd, t) && Tidy(found.db) ==>
        Ended(found.db, found.log, cmd, t, u, gone, reply, after.db, after.log)
      ensures forall clock :: OrderlyAt(found, cmd, t) && LateFaithful(found.db, found.log, clock) ==>
        (LateFaithful(after.db, after.log, clock) <==> reply.Error? || !Breaks(found.db, cmd, t, u, clock))
      ensures OrderlyAt(found, cmd, t) && !Silent(found.db, cmd, t) ==> forall clock ::
        Faithful(found.db, found.log, clock) && Before(after.log, clock) ==> Faithful(after.db, after.log, clock)
      ensures forall clock :: cmd.MSet? && Predictable(found.db, t) && LateFaithful(found.db, found.log, clock) ==>
        (LateFaithful(after.db, after.log, clock) <==> !MSetBreaks(found, cmd.pairs, clock, t, Memory()))
      ensures forall clock :: cmd.Set? && Predictable(found.db, t) && LateFaithful(found.db, found.log, clock) ==>
        (LateFaithful(after.db, after.log, clock) <==>
         !SetBreaks(found.db, cmd.key, cmd.value, TtlOf(cmd.options, NoTtl), t, Memory()))
      ensures forall clock :: LateFaithful(found.db, found.log, clock) && KeepsRight(found, Request(cmd, t, u), clock) ==>
        LateFaithful(after.db, after.log, clock)
      ensures OrderlyAt(found, cmd, t) && Tidy(found.db) && Untimed(cmd) && found.db.deadlines == map[] ==>
        after.db.deadlines == map[] && (NoDeadlines(found.log) ==> NoDeadlines(after.log))
    {
      hide Handle, Record, AutoLog, Outcome, Faithful, LateFaithful, Before, Silent, Breaks, Ended, OrderlyAt;
      hide MSetEnds, MSetBreaks, SetOutcome, SetBreaks, Predictable, TtlOf;
      var db := found.db;
      var h, r := Handled(mid.db, reply, AutoLog(db, cmd, t, gone)), Record(mid.db, cmd, reply, u);
      if Tidy(db) {
        AppendTwice(found.log, h.log, r.log);
        if OrderlyAt(found, cmd, t) {
          EndedBy(db, found.log, cmd, t, u, gone, h);
          if Untimed(cmd) && db.deadlines == map[] {
            UntimedHandled(db, cmd, t, gone, h);
            UntimedRecorded(h.db, cmd, h.reply, u);
          }
        }
      }
      AppendTwice(found.log, Dels(gone), r.log);
      KeptRight(found, cmd, t, u, gone, reply, mid.db, after);
    }

    /** What a command dispatched and recorded does to its log, from how it ended. */
    lemma KeptRight(found: Mark, cmd: Command, t: real, u: real, gone: seq<Key>, reply: Reply, mid: Db, after: Mark)
      requires OrderlyAt(found, cmd, t) && Tidy(found.db) ==>
        Ended(found.db, found.log, cmd, t, u, gone, reply, after.db, after.log)
      requires Tidy(found.db) && (cmd.MSet? || cmd.Set?) && Predictable(found.db, t) ==>
        var r := Record(mid, cmd, reply, u); after.db == r.db && after.log == found.log + (Dels(gone) + r.log)
      requires cmd.MSet? && Predictable(found.db, t) ==> MSetEnds(found, cmd.pairs, gone, reply, mid, t, Memory())
      requires cmd.Set? && Predictable(found.db, t) ==> SetOutcome(found.db, cmd, t, gone, reply, mid, Memory())
      ensures forall clock :: OrderlyAt(found, cmd, t) && LateFaithful(found.db, found.log, clock) ==>
        (LateFaithful(after.db, after.log, clock) <==> reply.Error? || !Breaks(found.db, cmd, t, u, clock))
      ensures OrderlyAt(found, cmd, t) && !Silent(found.db, cmd, t) ==> forall clock ::
        Faithful(found.db, found.log, clock) && Before(after.log, clock) ==> Faithful(after.db, after.log, clock)
      ensures forall clock :: cmd.MSet? && Predictable(found.db, t) && LateFaithful(found.db, found.log, clock) ==>
        (LateFaithful(after.db, after.log, clock) <==> !MSetBreaks(found, cmd.pairs, clock, t, Memory()))
      ensures forall clock :: cmd.Set? && Predictable(found.db, t) && LateFaithful(found.db, found.log, clock) ==>
        (LateFaithful(after.db, after.log, clock) <==>
         !SetBreaks(found.db, cmd.key, cmd.value, TtlOf(cmd.options, NoTtl), t, Memory()))
    {
      hide Record, Faithful, LateFaithful, Before, Silent, Breaks, Ended, OrderlyAt, MSetEnds, MSetBreaks, SetOutcome, SetBreaks;
      hide Predictable, TtlOf;
      forall clock
        ensures OrderlyAt(found, cmd, t) && LateFaithful(found.db, found.log, clock) ==>
          (LateFaithful(after.db, after.log, clock) <==> reply.Error? || !Breaks(found.db, cmd, t, u, clock))
        ensures OrderlyAt(found, cmd, t) && !Silent(found.db, cmd, t) ==>
          (Faithful(found.db, found.log, clock) && Before(after.log, clock) ==> Faithful(after.db, after.log, clock))
        ensures cmd.MSet? && Predictable(found.db, t) && LateFaithful(found.db, found.log, clock) ==>
          (LateFaithful(after.db, after.log, clock) <==> !MSetBreaks(found, cmd.pairs, clock, t, Memory()))
        ensures cmd.Set? && Predictable(found.db, t) && LateFaithful(found.db, found.log, clock) ==>
          (LateFaithful(after.db, after.log, clock) <==>
           !SetBreaks(found.db, cmd.key, cmd.value, TtlOf(cmd.options, NoTtl), t, Memory()))
      {
        if OrderlyAt(found, cmd, t) {
          EndedFaithful(found.db, found.log, clock, cmd, t, u, gone, reply, after.db, after.log);
        }
        if LateFaithful(found.db, found.log, clock) {
          LateFaithfulTidy(found.db, found.log, clock);
          if cmd.Set? && Predictable(found.db, t) {
            SetHandledIff(found.db, found.log, clock, cmd, t, u, gone, reply, mid, Memory());
          }
          if cmd.MSet? && Predictable(found.db, t) {
            MSetLateIff(found, cmd.pairs, t, u, gone, reply, mid, clock, Memory());
          }
        }
      }
    }

    /** `_replay_stream`: the limit is set aside, and the first error stops the replay. */
    method ReplayStream(commands: seq<Command>, clock: real) returns (ok: bool)
      requires Accounted() && maxMemory <= 0 && Tidy(View())
      modifies this
      ensures Accounted()
      ensures ReplayFrom(old(View()), commands, clock) == if ok then Some(View()) else None
    {
      hide Accounted, Handle, AutoLog, Outcome;
      for i := 0 to |commands|
        invariant Accounted() && Tidy(View())
        invariant ReplayFrom(View(), commands[i..], clock) == ReplayFrom(old(View()), commands, clock)
      {
        assert commands[i..][1..] == commands[i + 1..] && commands[i..][0] == commands[i];
        HandleTidy(View(), commands[i], clock);
        var reply, gone := Dispatch(commands[i], clock);
        if reply.Error? {
          return false;
        }
      }
      ok := true;
    }

    /** A pass of active expiry: only what is recorded goes. */
    method ActiveExpiry(t: real) returns (removed: nat)
      requires Accounted()
      modifies this
      ensures Accounted()
      ensures forall clock :: Faithful(old(View()), old(log), clock) ==> Faithful(View(), log, clock)
      ensures forall clock :: LateFaithful(old(View()), old(log), clock) ==> LateFaithful(View(), log, clock)
      ensures |old(deadlines)| <= SAMPLE_SIZE ==> forall k :: k in data ==> !Due(View(), k, t)
      ensures Tidy(old(View())) ==> SweepTakes(old(View()), t, removed)
      ensures Used(old(Now()), Now(), [])
    {
      hide Accounted, Faithful, LateFaithful, Lost, SweepTakes, Used;
      ghost var before, gone := Now(), [];
      removed, gone := EvictExpiredSamples(t);
      LostDb(before, Now(), gone);
      UsedLost(before, Now(), gone);
      forall clock
        ensures Faithful(before.db, before.log, clock) ==> Faithful(View(), log, clock)
        ensures LateFaithful(before.db, before.log, clock) ==> LateFaithful(View(), log, clock)
      {
        DeletionsFaithful(before.db, before.log, clock, gone);
      }
    }

    /** `iter_items`: every key is looked at, and the due ones go; a snapshot lists the rest. */
    method IterItems(t: real) returns (items: map<Key, Value>)
      requires Accounted()
      modifies this
      ensures Accounted() && items == data
      ensures Tidy(old(View())) ==> View() == Alive(old(View()), t)
      ensures Tidy(old(View())) ==> forall k ::
        if IsThere(old(View()), k, t) then k in items && Untouched(old(View()), View(), k) else k !in items && IsGone(View(), k)
      ensures Used(old(Now()), Now(), [])
      ensures forall clock :: Faithful(old(View()), old(log), clock) ==> Faithful(View(), log, clock)
      ensures forall clock :: LateFaithful(old(View()), old(log), clock) ==> LateFaithful(View(), log, clock)
    {
      hide Accounted, Faithful, LateFaithful, Alive, Lost, Used, Untouched, IsGone;
      ghost var before, gone, order := Now(), [], [];
      LostNothing(before);
      var todo := data.Keys;
      while todo != {}
        invariant Accounted() && Lost(before, Now(), gone)
        invariant View() == PurgeAll(before.db, order, t) && KeySet(order) + todo == before.db.data.Keys
        decreases |todo|
      {
        var key :| key in todo;
        ghost var now := Now();
        StampsBelow();
        PurgeIfExpired(key, t);
        PurgeAllSnoc(before.db, order, key, t);
        if Due(now.db, key, t) && key in now.db.data {
          LostOne(now, Now(), key);
          LostMore(before, now, Now(), gone, [key]);
          gone := gone + [key];
        }
        order, todo := order + [key], todo - {key};
      }
      items := data;
      if Tidy(before.db) {
        PurgeAllIsAlive(before.db, order, t);
        AliveAreThere(before.db, t);
      }
      LostDb(before, Now(), gone);
      UsedLost(before, Now(), gone);
      forall clock
        ensures Faithful(before.db, before.log, clock) ==> Faithful(View(), log, clock)
        ensures LateFaithful(before.db, before.log, clock) ==> LateFaithful(View(), log, clock)
      {
        DeletionsFaithful(before.db, before.log, clock, gone);
      }
    }

    /** A whole run of client commands on a new store. `marks` are the states that the commands found,
    `gones` what was deleted for room, and `orderly` says that every command was when it came. Under
    LRU a key that was used after another never goes before it. */
    method Serve(requests: seq<Request>)
      returns (replies: seq<Reply>, ghost orderly: bool, ghost marks: seq<Mark>, ghost gones: seq<seq<Key>>)
      requires Accounted() && View() == EMPTY_DB && log == []
      modifies this
      ensures Accounted() && |marks| == |replies| == |gones| == |requests|
      ensures policy.AllKeysLru? ==> AllWent(requests, replies, marks, gones)
      ensures maxMemory <= 0 ==> View() == Run(requests).db && log == Run(requests).log && orderly
      ensures maxMemory <= 0 ==> forall i :: 0 <= i < |requests| ==> marks[i].db == Run(requests[..i]).db
      ensures orderly == forall i :: 0 <= i < |requests| ==> OrderlyAt(marks[i], requests[i].cmd, requests[i].t)
      ensures forall clock :: AllKeepRight(marks, requests, clock) ==> LateFaithful(View(), log, clock)
      ensures orderly && NoneSilent(marks, requests) ==> forall clock :: Before(log, clock) ==> Faithful(View(), log, clock)
      ensures AllModest(requests) ==> orderly && forall clock :: Faithful(View(), log, clock)
    {
      hide Used, OldestWent, AllWent, Uses, RecordUses, Targets, RecentlyUsed;
      hide Accounted, Run, Faithful, LateFaithful, OrderlyAt, Before, Silent, Breaks, Modest, Ended, KeepsRight;
      hide MSetBreaks, SetBreaks, Predictable, ServedRight, AllKeepRight, NoneSilent, AllModest, RunSoFar, Handle, Record;
      replies, orderly, marks, gones := [], true, [], [];
      ghost var start := Now();
      StampsBelow();
      RecentStart(start, requests, policy);
      ServedNothing(start, requests);
      RunNothing(requests, start);
      for i := 0 to |requests|
        invariant Accounted() && |marks| == |replies| == |gones| == i
        invariant RecentlyUsed(start, Now(), requests, replies, marks, gones, policy)
        invariant ServedRight(marks, requests, orderly, Now())
        invariant maxMemory <= 0 ==> orderly && RunSoFar(marks, requests, Now())
        invariant orderly == forall j :: 0 <= j < i ==> OrderlyAt(marks[j], requests[j].cmd, requests[j].t)
        invariant orderly ==> Tidy(View())
      {
        var request := requests[i];
        ghost var found, was, before := Now(), marks, orderly;
        UnlimitedIsOrderly(request.cmd, request.t);
        orderly, marks := orderly && OrderlyAt(found, request.cmd, request.t), marks + [found];
        StampsBelow();
        var reply;
        ghost var gone;
        reply, gone := Client(request.cmd, request.t, request.u);
        RecentStep(start, found, Now(), requests, replies, was, gones, reply, gone, policy);
        ServedStep(was, requests, before, found, reply, gone, Now());
        if maxMemory <= 0 {
          RunStep(was, requests, found, Now());
        }
        replies, gones := replies + [reply], gones + [gone];
      }
      RunAll(marks, requests, Now());
      RecentAll(start, Now(), requests, replies, marks, gones, policy);
      ServedAll(marks, requests, orderly, Now());
    }

    /** Without a limit the run is that of the model, as far as it has come. */
    static ghost predicate RunSoFar(marks: seq<Mark>, requests: seq<Request>, now: Mark) {
      && |marks| <= |requests| && Run(requests[..|marks|]) == Served(now.db, now.log)
      && forall j :: 0 <= j < |marks| ==> marks[j].db == Run(requests[..j]).db
    }

    static lemma RunNothing(requests: seq<Request>, start: Mark)
      requires start.db == EMPTY_DB && start.log == []
      ensures RunSoFar([], requests, start)
    {
      assert requests[..0] == [];
      NoneServed();
    }

    static lemma RunStep(marks: seq<Mark>, requests: seq<Request>, found: Mark, after: Mark)
      requires |marks| < |requests| && RunSoFar(marks, requests, found)
      requires var Request(cmd, t, u) := requests[|marks|];
        var h := Handle(found.db, cmd, t);
        var r := Record(h.db, cmd, h.reply, u);
        after.db == r.db && after.log == found.log + (h.log + r.log)
      ensures RunSoFar(marks + [found], requests, after)
    {
      hide Handle, Record, Run;
      var n := |marks|;
      assert requests[..n + 1] == requests[..n] + [requests[n]];
      RunSnoc(requests[..n], requests[n]);
    }

    static lemma RunAll(marks: seq<Mark>, requests: seq<Request>, now: Mark)
      requires |marks| == |requests|
      ensures RunSoFar(marks, requests, now) ==>
        Run(requests) == Served(now.db, now.log) && forall i :: 0 <= i < |requests| ==> marks[i].db == Run(requests[..i]).db
    {
      hide Run;
      assert requests[..|requests|] == requests;
    }

    /** What holds in the course of a run of the log and of the commands so far. */
    ghost predicate ServedRight(marks: seq<Mark>, requests: seq<Request>, orderly: bool, now: Mark) {
      && |marks| <= |requests| && (orderly ==> Tidy(now.db))
      && (forall clock :: AllKeepRight(marks, requests, clock) ==> LateFaithful(now.db, now.log, clock))
      && (orderly && NoneSilent(marks, requests) ==> forall clock :: Before(now.log, clock) ==> Faithful(now.db, now.log, clock))
      && (AllModest(requests) ==> orderly && NoneSilent(marks, requests) && now.db.deadlines == map[] && NoDeadlines(now.log))
    }

    lemma ServedNothing(start: Mark, requests: seq<Request>)
      requires start.db == EMPTY_DB && start.log == []
      ensures ServedRight([], requests, true, start) && Tidy(start.db)
    {
      hide Faithful, LateFaithful;
      NoneServed();
    }

    lemma ServedStep(marks: seq<Mark>, requests: seq<Request>, orderly: bool, found: Mark, reply: Reply, gone: seq<Key>, after: Mark)
      requires |marks| < |requests| && ServedRight(marks, requests, orderly, found)
      requires var Request(cmd, t, u) := requests[|marks|];
        && (OrderlyAt(found, cmd, t) && Tidy(found.db) ==>
              Ended(found.db, found.log, cmd, t, u, gone, reply, after.db, after.log))
        && (OrderlyAt(found, cmd, t) && !Silent(found.db, cmd, t) ==> forall clock ::
              Faithful(found.db, found.log, clock) && Before(after.log, clock) ==> Faithful(after.db, after.log, clock))
        && (forall clock :: LateFaithful(found.db, found.log, clock) && KeepsRight(found, Request(cmd, t, u), clock) ==>
              LateFaithful(after.db, after.log, clock))
        && (OrderlyAt(found, cmd, t) && Untimed(cmd) && found.db.deadlines == map[] ==>
              after.db.deadlines == map[] && (NoDeadlines(found.log) ==> NoDeadlines(after.log)))
      ensures var request := requests[|marks|];
        && ServedRight(marks + [found], requests, orderly && OrderlyAt(found, request.cmd, request.t), after)
        && (orderly && OrderlyAt(found, request.cmd, request.t) ==> Tidy(after.db))
    {
      hide Faithful, LateFaithful, OrderlyAt, Before, Silent, Modest, Ended, KeepsRight, AllKeepRight, NoneSilent;
      var Request(cmd, t, u) := requests[|marks|];
      MarksSnoc(marks, found, requests);
      if AllModest(requests) {
        ModestIsOrderly(found, cmd, t);
      }
      if orderly && OrderlyAt(found, cmd, t) {
        EndedTidy(found.db, found.log, cmd, t, u, gone, reply, after.db, after.log);
        forall clock | NoneSilent(marks + [found], requests) && Before(after.log, clock) ensures Faithful(after.db, after.log, clock) {
          BeforeEarlier(found.log, after.log, clock);
        }
      }
    }

    lemma ServedAll(marks: seq<Mark>, requests: seq<Request>, orderly: bool, now: Mark)
      requires ServedRight(marks, requests, orderly, now)
      ensures forall clock :: AllKeepRight(marks, requests, clock) ==> LateFaithful(now.db, now.log, clock)
      ensures orderly && NoneSilent(marks, requests) ==> forall clock :: Before(now.log, clock) ==> Faithful(now.db, now.log, clock)
      ensures AllModest(requests) ==> orderly && forall clock :: Faithful(now.db, now.log, clock)
    {
      hide Faithful, LateFaithful, Before, NoneSilent, AllKeepRight, Modest;
      if AllModest(requests) {
        forall clock ensures Faithful(now.db, now.log, clock) {
          BeforeNothing(now.log, clock);
        }
      }
    }

    /** Every command keeps the log right at that clock, on the store it found. */
    ghost predicate AllKeepRight(marks: seq<Mark>, requests: seq<Request>, clock: real) {
      forall i :: 0 <= i < |marks| && i < |requests| ==> KeepsRight(marks[i], requests[i], clock)
    }

    static ghost predicate NoneSilent(marks: seq<Mark>, requests: seq<Request>) {
      forall i :: 0 <= i < |marks| && i < |requests| ==> !Silent(marks[i].db, requests[i].cmd, requests[i].t)
    }

    lemma MarksSnoc(marks: seq<Mark>, m: Mark, requests: seq<Request>)
      requires |marks| < |requests|
      ensures var last := requests[|marks|];
        && (NoneSilent(marks + [m], requests) <==> NoneSilent(marks, requests) && !Silent(m.db, last.cmd, last.t))
        && forall clock :: AllKeepRight(marks + [m], requests, clock) <==>
             AllKeepRight(marks, requests, clock) && KeepsRight(m, last, clock)
    {
      hide Silent, KeepsRight;
      var more, n := marks + [m], |marks|;
      assert more[n] == m && forall i :: 0 <= i < n ==> more[i] == marks[i];
      forall clock
        ensures AllKeepRight(more, requests, clock) <==> AllKeepRight(marks, requests, clock) && KeepsRight(m, requests[n], clock)
      {
        if AllKeepRight(more, requests, clock) {
          forall i | 0 <= i < n ensures KeepsRight(marks[i], requests[i], clock) {
            assert more[i] == marks[i];
          }
        }
      }
      if NoneSilent(more, requests) {
        forall i | 0 <= i < n ensures !Silent(marks[i].db, requests[i].cmd, requests[i].t) {
          assert more[i] == marks[i];
        }
      }
    }

    /** Commands that keep the log faithful whatever the memory limit does. */
    ghost predicate Modest(cmd: Command) {
      && Untimed(cmd)
      && (cmd.MSet? ==> maxMemory <= 0 || policy.NoEviction? || NoneTooBig(cmd.pairs))
      && (cmd.Write? ==> AllOrNothing(cmd.op))
    }

    ghost predicate AllModest(requests: seq<Request>) {
      (policy.NoEviction? || policy.AllKeysLru?) && forall i :: 0 <= i < |requests| ==> Modest(requests[i].cmd)
    }

    lemma ModestIsOrderly(m: Mark, cmd: Command, t: real)
      requires Modest(cmd) && m.db.deadlines == map[] && (policy.NoEviction? || policy.AllKeysLru?)
      ensures OrderlyAt(m, cmd, t) && !Silent(m.db, cmd, t) && Untimed(cmd)
    {
    }

    lemma UnlimitedIsOrderly(cmd: Command, t: real)
      ensures maxMemory <= 0 ==> Orderly(cmd, t)
    {
    }
  }

  /** A server that loads a snapshot, stores a key and starts again: it has that key alone. */
  method SnapshotForgotten(a: Key, b: Key, clock: real) returns (store: DataStore, again: DataStore)
    requires a != b
    ensures fresh(store) && fresh(again) && store != again
    ensures store.View() == Db(map[b := StringValue([1, 1]), a := StringValue([1])], map[])
    ensures again.View() == Db(map[a := StringValue([1])], map[]) && again.log == store.log
  {
    hide DataStore.Accounted, LateFaithful, Late, Handle, Record, DataStore.Orderly, Breaks, Silent;
    var ok;
    ghost var gone;
    var set' := Set(a, [1], []);
    StringSetAt(b, [1, 1], clock);
    StringSetAt(a, [1], clock);
    ReplayOne(EMPTY_DB, Set(b, [1, 1], []), clock);
    ReplayOne(EMPTY_DB, set', clock);
    store, ok, gone := Load(StringLength, 0, NoEviction, [], [Set(b, [1, 1], [])], clock, clock);
    StringSetBeside(a, b, clock);
    var reply;
    reply, gone := store.Client(set', clock, clock);
    assert [] + ([] + [set']) == [set'];
    again, ok, gone := Load(StringLength, 0, NoEviction, store.log, [Set(b, [1, 1], [])], clock, clock);
  }

  lemma StringSetBeside(a: Key, b: Key, t: real)
    requires a != b
    ensures var db, cmd := Db(map[b := StringValue([1, 1])], map[]), Set(a, [1], []);
      var both := Db(map[b := StringValue([1, 1]), a := StringValue([1])], map[]);
      && Tidy(db) && DeleteAll(db, []) == db
      && Handle(db, cmd, t) == Handled(both, Number(0), []) && Record(both, cmd, Number(0), t) == Recorded(both, [cmd])
  {
    assert TtlOf([], NoTtl) == NoTtl;
    assert [] + ([Set(a, [1], [])] + []) == [Set(a, [1], [])];
  }

  /** With at most twenty deadlines a sweep leaves just the keys that are not due. */
  lemma SweptIsAlive(before: Mark, after: Mark, t: real, gone: seq<Key>)
    requires Tidy(before.db) && Lost(before, after, gone) && forall k :: k in gone ==> Due(before.db, k, t)
    requires forall k :: k in after.db.data ==> !Due(after.db, k, t)
    ensures after.db == Alive(before.db, t) && forall k :: k in gone ==> k !in after.db.data
  {
    DeleteAllIs(before.db, gone);
    assert forall k :: k in before.db.data && k !in gone ==> k in after.db.data;
    assert forall k :: k in after.db.deadlines ==> k in before.db.deadlines && after.db.deadlines[k] == before.db.deadlines[k];
  }

  lemma StillNoneDue(before: Mark, after: Mark, gone: seq<Key>, t: real)
    requires Lost(before, after, gone)
    ensures NoneDue(before.db, t) ==> NoneDue(after.db, t)
  {
    hide Lost;
    LostKeeps(before, after, gone);
    assert forall k :: Due(after.db, k, t) ==> Due(before.db, k, t);
  }

  lemma SweepTakesDue(db: Db, gone: seq<Key>, swept: nat, t: real)
    requires swept <= |gone| && DeleteAll(db, gone[..swept]) == Alive(db, t)
    ensures DueAreGone(db, gone, t)
  {
    hide DeleteAll, KeySet, Alive;
    var first := gone[..swept];
    AliveLacksDue(db, t);
    forall k | k in db.data && Due(db, k, t) ensures k in gone {
      MustBeGone(db, first, k);
      InPart(gone, swept, k);
    }
  }

  lemma AliveAreThere(db: Db, t: real)
    requires Tidy(db)
    ensures forall k ::
      if IsThere(db, k, t) then k in Alive(db, t).data && Untouched(db, Alive(db, t), k)
      else k !in Alive(db, t).data && IsGone(Alive(db, t), k)
  {
  }

  ghost predicate DueAreGone(db: Db, gone: seq<Key>, t: real) {
    forall k :: k in db.data && Due(db, k, t) ==> k in gone
  }

  lemma MustBeGone(db: Db, gone: seq<Key>, k: Key)
    requires k in db.data && k !in DeleteAll(db, gone).data
    ensures k in KeySet(gone)
  {
    hide DeleteAll, KeySet;
    DeleteAllIs(db, gone);
  }

  lemma AliveLacksDue(db: Db, t: real)
    ensures forall k :: Due(db, k, t) ==> k !in Alive(db, t).data
  {
  }

  lemma InPart(gone: seq<Key>, n: nat, k: Key)
    requires n <= |gone| && k in KeySet(gone[..n])
    ensures k in gone
  {
  }

  lemma SizeOfKeyThere(db: Db, sizeOf: Sizer, key: Key)
    ensures key in db.data ==> key in Sizes(db, sizeOf) && Sizes(db, sizeOf)[key] == sizeOf(key, db.data[key], key in db.deadlines)
  {
  }

  lemma LostSome(before: Mark, after: Mark, gone: seq<Key>)
    requires Lost(before, after, gone)
    ensures gone == [] ==> after == before
    ensures gone != [] ==> exists k :: k in gone && k in before.db.data
  {
    LostTick(before, after, gone);
    SomeKey(gone);
  }

  /** The end of a restart: a store that has replayed a log gets its limit back and makes room. The
  log is suspended meanwhile, so that what goes leaves no record. */
  method MakeRoom(replayed: DataStore, whole: bool, maxMemory: int, log: seq<Command>, t: real)
    returns (store: DataStore, ok: bool, ghost gone: seq<Key>)
    requires replayed.Accounted()
    ensures fresh(store) && store.Accounted() && store.log == log
    ensures store.sizeOf == replayed.sizeOf && store.maxMemory == maxMemory && store.policy == replayed.policy
    ensures store.View() == DeleteAll(replayed.View(), gone) && (ok ==> whole)
    ensures maxMemory <= 0 ==> gone == [] && ok == whole
    ensures maxMemory > 0 && ok ==> store.usedMemory <= maxMemory
    ensures maxMemory > 0 && whole && (replayed.policy.AllKeysLru? || replayed.policy.AllKeysRandom?) ==> ok
    ensures maxMemory > 0 && whole && DataStore.Sweepable(replayed.View(), t) ==>
      (ok && Spared(replayed.View(), gone, t) <==> Total(Sizes(Alive(replayed.View(), t), replayed.sizeOf)) <= maxMemory)
    ensures maxMemory > 0 && whole && Total(Sizes(replayed.View(), replayed.sizeOf)) <= maxMemory ==>
      ok && Spared(replayed.View(), gone, t)
    ensures maxMemory > 0 && ok && Spared(replayed.View(), gone, t) ==>
      Total(Sizes(Alive(replayed.View(), t), replayed.sizeOf)) <= maxMemory
  {
    hide DataStore.Accounted, Lost, Justified, Alive, Total, Sizes, DeleteAll, Newest, DataStore.Sweepable;
    store := new DataStore.Limited(replayed, maxMemory);
    ok, gone := whole, [];
    ghost var base := store.Now();
    LostNothing(base);
    store.SizesFollow();
    if whole {
      ghost var swept;
      ok, gone, swept := store.EnforceMaxMemory(None, t);
      AllSweptAreDue(base, store.sizeOf, maxMemory, store.policy, t, gone, swept);
      store.SizesFollow();
    }
    LostDb(base, store.Now(), gone);
    SparedIsPart(base.db, gone, store.sizeOf, t);
    store.log := log;
  }

  /** The keys that went were due. */
  ghost predicate Spared(db: Db, gone: seq<Key>, t: real) {
    forall k :: k in gone ==> k !in Alive(db, t).data
  }

  /** A restart from a log: a new store replays it, the limit set aside, and then makes room. */
  method Restart(sizeOf: Sizer, maxMemory: int, policy: Policy, log: seq<Command>, clock: real, t: real)
    returns (store: DataStore, ok: bool, ghost gone: seq<Key>)
    ensures fresh(store) && store.Accounted() && store.log == log
    ensures store.sizeOf == sizeOf && store.maxMemory == maxMemory && store.policy == policy
    ensures Replay(log, clock).None? ==> !ok
    ensures Replay(log, clock).Some? ==> store.View() == DeleteAll(Replay(log, clock).value, gone)
    ensures maxMemory <= 0 ==> gone == [] && ok == Replay(log, clock).Some?
    ensures maxMemory > 0 && ok ==> store.usedMemory <= maxMemory
    ensures forall db :: LateFaithful(db, log, clock) ==> store.View() == DeleteAll(Late(db, clock), gone)
    ensures maxMemory > 0 && (policy.AllKeysLru? || policy.AllKeysRandom?) && Replay(log, clock).Some? ==> ok
    ensures maxMemory > 0 && clock <= t ==> forall db ::
      LateFaithful(db, log, clock) && LateFaithful(db, log, t) && |Late(db, clock).deadlines| <= SAMPLE_SIZE ==>
      (ok && LateFaithful(store.View(), log, t) <==> Total(Sizes(Late(db, t), sizeOf)) <= maxMemory)
    ensures maxMemory > 0 && clock <= t ==> forall db :: LateFaithful(db, log, clock) && LateFaithful(db, log, t) ==>
      && (Total(Sizes(Late(db, clock), sizeOf)) <= maxMemory ==> ok && LateFaithful(store.View(), log, t))
      && (ok && LateFaithful(store.View(), log, t) ==> Total(Sizes(Late(db, t), sizeOf)) <= maxMemory)
  {
    hide DataStore.Accounted, ReplayFrom, Late, Alive, Total, Sizes, DeleteAll, Tidy;
    var replayed := new DataStore(sizeOf, 0, policy);
    TidyEmpty();
    ok := replayed.ReplayStream(log, clock);
    ghost var base := replayed.View();
    store, ok, gone := MakeRoom(replayed, ok, maxMemory, log, t);
    forall db | LateFaithful(db, log, clock) && LateFaithful(db, log, t) && clock <= t && maxMemory > 0
      ensures Late(db, clock) == base && Tidy(base)
      ensures LateFaithful(store.View(), log, t) <==> Spared(base, gone, t)
      ensures Alive(base, t) == Late(db, t)
    {
      UnrecordedIff(db, log, clock, t, gone);
      LateThenLater(db, clock, t);
      LateFaithfulTidy(db, log, clock);
      LateTidy(db, clock);
    }
  }

  /** `load`: from the log if there is anything in it, else from the snapshot, if there is one; a
  file that is not kept counts as empty. What comes from a snapshot does not enter the log, so the
  log is right afterwards only when none of it is left. */
  method Load(sizeOf: Sizer, maxMemory: int, policy: Policy, log: seq<Command>, snapshot: seq<Command>, clock: real, t: real)
    returns (store: DataStore, ok: bool, ghost gone: seq<Key>)
    ensures fresh(store) && store.Accounted() && store.log == log
    ensures store.sizeOf == sizeOf && store.maxMemory == maxMemory && store.policy == policy
    ensures var file := if log != [] then log else snapshot;
      && (Replay(file, clock).None? ==> !ok)
      && (Replay(file, clock).Some? ==> store.View() == DeleteAll(Replay(file, clock).value, gone))
      && (maxMemory <= 0 ==> gone == [] && ok == Replay(file, clock).Some?)
    ensures maxMemory > 0 && ok ==> store.usedMemory <= maxMemory
    ensures log == [] && ok ==> Tidy(store.View()) && forall later ::
      LateFaithful(store.View(), store.log, later) <==> forall k :: k in store.View().data ==> Stale(store.View(), k, later)
  {
    hide DataStore.Accounted, ReplayFrom, Late, Total, Sizes, DeleteAll, LateFaithful, Stale;
    if log != [] {
      store, ok, gone := Restart(sizeOf, maxMemory, policy, log, clock, t);
    } else {
      store, ok, gone := Restart(sizeOf, maxMemory, policy, snapshot, clock, t);
      store.log := [];
      if ok {
        ReplayTidy(EMPTY_DB, snapshot, clock);
        DeleteAllMinus(Replay(snapshot, clock).value, gone);
        forall later
          ensures LateFaithful(store.View(), [], later) <==> forall k :: k in store.View().data ==> Stale(store.View(), k, later)
        {
          EmptyLogIff(store.View(), later);
        }
      }
    }
  }

  lemma AllSweptAreDue(start: Mark, sizeOf: Sizer, limit: int, policy: Policy, t: real, gone: seq<Key>, swept: nat)
    requires Justified(start, sizeOf, limit, policy, t, gone, swept)
    ensures swept == |gone| ==> Spared(start.db, gone, t)
  {
    assert gone[..swept] == gone || swept < |gone|;
  }

  /** Deletions that spare the keys that are not due leave at least those. */
  lemma SparedIsPart(db: Db, gone: seq<Key>, sizeOf: Sizer, t: real)
    ensures Spared(db, gone, t) ==>
      Total(Sizes(Alive(db, t), sizeOf)) <= Total(Sizes(DeleteAll(db, gone), sizeOf))
  {
    hide Total, DeleteAll;
    DeleteAllIs(db, gone);
    if Spared(db, gone, t) {
      var alive, left := Alive(db, t), DeleteAll(db, gone);
      forall k | k in alive.data ensures k in left.data && (k in alive.deadlines <==> k in left.deadlines) {
        assert k !in KeySet(gone);
      }
      PartOf(Sizes(alive, sizeOf), Sizes(left, sizeOf));
    }
  }

  /** A restart that evicts: the key is gone, and the log still has it. */
  method RestartBreaks(b: Key, clock: real) returns (store: DataStore)
    ensures fresh(store) && store.Accounted() && store.View() == EMPTY_DB
    ensures Replay(store.log, clock) == Some(Db(map[b := StringValue([1, 1])], map[]))
  {
    hide DataStore.Accounted, LateFaithful, Late, Handle, Total;
    ghost var set', db := Set(b, [1, 1], []), Db(map[b := StringValue([1, 1])], map[]);
    StringSetAt(b, [1, 1], clock);
    ReplayOne(EMPTY_DB, set', clock);
    var ok;
    ghost var gone;
    store, ok, gone := Restart(StringLength, 1, AllKeysLru, [Set(b, [1, 1], [])], clock, clock);
    store.SizesFollow();
    DeleteAllIs(db, gone);
    if b in gone {
      assert store.View() == EMPTY_DB;
    } else {
      assert store.View() == db;
      SoleTotal(Sizes(db, StringLength), b);
      assert false;
    }
  }

  lemma TidyEmpty()
    ensures Tidy(EMPTY_DB)
  {
  }

  /** A store under LRU with room for three bytes, two of them in use, and a log that is right. */
  method TwoOfThree(b: Key, clock: real) returns (store: DataStore)
    ensures fresh(store) && store.Accounted()
    ensures store.maxMemory == 3 && store.policy == AllKeysLru && store.sizeOf == StringLength
    ensures store.View() == Db(map[b := StringValue([1, 1])], map[]) && LateFaithful(store.View(), store.log, clock)
  {
    hide DataStore.Accounted, LateFaithful, Outcome, DeleteAll;
    store := new DataStore(StringLength, 3, AllKeysLru);
    NothingYet(clock);
    StringsSized(store, b, [1, 1]);
    var set' := Set(b, [1, 1], []);
    assert TtlOf([], NoTtl) == NoTtl;
    var reply, gone := store.CmdSet(b, [1, 1], [], 0.0);
    ghost var h := Handled(store.View(), reply, Dels(gone));
    OneStringSet(b, [1, 1], gone, h);
    StepLateIff(EMPTY_DB, [], clock, set', 0.0, 0.0, gone, h);
    store.RecordCommand(set', reply, 0.0);
    assert [] + (h.log + Record(h.db, set', reply, 0.0).log) == store.log;
  }

  lemma OneStringSet(b: Key, value: Bytes, gone: seq<Key>, h: Handled)
    requires Outcome(EMPTY_DB, Set(b, value, []), 0.0, gone, h) && !h.reply.Error?
    ensures h.db == Db(map[b := StringValue(value)], map[]) && h.reply == Number(0)
    ensures Record(h.db, Set(b, value, []), h.reply, 0.0).db == h.db
  {
    NothingToDelete(gone);
    assert TtlOf([], NoTtl) == NoTtl;
  }

  /** A SET that is answered OK and loses its value. The deadline of the old value is past; the
  new value is stored, swept for the old deadline, and the new deadline is left without a key. */
  method SetLosesValue(b: Key) returns (store: DataStore, reply: Reply)
    ensures fresh(store) && store.Accounted() && store.maxMemory == 3 && store.policy == AllKeysLru
    ensures reply == Number(0) && store.View() == Db(map[], map[b := 3.0]) && !Tidy(store.View())
  {
    hide DataStore.Accounted, Outcome, DeleteAll, SetEnds;
    store := new DataStore(StringLength, 3, AllKeysLru);
    StringsSized(store, b, [1, 1]);
    assert forall n :: TtlOf([EX(1)], n) == Seconds(1.0) by {
      assert [EX(1)][1..] == [];
    }
    ghost var gone;
    reply, gone := store.CmdSet(b, [1, 1], [EX(1)], 0.0);
    SoleSetEnds(b, [1, 1], EMPTY_DB, 0.0, gone);
    ghost var timed := store.View();
    reply, gone := store.CmdSet(b, [1], [EX(1)], 2.0);
    SoleSetEnds(b, [1], timed, 2.0, gone);
  }

  /** An MSET that is answered OK and loses its value, for the same reason. */
  method MSetLosesValue(b: Key) returns (store: DataStore, reply: Reply)
    ensures fresh(store) && store.Accounted() && store.maxMemory == 3 && store.policy == AllKeysLru
    ensures reply == Number(0) && store.View() == EMPTY_DB
  {
    hide DataStore.Accounted, Outcome, DeleteAll, SetEnds, Fails, MSetLeaves, Displaced, Stored;
    store := new DataStore(StringLength, 3, AllKeysLru);
    StringsSized(store, b, [1, 1]);
    assert TtlOf([EX(1)], NoTtl) == Seconds(1.0) by {
      assert [EX(1)][1..] == [];
    }
    ghost var gone;
    reply, gone := store.CmdSet(b, [1, 1], [EX(1)], 0.0);
    SoleSetEnds(b, [1, 1], EMPTY_DB, 0.0, gone);
    SoleMSet(store.Now(), b, store.Memory());
    reply, gone := store.CmdMSet([(b, [1])], 2.0);
  }

  lemma SoleMSet(m: Mark, b: Key, room: Room)
    requires m.db == Db(map[b := StringValue([1, 1])], map[b := 1.0]) && room == Room(StringLength, 3, AllKeysLru)
    ensures !Fails(m, [(b, [1])], 2.0, room) && MSetLeaves(m, [(b, [1])], 2.0, room) == EMPTY_DB
  {
    hide Stays, Crowded;
    var pairs := [(b, [1])];
    assert pairs[..0] == [];
    var tried := Tried(m, b, [1], 2.0).db;
    assert Due(m.db, b, 2.0) && tried.data == map[] && tried.deadlines == map[];
    assert Imagined(m, pairs, 2.0, room).db == EMPTY_DB;
  }

  lemma SoleSetEnds(b: Key, value: Bytes, db: Db, t: real, gone: seq<Key>)
    requires db.data.Keys <= {b} && db.deadlines.Keys <= {b}
    ensures SetEnds(db, b, value, Seconds(1.0), t, gone, Number(0)) ==
      Db(if b in gone then map[] else map[b := StringValue(value)], map[b := t + 1.0])
  {
    hide DeleteAll;
    SetEndsIs(db, b, value, Seconds(1.0), t, gone);
    assert db.data[b := StringValue(value)] == map[b := StringValue(value)];
    SoleKeyLeft(b, StringValue(value), db.deadlines, gone);
    assert (db.deadlines - {b})[b := t + 1.0] == map[b := t + 1.0];
  }

  lemma SoleKeyLeft(b: Key, v: Value, deadlines: map<Key, real>, gone: seq<Key>)
    requires deadlines.Keys <= {b}
    ensures DeleteAll(Db(map[b := v], deadlines), gone) == if b in gone then EMPTY_DB else Db(map[b := v], deadlines)
  {
    DeleteAllIs(Db(map[b := v], deadlines), gone);
    assert b in KeySet(gone) <==> b in gone;
  }

  /** An MSET under LRU that breaks its log. Storing two bytes under `a` evicts `b`, which is
  recorded; then four for `b` are too many, and the rollback puts `b` back. */
  method FailedMSetBreaks(a: Key, b: Key, clock: real) returns (store: DataStore)
    requires a != b
    ensures fresh(store) && store.Accounted() && store.maxMemory == 3 && store.policy == AllKeysLru
    ensures store.View() == Db(map[b := StringValue([1, 1])], map[])
    ensures !LateFaithful(store.View(), store.log, clock)
  {
    hide DataStore.Accounted, LateFaithful, DeleteAll, DataStore.FailedAt, DataStore.TooBig, DataStore.CanFit, Stored, Handle;
    store := TwoOfThree(b, clock);
    ghost var before, pairs := store.Now(), [(a, [1, 1]), (b, [1, 1, 1, 1])];
    var reply, gone := store.CmdMSet([(a, [1, 1]), (b, [1, 1, 1, 1])], 0.0);
    StringsSized(store, b, [1, 1, 1, 1]);
    assert pairs[1] == (b, [1, 1, 1, 1]);
    assert reply.Error?;
    ghost var i, mid :| store.FailedAt(before, pairs, 0.0, gone, i, mid);
    SecondPair(store, before, mid, a, b, gone, i);
    BothThere(store, before, mid, a, b, gone);
    BothNamed(a, b);
    PutBackFaithfulIff(before.db, before.log, clock, [a, b], gone);
    BackAsItWas(before.db, a, b, gone);
  }

  lemma SecondPair(store: DataStore, before: Mark, mid: Mark, a: Key, b: Key, gone: seq<Key>, i: nat)
    requires store.sizeOf == StringLength && store.maxMemory == 3
    requires store.FailedAt(before, [(a, [1, 1]), (b, [1, 1, 1, 1])], 0.0, gone, i, mid)
    ensures i == 1
  {
    StringsSized(store, a, [1, 1]);
  }

  lemma BackAsItWas(db: Db, a: Key, b: Key, gone: seq<Key>)
    requires db == Db(map[b := StringValue([1, 1])], map[])
    ensures PutBack(db, [a, b], gone) == db
  {
  }

  /** A size: the length of a string. */
  function StringLength(key: Key, v: Value, timed: bool): nat {
    if v.StringValue? then |v.bytes| else 0
  }

  lemma StringsSized(store: DataStore, key: Key, value: Bytes)
    requires store.sizeOf == StringLength && store.maxMemory == 3
    ensures store.TooBig(key, value) <==> |value| > 3
    ensures store.CanFit(key, value) <==> |value| <= 3
  {
    assert store.sizeOf(key, StringValue(value), true) == store.sizeOf(key, StringValue(value), false) == |value|;
  }

  lemma NothingToDelete(gone: seq<Key>)
    ensures DeleteAll(EMPTY_DB, gone) == EMPTY_DB
  {
    DeleteAllIs(EMPTY_DB, gone);
  }

  lemma BothNamed(a: Key, b: Key)
    requires a != b
    ensures var pairs := [(a, [1, 1]), (b, [1, 1, 1, 1])];
      FirstTimes(pairs[..1]) == [a] && FirstTimes(pairs) == [a, b]
  {
    var pairs := [(a, [1, 1]), (b, [1, 1, 1, 1])];
    FirstTimesStep(pairs, 0);
    FirstTimesStep(pairs, 1);
    assert pairs[..2] == pairs;
  }

  /** Had `b` not been evicted there would be four bytes. */
  lemma BothThere(store: DataStore, before: Mark, mid: Mark, a: Key, b: Key, gone: seq<Key>)
    requires a != b && store.sizeOf == StringLength && store.maxMemory == 3
    requires before.db == Db(map[b := StringValue([1, 1])], map[])
    requires store.FailedAt(before, [(a, [1, 1]), (b, [1, 1, 1, 1])], 0.0, gone, 1, mid)
    ensures b in gone
  {
    if b !in gone {
      BothNamed(a, b);
      assert KeySet([a]) == {a};
      assert b in before.db.data - ({a} + KeySet(gone));
      assert b in mid.db.data - {a} && (mid.db.data - {a})[b] == StringValue([1, 1]);
      var sizes := Sizes(mid.db, store.sizeOf);
      SizeOfKey(mid.db, store.sizeOf, a);
      SizeOfKey(mid.db, store.sizeOf, b);
      TotalWithout(sizes, a);
      TotalWithout(sizes - {a}, b);
    }
  }

  lemma BooksWithout(db: Db, key: Key, sizeOf: Sizer)
    requires key in db.data
    ensures var sizes := Sizes(db, sizeOf);
      && key in sizes && sizes - {key} == Sizes(Aof.Delete(db, key), sizeOf)
      && Max0(Total(sizes) - sizes[key]) == Total(sizes - {key})
  {
    hide Total;
    DeleteSameBut(db, key);
    SizesSameBut(db, Aof.Delete(db, key), key, sizeOf);
    TotalWithout(Sizes(db, sizeOf), key);
  }

  function FinalOf(db: Db, key: Key): Command {
    if key in db.data && db.data[key].StringValue? then Set(key, db.data[key].bytes, []) else Del([key])
  }

  lemma RecordFinalStep(m: Mark, keys: seq<Key>, i: nat, u: real)
    requires i < |keys|
    ensures var purged := Purge(m.db, keys[i], u);
      var r, rest := RecordFinal(m.db, keys[i..], u), RecordFinal(purged, keys[i + 1..], u);
      && r.db == rest.db
      && ((m.log + PurgeLog(m.db, keys[i], u)) + [FinalOf(purged, keys[i])]) + rest.log == m.log + r.log
  {
    hide PurgeLog, Purge;
    assert keys[i..][1..] == keys[i + 1..];
    var purged := Purge(m.db, keys[i], u);
    OneMoreRecord(m.log, PurgeLog(m.db, keys[i], u), [FinalOf(purged, keys[i])], RecordFinal(purged, keys[i + 1..], u).log);
  }

  lemma NoFinalRecords(db: Db, u: real)
    ensures RecordFinal(db, [], u) == Recorded(db, [])
  {
  }

  lemma OneMoreRecord(start: seq<Command>, purges: seq<Command>, record: seq<Command>, rest: seq<Command>)
    ensures ((start + purges) + record) + rest == start + (purges + record + rest)
  {
  }

  lemma NoneServed()
    ensures Run([]) == Served(EMPTY_DB, []) && NoDeadlines([])
    ensures forall clock :: Faithful(EMPTY_DB, [], clock) && LateFaithful(EMPTY_DB, [], clock)
  {
    forall clock ensures Faithful(EMPTY_DB, [], clock) && LateFaithful(EMPTY_DB, [], clock) {
      NothingYet(clock);
    }
  }

  lemma BeforeNothing(log: seq<Command>, clock: real)
    requires NoDeadlines(log)
    ensures Before(log, clock)
  {
  }

  lemma BeforeEarlier(start: seq<Command>, log: seq<Command>, clock: real)
    requires Before(log, clock)
    ensures start <= log ==> Before(start, clock)
  {
  }
}
