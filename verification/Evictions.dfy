/** What an MSET makes of a store with a limit, said of the store before the call. */
module Evictions {
  import opened Ordering
  import opened Numbers
  import opened Commands
  import opened Aof
  import opened Accounting
  import opened Outcomes
  import opened LateReplay
  import opened Fidelity
  import opened Marks
  import opened MSetSteps

  predicate NotOlder(stamps: map<Key, nat>, k: Key, key: Key) {
    k in stamps && key in stamps && stamps[key] <= stamps[k]
  }

  /** The sizes of the keys used no earlier than `key`. */
  function Recent(m: Mark, key: Key, room: Room): map<Key, nat> {
    map k | k in m.db.data && NotOlder(m.stamps, k, key) :: room.sizeOf(k, m.db.data[k], k in m.db.deadlines)
  }

  /** The key and those used since do not fit. */
  ghost predicate Crowded(m: Mark, key: Key, room: Room) {
    key in m.db.data && Total(Recent(m, key, room)) > room.limit
  }

  // ----- one write -----

  /** Evicting oldest first, and no more than needed, takes just the keys that are crowded. */
  lemma EvictedIff(start: Mark, after: Mark, gone: seq<Key>, room: Room, key: Key)
    requires Lost(start, after, gone) && start.stamps.Keys == start.db.data.Keys && Apart(start.stamps)
    requires OldestFirst(start.stamps, gone, 0) && AllNeeded(start.db, room.sizeOf, room.limit, gone, 0)
    requires Total(Sizes(after.db, room.sizeOf)) <= room.limit && key in start.db.data
    ensures key in gone <==> Crowded(start, key, room)
    ensures key !in gone ==> forall k :: NotOlder(start.stamps, k, key) ==> k in after.db.data
  {
    hide Total, DeleteAll, AllNeeded, Apart;
    LostKeeps(start, after, gone);
    if key in gone {
      var i :| 0 <= i < |gone| && gone[i] == key;
      NeededAt(start.db, room.sizeOf, room.limit, gone, i);
      assert Oldest(start.stamps, gone, i);
      LeftAreRecent(start, gone, room, i);
    } else {
      forall k | NotOlder(start.stamps, k, key) ensures k in after.db.data {
        if i :| 0 <= i < |gone| && gone[i] == k {
          assert Oldest(start.stamps, gone, i) && key !in gone[..i];
          StampsDiffer(start.stamps, k, key);
        }
      }
      RecentPart(start, after, gone, room, key);
    }
  }

  lemma StampsDiffer(stamps: map<Key, nat>, j: Key, k: Key)
    requires Apart(stamps) && j in stamps && k in stamps && j != k
    ensures stamps[j] != stamps[k]
  {
  }

  /** What is left when a victim is picked is no older than it. */
  lemma LeftAreRecent(start: Mark, gone: seq<Key>, room: Room, i: nat)
    requires i < |gone| && Oldest(start.stamps, gone, i) && start.stamps.Keys == start.db.data.Keys
    ensures Total(Sizes(DeleteAll(start.db, gone[..i]), room.sizeOf)) <= Total(Recent(start, gone[i], room))
  {
    hide Total, DeleteAll;
    DeleteAllIs(start.db, gone[..i]);
    var left, recent := Sizes(DeleteAll(start.db, gone[..i]), room.sizeOf), Recent(start, gone[i], room);
    forall k | k in left ensures k in recent && recent[k] == left[k] {
      assert k in start.stamps && k !in gone[..i];
    }
    PartOf(left, recent);
  }

  lemma RecentPart(start: Mark, after: Mark, gone: seq<Key>, room: Room, key: Key)
    requires Lost(start, after, gone)
    requires forall k :: NotOlder(start.stamps, k, key) ==> k in after.db.data
    ensures Total(Recent(start, key, room)) <= Total(Sizes(after.db, room.sizeOf))
  {
    hide Total, DeleteAll;
    DeleteAllIs(start.db, gone);
    PartOf(Recent(start, key, room), Sizes(after.db, room.sizeOf));
  }

  lemma PartOf(part: map<Key, nat>, whole: map<Key, nat>)
    requires forall k :: k in part ==> k in whole && whole[k] == part[k]
    ensures Total(part) <= Total(whole)
  {
    TotalOfPart(whole, whole.Keys - part.Keys);
    assert whole - (whole.Keys - part.Keys) == part;
  }

  // ----- all the writes, imagined without evictions -----

  /** What a sweep leaves that takes every due key. */
  function SweptMark(m: Mark, t: real): Mark {
    var db := Alive(m.db, t);
    Mark(db, map k | k in m.stamps && k in db.data :: m.stamps[k], m.tick, m.log)
  }

  /** Crowded keys, and one key beside them, lose their deadlines. */
  ghost function Forgetting(m: Mark, key: Key, room: Room): Mark {
    m.(db := Db(m.db.data, map k | k in m.db.deadlines && k != key && !Crowded(m, k, room) :: m.db.deadlines[k]))
  }

  /** A pair of MSET being stored: written, and the due keys swept. */
  ghost function Tried(m: Mark, key: Key, value: Bytes, t: real): Mark {
    SweptMark(Written(m, key, StringValue(value)), t)
  }

  /** The pairs stored one after another, due keys swept, nothing evicted; but keys that would
  have been evicted lose their deadlines. */
  ghost function Imagined(m: Mark, pairs: seq<(Key, Bytes)>, t: real, room: Room): Mark {
    if pairs == [] then m
    else
      var (key, value) := pairs[|pairs| - 1];
      Forgetting(Tried(Imagined(m, pairs[..|pairs| - 1], t, room), key, value, t), key, room)
  }

  /** Pair `i` being stored, the pairs before it imagined. */
  ghost function Attempt(m: Mark, pairs: seq<(Key, Bytes)>, i: nat, t: real, room: Room): Mark
    requires i < |pairs|
  {
    Tried(Imagined(m, pairs[..i], t, room), pairs[i].0, pairs[i].1, t)
  }

  /** Pair `i` does not fit even alone. */
  ghost predicate Bursts(m: Mark, pairs: seq<(Key, Bytes)>, i: nat, t: real, room: Room) {
    i < |pairs| &&
    room.sizeOf(pairs[i].0, StringValue(pairs[i].1), pairs[i].0 in Imagined(m, pairs[..i], t, room).db.deadlines) > room.limit
  }

  /** Pair `i` is refused: it does not fit alone, or without eviction not beside the rest. */
  ghost predicate FailsAt(m: Mark, pairs: seq<(Key, Bytes)>, i: nat, t: real, room: Room) {
    i < |pairs| &&
    (Bursts(m, pairs, i, t, room)
    || (room.policy.NoEviction? && Total(Sizes(Attempt(m, pairs, i, t, room).db, room.sizeOf)) > room.limit))
  }

  ghost predicate Fails(m: Mark, pairs: seq<(Key, Bytes)>, t: real, room: Room) {
    exists i: nat :: FailsAt(m, pairs, i, t, room)
  }

  ghost predicate CrowdedAt(m: Mark, pairs: seq<(Key, Bytes)>, i: nat, key: Key, t: real, room: Room) {
    i < |pairs| && Crowded(Attempt(m, pairs, i, t, room), key, room)
  }

  ghost predicate CrowdedBy(m: Mark, pairs: seq<(Key, Bytes)>, n: nat, key: Key, t: real, room: Room) {
    exists i: nat :: i < n && CrowdedAt(m, pairs, i, key, t, room)
  }

  /** The key is deleted on the way: it is due, unless the first pair does not fit alone and
  nothing is swept; or after some pair before the first that is refused, the key and those used
  since do not fit together. */
  ghost predicate Displaced(m: Mark, pairs: seq<(Key, Bytes)>, key: Key, t: real, room: Room) {
    || (pairs != [] && Due(m.db, key, t) && !Bursts(m, pairs, 0, t, room))
    || exists i: nat :: CrowdedAt(m, pairs, i, key, t, room) && forall j: nat :: j <= i ==> !FailsAt(m, pairs, j, t, room)
  }

  /** After `n` pairs the key is there: it is imagined, and has not been crowded since it was
  last written. */
  ghost predicate Stays(m: Mark, pairs: seq<(Key, Bytes)>, n: nat, key: Key, t: real, room: Room)
    requires n <= |pairs|
  {
    key in Imagined(m, pairs[..n], t, room).db.data &&
    forall i: nat :: i < n && CrowdedAt(m, pairs, i, key, t, room) ==> WrittenAgain(pairs, i, n, key)
  }

  predicate WrittenAgain(pairs: seq<(Key, Bytes)>, i: nat, n: nat, key: Key)
    requires n <= |pairs|
  {
    exists j :: i < j < n && pairs[j].0 == key
  }

  /** What an MSET that succeeds leaves. */
  ghost function MSetLeaves(m: Mark, pairs: seq<(Key, Bytes)>, t: real, room: Room): Db {
    var all := Imagined(m, pairs, t, room).db;
    Db(map k | k in all.data && Stays(m, pairs, |pairs|, k, t, room) :: all.data[k], all.deadlines)
  }

  // ----- what is really there -----

  /** What is really there is as it is imagined. */
  ghost predicate Agrees(all: Mark, now: Mark) {
    && now.tick == all.tick && now.db.deadlines == all.db.deadlines
    && now.stamps.Keys == now.db.data.Keys && all.stamps.Keys == all.db.data.Keys
    && (forall k :: k in all.stamps ==> all.stamps[k] < all.tick)
    && (forall k :: k in now.db.data ==>
          k in all.db.data && now.db.data[k] == all.db.data[k] && now.stamps[k] == all.stamps[k])
    && (forall k :: k in all.db.deadlines && k in all.db.data ==> k in now.db.data)
  }

  /** With a key, all keys used since are there. */
  ghost predicate Closed(stamps: map<Key, nat>, there: set<Key>) {
    forall k, x :: k in there && NotOlder(stamps, x, k) ==> x in there
  }

  /** Really there are the keys used last of those imagined, as they are imagined. */
  ghost predicate Freshest(all: Mark, now: Mark) {
    Agrees(all, now) && Closed(all.stamps, now.db.data.Keys)
  }

  /** So a key that is there is crowded in both or in neither. */
  lemma RecentAlike(all: Mark, now: Mark, k: Key, room: Room)
    requires Freshest(all, now) && k in now.db.data
    ensures Recent(now, k, room) == Recent(all, k, room)
    ensures Crowded(now, k, room) <==> Crowded(all, k, room)
  {
    hide Total;
    forall x ensures x in now.db.data && NotOlder(now.stamps, x, k) <==> x in all.db.data && NotOlder(all.stamps, x, k) {
    }
    assert Recent(now, k, room) == Recent(all, k, room);
  }

  lemma WrittenFreshest(all: Mark, now: Mark, key: Key, v: Value)
    requires Freshest(all, now)
    ensures Freshest(Written(all, key, v), Written(now, key, v))
  {
    hide NotOlder, Agrees;
    WrittenAgrees(all, now, key, v);
    var there := now.db.data[key := v].Keys;
    forall k, x | k in there && NotOlder(all.stamps[key := all.tick], x, k) ensures x in there {
      YoungerThere(all, now, key, k, x);
    }
  }

  lemma WrittenAgrees(all: Mark, now: Mark, key: Key, v: Value)
    requires Agrees(all, now)
    ensures Agrees(Written(all, key, v), Written(now, key, v)) && now.tick == all.tick
  {
  }

  lemma YoungerThere(all: Mark, now: Mark, key: Key, k: Key, x: Key)
    requires Freshest(all, now) && (k in now.db.data || k == key)
    requires NotOlder(all.stamps[key := all.tick], x, k)
    ensures x == key || x in now.db.data
  {
    if k != key && x != key {
      assert NotOlder(all.stamps, x, k);
    }
  }

  lemma SweptFreshest(all: Mark, now: Mark, after: Mark, gone: seq<Key>, t: real)
    requires Freshest(all, now) && Lost(now, after, gone) && after.db == Alive(now.db, t)
    ensures Freshest(SweptMark(all, t), after)
  {
    hide NotOlder, Lost, SweptMark, Alive, Agrees;
    SweptStamps(all, t);
    SweptAgrees(all, now, after, gone, t);
    var swept := SweptMark(all, t);
    forall k, x | k in after.db.data && NotOlder(swept.stamps, x, k) ensures x in after.db.data {
      OldStamps(swept.stamps, all.stamps, x, k);
      SweptThere(all, now, after, t, k, x);
    }
  }

  lemma SweptThere(all: Mark, now: Mark, after: Mark, t: real, k: Key, x: Key)
    requires Freshest(all, now) && after.db == Alive(now.db, t)
    requires k in after.db.data && NotOlder(all.stamps, x, k) && x in SweptMark(all, t).stamps
    ensures x in after.db.data
  {
  }

  lemma SweptAgrees(all: Mark, now: Mark, after: Mark, gone: seq<Key>, t: real)
    requires Agrees(all, now) && Lost(now, after, gone) && after.db == Alive(now.db, t)
    ensures Agrees(SweptMark(all, t), after)
  {
    hide Lost;
    PartAgrees(all, now, after, gone);
  }

  lemma SweptStamps(m: Mark, t: real)
    ensures var swept := SweptMark(m, t);
      && (forall k :: k in swept.stamps <==> k in m.stamps && k in m.db.data && !Due(m.db, k, t))
      && (forall k :: k in swept.stamps ==> swept.stamps[k] == m.stamps[k])
  {
  }

  lemma OldStamps(part: map<Key, nat>, whole: map<Key, nat>, x: Key, k: Key)
    requires NotOlder(part, x, k) && forall j :: j in part ==> j in whole && whole[j] == part[j]
    ensures NotOlder(whole, x, k) && x in part
  {
  }

  /** Evictions of the crowded keys, and one deadline dropped. */
  lemma EvictedFreshest(all: Mark, now: Mark, after: Mark, gone: seq<Key>, key: Key, room: Room)
    requires Freshest(all, now) && Lost(now, after, gone) && Closed(now.stamps, after.db.data.Keys)
    requires forall k :: k in now.db.data ==> (k in gone <==> Crowded(all, k, room))
    ensures Freshest(Forgetting(all, key, room), after.(db := Db(after.db.data, after.db.deadlines - {key})))
  {
    hide Lost, Crowded, NotOlder, Forgetting, Agrees;
    ForgettingIs(all, key, room);
    EvictedAgrees(all, now, after, gone, key, room);
    forall k, x | k in after.db.data && NotOlder(all.stamps, x, k) ensures x in after.db.data {
      SameAge(all, now, after, gone, k, x);
    }
  }

  lemma SameAge(all: Mark, now: Mark, after: Mark, gone: seq<Key>, k: Key, x: Key)
    requires Freshest(all, now) && Lost(now, after, gone) && k in after.db.data && NotOlder(all.stamps, x, k)
    ensures NotOlder(now.stamps, x, k)
  {
    LostKeeps(now, after, gone);
  }

  lemma ForgettingIs(m: Mark, key: Key, room: Room)
    ensures var next := Forgetting(m, key, room);
      next.db.data == m.db.data && next.stamps == m.stamps && next.tick == m.tick && next.log == m.log
  {
  }

  lemma EvictedAgrees(all: Mark, now: Mark, after: Mark, gone: seq<Key>, key: Key, room: Room)
    requires Agrees(all, now) && Lost(now, after, gone)
    requires forall k :: k in now.db.data ==> (k in gone <==> Crowded(all, k, room))
    ensures Agrees(Forgetting(all, key, room), after.(db := Db(after.db.data, after.db.deadlines - {key})))
  {
    hide Crowded, Forgetting, Agrees, Lost;
    ForgettingIs(all, key, room);
    DeadlinesLeft(all, now, after, gone, key, room);
    PartAgrees(all, now, after, gone);
    AgreesWhen(Forgetting(all, key, room), after.(db := Db(after.db.data, after.db.deadlines - {key})));
  }

  lemma AgreesWhen(all: Mark, now: Mark)
    requires now.tick == all.tick && now.db.deadlines == all.db.deadlines
    requires now.stamps.Keys == now.db.data.Keys && all.stamps.Keys == all.db.data.Keys
    requires forall k :: k in all.stamps ==> all.stamps[k] < all.tick
    requires forall k :: k in now.db.data ==>
      k in all.db.data && now.db.data[k] == all.db.data[k] && now.stamps[k] == all.stamps[k]
    requires forall k :: k in all.db.deadlines && k in all.db.data ==> k in now.db.data
    ensures Agrees(all, now)
  {
  }

  /** What holds whatever was deleted. */
  lemma PartAgrees(all: Mark, now: Mark, after: Mark, gone: seq<Key>)
    requires Agrees(all, now) && Lost(now, after, gone)
    ensures after.tick == all.tick && after.stamps.Keys == after.db.data.Keys && all.stamps.Keys == all.db.data.Keys
    ensures forall k :: k in all.stamps ==> all.stamps[k] < all.tick
    ensures forall k :: k in after.db.data ==>
      k in all.db.data && after.db.data[k] == all.db.data[k] && after.stamps[k] == all.stamps[k]
  {
    hide Lost;
    LostKeeps(now, after, gone);
    LostTick(now, after, gone);
  }

  lemma DeadlinesLeft(all: Mark, now: Mark, after: Mark, gone: seq<Key>, key: Key, room: Room)
    requires Agrees(all, now) && Lost(now, after, gone)
    requires forall k :: k in now.db.data ==> (k in gone <==> Crowded(all, k, room))
    ensures Forgetting(all, key, room).db.deadlines == after.db.deadlines - {key}
    ensures forall k :: k in after.db.deadlines && k != key && k in all.db.data ==> k in after.db.data
  {
    hide Lost, Crowded, KeySet;
    DeadlinesLost(now, after, gone);
    CrowdedIsThere(all, room);
    var mine, left := Forgetting(all, key, room).db.deadlines, after.db.deadlines - {key};
    forall k ensures k in mine <==> k in left {
      assert k in all.db.data && k in all.db.deadlines ==> k in now.db.data;
    }
  }

  lemma DeadlinesLost(before: Mark, after: Mark, gone: seq<Key>)
    requires Lost(before, after, gone)
    ensures after.db.deadlines == before.db.deadlines - KeySet(gone)
    ensures forall k :: k in KeySet(gone) <==> k in gone && k in before.db.data
    ensures forall k :: k in before.db.data && k !in gone ==> k in after.db.data
  {
    DeleteAllIs(before.db, gone);
    assert KeySet(gone) * before.db.data.Keys == KeySet(gone);
  }

  lemma CrowdedIsThere(m: Mark, room: Room)
    ensures forall k :: Crowded(m, k, room) ==> k in m.db.data
  {
  }
  ghost predicate NoneDue(db: Db, t: real) {
    forall k :: !Due(db, k, t)
  }

  // ----- one pair -----

  /** The due keys swept, the oldest others evicted until the rest fits, and the deadline of the
  key dropped. */
  ghost predicate Trimmed(now: Mark, key: Key, value: Bytes, done: Mark, more: seq<Key>, t: real, room: Room) {
    var start := Written(now, key, StringValue(value));
    exists swept: nat, mid, after ::
      && swept <= |more| && Lost(start, mid, more[..swept]) && mid.db == Alive(start.db, t)
      && Made(mid, after, more[swept..], room)
      && done == after.(db := Db(after.db.data, after.db.deadlines - {key}))
  }

  /** Room made by evictions, oldest first and none too many. */
  ghost predicate Made(start: Mark, after: Mark, gone: seq<Key>, room: Room) {
    && Lost(start, after, gone) && OldestFirst(start.stamps, gone, 0)
    && AllNeeded(start.db, room.sizeOf, room.limit, gone, 0) && Total(Sizes(after.db, room.sizeOf)) <= room.limit
  }

  /** How one pair of MSET ends. */
  ghost predicate PairEnds(now: Mark, key: Key, value: Bytes, ok: bool, done: Mark, more: seq<Key>, t: real, room: Room) {
    var start := Written(now, key, StringValue(value));
    if room.sizeOf(key, StringValue(value), key in now.db.deadlines) > room.limit then !ok && more == []
    else
      && (ok <==> room.policy.NoEviction? ==> Total(Sizes(Alive(start.db, t), room.sizeOf)) <= room.limit)
      && (ok ==> Trimmed(now, key, value, done, more, t, room))
      && (!ok ==> forall k :: k in more <==> k in start.db.data && Due(start.db, k, t))
  }

  /** A sweep that takes every due key, and evictions after it. */
  lemma SplitSweep(start: Mark, after: Mark, more: seq<Key>, swept: nat, t: real, room: Room) returns (mid: Mark)
    requires Lost(start, after, more) && swept <= |more| && start.stamps.Keys == start.db.data.Keys
    requires forall k :: k in more ==> k in start.db.data
    requires DeleteAll(start.db, more[..swept]) == Alive(start.db, t)
    requires swept < |more| ==> OldestFirst(start.stamps, more, swept)
    requires AllNeeded(start.db, room.sizeOf, room.limit, more, swept) && Total(Sizes(after.db, room.sizeOf)) <= room.limit
    ensures Lost(start, mid, more[..swept]) && mid.db == Alive(start.db, t) && Made(mid, after, more[swept..], room)
  {
    hide Total, Sizes, Lost, DeleteAll, AllNeeded, OldestFirst;
    mid := SweptHalf(start, more[..swept]);
    assert more[..swept] + more[swept..] == more;
    LaterOldest(start.stamps, more, swept);
    LaterNeeded(start.db, more, swept, room);
    SecondHalf(start, mid, after, more[..swept], more[swept..]);
  }

  lemma SweptHalf(start: Mark, first: seq<Key>) returns (mid: Mark)
    requires forall k :: k in first ==> k in start.db.data
    ensures Lost(start, mid, first) && mid.db == DeleteAll(start.db, first) && mid.stamps == start.stamps - KeySet(first)
  {
    mid := Mark(DeleteAll(start.db, first), start.stamps - KeySet(first), start.tick, start.log + Dels(first));
  }

  lemma SecondHalf(start: Mark, mid: Mark, after: Mark, first: seq<Key>, rest: seq<Key>)
    requires Lost(start, mid, first) && Lost(start, after, first + rest) && start.stamps.Keys == start.db.data.Keys
    requires forall k :: k in rest ==> k in start.stamps && k !in KeySet(first)
    ensures Lost(mid, after, rest)
  {
    hide DeleteAll, Dels, KeySet;
    DeleteAllConcat(start.db, first, rest);
    DelsConcat(first, rest);
    MinusTwice(start.stamps, KeySet(first), KeySet(rest));
    DeleteAllIs(start.db, first);
    assert (start.log + Dels(first)) + Dels(rest) == start.log + (Dels(first) + Dels(rest));
  }

  lemma MinusTwice(m: map<Key, nat>, a: set<Key>, b: set<Key>)
    ensures (m - a) - b == m - (a + b)
  {
  }

  lemma DelsConcat(a: seq<Key>, b: seq<Key>)
    ensures Dels(a + b) == Dels(a) + Dels(b) && KeySet(a + b) == KeySet(a) + KeySet(b)
  {
  }

  lemma LaterOldest(stamps: map<Key, nat>, more: seq<Key>, swept: nat)
    requires swept <= |more| && (swept < |more| ==> OldestFirst(stamps, more, swept))
    ensures OldestFirst(stamps - KeySet(more[..swept]), more[swept..], 0)
    ensures forall k :: k in more[swept..] ==> k in stamps && k !in KeySet(more[..swept])
  {
    var rest := more[swept..];
    forall i: nat | i < |rest|
      ensures Oldest(stamps - KeySet(more[..swept]), rest, i) && rest[i] in stamps && rest[i] !in KeySet(more[..swept])
    {
      assert Oldest(stamps, more, swept + i);
      assert more[..swept + i] == more[..swept] + rest[..i];
    }
  }

  lemma LaterNeeded(db: Db, more: seq<Key>, swept: nat, room: Room)
    requires swept <= |more| && AllNeeded(db, room.sizeOf, room.limit, more, swept)
    ensures AllNeeded(DeleteAll(db, more[..swept]), room.sizeOf, room.limit, more[swept..], 0)
  {
    hide DeleteAll, Total, Sizes;
    var rest := more[swept..];
    forall i: nat | i < |rest| ensures Total(Sizes(DeleteAll(DeleteAll(db, more[..swept]), rest[..i]), room.sizeOf)) > room.limit {
      assert more[..swept + i] == more[..swept] + rest[..i];
      DeleteAllConcat(db, more[..swept], rest[..i]);
    }
  }

  /** A pair stored: what is left are the keys used last of those imagined. */
  lemma FreshestStep(all: Mark, now: Mark, key: Key, value: Bytes, done: Mark, more: seq<Key>, t: real, room: Room)
    requires Freshest(all, now) && Apart(now.stamps) && Trimmed(now, key, value, done, more, t, room)
    ensures Freshest(Forgetting(Tried(all, key, value, t), key, room), done) && NoneDue(done.db, t)
    ensures forall k :: k in now.db.data || k == key ==>
      (k in more <==> Due(now.db, k, t) || Crowded(Tried(all, key, value, t), k, room))
    ensures forall k :: k in done.db.data <==> (k in now.db.data || k == key) && k !in more
    ensures forall k :: k in more ==> k in now.db.data || k == key
  {
    hide Lost, Made, Freshest, Apart, Crowded, Alive, SweptMark, NoneDue;
    var v := StringValue(value);
    var start := Written(now, key, v);
    var swept: nat, mid, after :| swept <= |more| && Lost(start, mid, more[..swept]) && mid.db == Alive(start.db, t)
      && Made(mid, after, more[swept..], room)
      && done == after.(db := Db(after.db.data, after.db.deadlines - {key}));
    var w := Written(all, key, v);
    WrittenFreshest(all, now, key, v);
    SweptFreshest(w, start, mid, more[..swept], t);
    SweptTakes(start, mid, more[..swept], t);
    WrittenApart(all, now, key, v);
    LostApart(start, mid, more[..swept]);
    MadeFreshest(SweptMark(w, t), mid, after, more[swept..], key, room);
    assert more == more[..swept] + more[swept..];
    AliveNoneDue(start.db, mid, after, more[swept..], t, room);
    FewerDue(after.db, key, t);
    CrowdedNotDue(w, t, room);
  }

  lemma FewerDue(db: Db, key: Key, t: real)
    requires NoneDue(db, t)
    ensures NoneDue(Db(db.data, db.deadlines - {key}), t)
  {
    assert forall k :: Due(Db(db.data, db.deadlines - {key}), k, t) ==> Due(db, k, t);
  }

  lemma CrowdedNotDue(m: Mark, t: real, room: Room)
    ensures forall k :: Crowded(SweptMark(m, t), k, room) ==> k in m.db.data && !Due(m.db, k, t)
  {
  }

  lemma AliveNoneDue(db: Db, mid: Mark, after: Mark, gone: seq<Key>, t: real, room: Room)
    requires mid.db == Alive(db, t) && Made(mid, after, gone, room)
    ensures NoneDue(after.db, t)
  {
    hide Lost;
    LostKeeps(mid, after, gone);
  }

  lemma SweptTakes(start: Mark, mid: Mark, gone: seq<Key>, t: real)
    requires Lost(start, mid, gone) && mid.db == Alive(start.db, t)
    ensures forall k :: k in gone <==> k in start.db.data && Due(start.db, k, t)
    ensures forall k :: k in mid.db.data <==> k in start.db.data && !Due(start.db, k, t)
  {
    LostThere(start, mid, gone);
    LostKeeps(start, mid, gone);
  }

  lemma LostThere(before: Mark, after: Mark, gone: seq<Key>)
    requires Lost(before, after, gone)
    ensures forall k :: k in gone ==> k in before.db.data
  {
  }

  lemma WrittenApart(all: Mark, now: Mark, key: Key, v: Value)
    requires Freshest(all, now) && Apart(now.stamps)
    ensures var start := Written(now, key, v); Apart(start.stamps) && start.stamps.Keys == start.db.data.Keys
  {
  }

  lemma LostApart(before: Mark, after: Mark, gone: seq<Key>)
    requires Lost(before, after, gone) && Apart(before.stamps) && before.stamps.Keys == before.db.data.Keys
    ensures Apart(after.stamps) && after.stamps.Keys == after.db.data.Keys
  {
    hide DeleteAll;
    LostKeeps(before, after, gone);
  }

  lemma MadeFreshest(all: Mark, mid: Mark, after: Mark, gone: seq<Key>, key: Key, room: Room)
    requires Freshest(all, mid) && Apart(mid.stamps) && mid.stamps.Keys == mid.db.data.Keys && Made(mid, after, gone, room)
    ensures Freshest(Forgetting(all, key, room), after.(db := Db(after.db.data, after.db.deadlines - {key})))
    ensures forall k :: k in mid.db.data ==> (k in gone <==> Crowded(all, k, room))
    ensures forall k :: k in after.db.data <==> k in mid.db.data && k !in gone
    ensures forall k :: k in gone ==> k in mid.db.data
  {
    hide Lost, Total, Sizes, OldestFirst, AllNeeded, Apart, Crowded, NotOlder, Freshest;
    LostKeeps(mid, after, gone);
    LostThere(mid, after, gone);
    forall k | k in mid.db.data
      ensures k in gone <==> Crowded(all, k, room)
      ensures k !in gone ==> forall x :: NotOlder(mid.stamps, x, k) ==> x in after.db.data
    {
      EvictedIff(mid, after, gone, room, k);
      RecentAlike(all, mid, k, room);
    }
    EvictedFreshest(all, mid, after, gone, key, room);
  }

  // ----- all pairs -----

  /** The key has been deleted for one of the first `n` pairs. */
  ghost predicate Goes(m: Mark, pairs: seq<(Key, Bytes)>, n: nat, key: Key, t: real, room: Room) {
    (n > 0 && Due(m.db, key, t)) || CrowdedBy(m, pairs, n, key, t, room)
  }

  ghost predicate NoneFails(m: Mark, pairs: seq<(Key, Bytes)>, n: nat, t: real, room: Room) {
    forall j: nat :: j < n ==> !FailsAt(m, pairs, j, t, room)
  }

  /** After `n` pairs: what is there, and what has gone. */
  ghost predicate Traced(before: Mark, pairs: seq<(Key, Bytes)>, n: nat, now: Mark, gone: seq<Key>, t: real, room: Room) {
    && n <= |pairs| && Freshest(Imagined(before, pairs[..n], t, room), now) && NoneFails(before, pairs, n, t, room)
    && (n == 0 ==> now == before && gone == []) && (n > 0 ==> NoneDue(now.db, t))
    && (forall k :: k in now.db.data <==> Stays(before, pairs, n, k, t, room))
    && forall k :: k in before.db.data ==> (k in now.db.data || k in gone) && (k in gone <==> Goes(before, pairs, n, k, t, room))
  }

  lemma TracedStart(m: Mark, pairs: seq<(Key, Bytes)>, t: real, room: Room)
    requires m.stamps.Keys == m.db.data.Keys && forall k :: k in m.stamps ==> m.stamps[k] < m.tick
    ensures Traced(m, pairs, 0, m, [], t, room)
  {
    hide CrowdedAt, FailsAt;
    assert pairs[..0] == [];
  }

  /** Without eviction nothing that is imagined is missing. */
  lemma AllThere(before: Mark, pairs: seq<(Key, Bytes)>, n: nat, now: Mark, gone: seq<Key>, t: real, room: Room)
    requires Traced(before, pairs, n, now, gone, t, room) && room.policy.NoEviction?
    ensures now.db == Imagined(before, pairs[..n], t, room).db
  {
    hide Imagined, Attempt, Bursts, Crowded, Goes;
    var all := Imagined(before, pairs[..n], t, room);
    forall k | k in all.db.data ensures k in now.db.data {
      forall i: nat | i < n ensures !CrowdedAt(before, pairs, i, k, t, room) {
        assert !FailsAt(before, pairs, i, t, room);
        CrowdedIsOver(Attempt(before, pairs, i, t, room), k, room);
      }
      assert Stays(before, pairs, n, k, t, room);
    }
    assert now.db.data == all.db.data;
  }

  lemma CrowdedIsOver(m: Mark, key: Key, room: Room)
    ensures Crowded(m, key, room) ==> Total(Sizes(m.db, room.sizeOf)) > room.limit
  {
    hide Total;
    PartOf(Recent(m, key, room), Sizes(m.db, room.sizeOf));
  }

  /** Whether the next pair is refused. */
  lemma FailsNow(before: Mark, pairs: seq<(Key, Bytes)>, i: nat, now: Mark, gone: seq<Key>, t: real, room: Room)
    requires i < |pairs| && Traced(before, pairs, i, now, gone, t, room)
    ensures var (key, v) := (pairs[i].0, StringValue(pairs[i].1));
      var bursts := room.sizeOf(key, v, key in now.db.deadlines) > room.limit;
      && (Bursts(before, pairs, i, t, room) <==> bursts)
      && (FailsAt(before, pairs, i, t, room) <==>
            bursts || (room.policy.NoEviction? && Total(Sizes(Alive(Written(now, key, v).db, t), room.sizeOf)) > room.limit))
  {
    hide Imagined, Stays, Goes, NoneFails, Total, Sizes, Alive;
    if room.policy.NoEviction? {
      AllThere(before, pairs, i, now, gone, t, room);
    }
  }

  lemma ImaginedStep(m: Mark, pairs: seq<(Key, Bytes)>, i: nat, t: real, room: Room)
    requires i < |pairs|
    ensures Imagined(m, pairs[..i + 1], t, room) == Forgetting(Attempt(m, pairs, i, t, room), pairs[i].0, room)
  {
    assert pairs[..i + 1][..i] == pairs[..i];
  }

  lemma CrowdedByStep(m: Mark, pairs: seq<(Key, Bytes)>, i: nat, key: Key, t: real, room: Room)
    requires i < |pairs|
    ensures CrowdedBy(m, pairs, i + 1, key, t, room) <==>
      CrowdedBy(m, pairs, i, key, t, room) || Crowded(Attempt(m, pairs, i, t, room), key, room)
  {
    hide Crowded, Attempt;
    assert CrowdedAt(m, pairs, i, key, t, room) <==> Crowded(Attempt(m, pairs, i, t, room), key, room);
  }

  lemma StaysStep(m: Mark, pairs: seq<(Key, Bytes)>, i: nat, key: Key, t: real, room: Room)
    requires i < |pairs|
    ensures Stays(m, pairs, i + 1, key, t, room) <==>
      && (Stays(m, pairs, i, key, t, room) || key == pairs[i].0)
      && key in Attempt(m, pairs, i, t, room).db.data && !Crowded(Attempt(m, pairs, i, t, room), key, room)
  {
    hide Crowded, Tried;
    ImaginedStep(m, pairs, i, t, room);
    assert CrowdedAt(m, pairs, i, key, t, room) <==> Crowded(Attempt(m, pairs, i, t, room), key, room);
    StillImagined(Imagined(m, pairs[..i], t, room), pairs[i].0, pairs[i].1, t, key);
    assert !WrittenAgain(pairs, i, i + 1, key);
    forall j: nat | j < i
      ensures WrittenAgain(pairs, j, i + 1, key) <==> WrittenAgain(pairs, j, i, key) || key == pairs[i].0
    {
      if WrittenAgain(pairs, j, i, key) {
        var n :| j < n < i && pairs[n].0 == key;
        assert j < n < i + 1;
      }
      if key == pairs[i].0 {
        assert j < i < i + 1 && pairs[i].0 == key;
      }
    }
  }

  lemma StillImagined(m: Mark, key: Key, value: Bytes, t: real, k: Key)
    ensures k in Tried(m, key, value, t).db.data <==> (k in m.db.data || k == key) && !Due(m.db, k, t)
  {
  }

  lemma TracedStep(before: Mark, pairs: seq<(Key, Bytes)>, i: nat, now: Mark, gone: seq<Key>, done: Mark, more: seq<Key>,
      t: real, room: Room)
    requires i < |pairs| && Traced(before, pairs, i, now, gone, t, room) && Apart(now.stamps)
    requires !FailsAt(before, pairs, i, t, room) && Trimmed(now, pairs[i].0, pairs[i].1, done, more, t, room)
    ensures Traced(before, pairs, i + 1, done, gone + more, t, room)
  {
    hide Trimmed, Apart, FailsAt, Imagined, Crowded, CrowdedBy, Stays, Tried, Forgetting, NoneDue, Closed, Alive;
    var (key, value) := pairs[i];
    var all := Imagined(before, pairs[..i], t, room);
    FreshestStep(all, now, key, value, done, more, t, room);
    ImaginedStep(before, pairs, i, t, room);
    DueNow(before, now, i, t);
    forall k ensures k in done.db.data <==> Stays(before, pairs, i + 1, k, t, room) {
      StaysStep(before, pairs, i, k, t, room);
      StillImagined(all, key, value, t, k);
    }
    forall k | k in before.db.data
      ensures k in done.db.data || k in gone + more
      ensures k in gone + more <==> Goes(before, pairs, i + 1, k, t, room)
    {
      CrowdedByStep(before, pairs, i, k, t, room);
    }
  }

  /** Only the first pair finds keys that are due. */
  lemma DueNow(before: Mark, now: Mark, i: nat, t: real)
    requires (i == 0 ==> now == before) && (i > 0 ==> NoneDue(now.db, t))
    ensures forall k :: Due(now.db, k, t) <==> i == 0 && Due(before.db, k, t)
  {
  }

  // ----- how it ends -----

  /** An MSET that fails, at pair `n`, and what went for that pair. */
  lemma MSetFails(before: Mark, pairs: seq<(Key, Bytes)>, n: nat, now: Mark, gone: seq<Key>, done: Mark, more: seq<Key>,
      t: real, room: Room)
    requires n < |pairs| && Traced(before, pairs, n, now, gone, t, room)
    requires PairEnds(now, pairs[n].0, pairs[n].1, false, done, more, t, room)
    ensures Fails(before, pairs, t, room)
    ensures forall k :: k in before.db.data ==> (k in gone + more <==> Displaced(before, pairs, k, t, room))
  {
    hide Imagined, Freshest, Attempt, CrowdedAt, Stays, Total, Sizes, Alive;
    FailsNow(before, pairs, n, now, gone, t, room);
    assert FailsAt(before, pairs, n, t, room);
    DueNow(before, now, n, t);
    forall k | k in before.db.data ensures k in gone + more <==> Displaced(before, pairs, k, t, room) {
      DisplacedAt(before, pairs, n, k, t, room);
      assert n > 0 ==> !FailsAt(before, pairs, 0, t, room);
    }
  }

  /** One pair more, refused or not. */
  lemma PairTraced(before: Mark, pairs: seq<(Key, Bytes)>, i: nat, now: Mark, gone: seq<Key>, ok: bool, done: Mark,
      more: seq<Key>, t: real, room: Room)
    requires i < |pairs| && Traced(before, pairs, i, now, gone, t, room) && Apart(now.stamps)
    requires PairEnds(now, pairs[i].0, pairs[i].1, ok, done, more, t, room)
    ensures ok ==> Traced(before, pairs, i + 1, done, gone + more, t, room)
    ensures !ok ==> Fails(before, pairs, t, room)
    ensures !ok ==> forall k :: k in before.db.data ==> (k in gone + more <==> Displaced(before, pairs, k, t, room))
  {
    hide Traced, Trimmed, FailsAt, Displaced, Total, Sizes, Alive;
    FailsNow(before, pairs, i, now, gone, t, room);
    if ok {
      TracedStep(before, pairs, i, now, gone, done, more, t, room);
    } else {
      MSetFails(before, pairs, i, now, gone, done, more, t, room);
    }
  }

  lemma DisplacedAt(m: Mark, pairs: seq<(Key, Bytes)>, n: nat, key: Key, t: real, room: Room)
    requires n < |pairs| && FailsAt(m, pairs, n, t, room) && NoneFails(m, pairs, n, t, room)
    ensures Displaced(m, pairs, key, t, room) <==>
      (Due(m.db, key, t) && !Bursts(m, pairs, 0, t, room)) || CrowdedBy(m, pairs, n, key, t, room)
  {
    hide FailsAt, CrowdedAt;
    if i: nat :| CrowdedAt(m, pairs, i, key, t, room) && forall j: nat :: j <= i ==> !FailsAt(m, pairs, j, t, room) {
      assert i < n;
    }
  }

  /** An MSET that succeeds. */
  lemma MSetSucceeds(before: Mark, pairs: seq<(Key, Bytes)>, now: Mark, gone: seq<Key>, t: real, room: Room)
    requires Traced(before, pairs, |pairs|, now, gone, t, room)
    ensures !Fails(before, pairs, t, room) && now.db == MSetLeaves(before, pairs, t, room)
  {
    hide Imagined, Closed, Stays, Goes, CrowdedBy;
    assert pairs[..|pairs|] == pairs;
    var left := MSetLeaves(before, pairs, t, room);
    assert now.db.data.Keys == left.data.Keys;
    assert now.db.data == left.data;
  }

  /** Where there is room for all that is imagined, nothing goes that is not due. */
  lemma RoomForAll(m: Mark, pairs: seq<(Key, Bytes)>, key: Key, t: real, room: Room)
    requires forall i: nat :: i < |pairs| ==>
      Total(Sizes(Attempt(m, pairs, i, t, room).db, room.sizeOf)) <= room.limit || FailsAt(m, pairs, i, t, room)
    ensures Displaced(m, pairs, key, t, room) ==> Due(m.db, key, t)
  {
    hide Total, Attempt, FailsAt, Crowded;
    forall i: nat | CrowdedAt(m, pairs, i, key, t, room) ensures FailsAt(m, pairs, i, t, room) {
      CrowdedIsOver(Attempt(m, pairs, i, t, room), key, room);
    }
  }

  // ----- without eviction -----

  /** The pairs whose values are there in the end: the sweep takes the first if its key is due. */
  function Kept(db: Db, pairs: seq<(Key, Bytes)>, t: real): seq<(Key, Bytes)> {
    if pairs != [] && Due(db, pairs[0].0, t) then pairs[1..] else pairs
  }

  /** Without eviction an MSET that succeeds sweeps the due keys and stores the rest. */
  lemma {:induction false} NoEvictionImagines(m: Mark, pairs: seq<(Key, Bytes)>, n: nat, t: real, room: Room)
    requires 0 < n <= |pairs| && NoneFails(m, pairs, n, t, room) && room.policy.NoEviction? && Tidy(m.db)
    ensures var all := Imagined(m, pairs[..n], t, room).db;
      all == SetStrings(Alive(m.db, t), Kept(m.db, pairs[..n], t)) && NoneDue(all, t)
  {
    hide Alive, NoneDue, Crowded, FailsAt, Bursts, Tried, Forgetting, SetStrings;
    var i := n - 1;
    var (key, value) := pairs[i];
    assert !FailsAt(m, pairs, i, t, room);
    ImaginedStep(m, pairs, i, t, room);
    NothingCrowded(m, pairs, i, t, room);
    if i == 0 {
      assert pairs[..0] == [] && pairs[..1][1..] == [] && pairs[..1] == [(key, value)];
      FirstStored(m, key, value, t, room);
    } else {
      NoEvictionImagines(m, pairs, i, t, room);
      var all := Imagined(m, pairs[..i], t, room);
      LaterStored(all, key, value, t, room);
      var kept := Kept(m.db, pairs[..i], t);
      assert Kept(m.db, pairs[..n], t) == kept + [(key, value)];
      SetStringsLast(Alive(m.db, t), kept, key, value);
    }
  }

  lemma NothingCrowded(m: Mark, pairs: seq<(Key, Bytes)>, i: nat, t: real, room: Room)
    requires i < |pairs| && !FailsAt(m, pairs, i, t, room) && room.policy.NoEviction?
    ensures forall k :: !Crowded(Attempt(m, pairs, i, t, room), k, room)
  {
    hide Attempt, Bursts, Total, Crowded;
    forall k ensures !Crowded(Attempt(m, pairs, i, t, room), k, room) {
      CrowdedIsOver(Attempt(m, pairs, i, t, room), k, room);
    }
  }

  lemma SetStringsLast(db: Db, pairs: seq<(Key, Bytes)>, key: Key, value: Bytes)
    ensures SetStrings(db, pairs + [(key, value)]) == SetString(SetStrings(db, pairs), key, value)
  {
    SetStringsSnoc(db, pairs + [(key, value)], |pairs|);
    assert (pairs + [(key, value)])[..|pairs|] == pairs;
    assert (pairs + [(key, value)])[..|pairs| + 1] == pairs + [(key, value)];
  }

  lemma NothingForgotten(m: Mark, key: Key, room: Room)
    requires forall k :: !Crowded(m, k, room)
    ensures Forgetting(m, key, room).db == Db(m.db.data, m.db.deadlines - {key})
  {
    hide Crowded;
  }

  lemma FirstStored(m: Mark, key: Key, value: Bytes, t: real, room: Room)
    requires Tidy(m.db) && forall k :: !Crowded(Tried(m, key, value, t), k, room)
    ensures var all := Forgetting(Tried(m, key, value, t), key, room).db;
      && all == (if Due(m.db, key, t) then Alive(m.db, t) else SetString(Alive(m.db, t), key, value))
      && NoneDue(all, t)
    ensures SetStrings(Alive(m.db, t), []) == Alive(m.db, t)
    ensures SetStrings(Alive(m.db, t), [(key, value)]) == SetString(Alive(m.db, t), key, value)
  {
    hide Crowded, Forgetting;
    NothingForgotten(Tried(m, key, value, t), key, room);
    SetStringsLast(Alive(m.db, t), [], key, value);
    assert [] + [(key, value)] == [(key, value)];
    var all := Forgetting(Tried(m, key, value, t), key, room).db;
    if Due(m.db, key, t) {
      assert all.data == Alive(m.db, t).data;
      assert all.deadlines == Alive(m.db, t).deadlines;
    } else {
      assert all.data == Alive(m.db, t).data[key := StringValue(value)];
      assert all.deadlines == Alive(m.db, t).deadlines - {key};
    }
  }

  lemma LaterStored(m: Mark, key: Key, value: Bytes, t: real, room: Room)
    requires NoneDue(m.db, t) && forall k :: !Crowded(Tried(m, key, value, t), k, room)
    ensures var all := Forgetting(Tried(m, key, value, t), key, room).db; all == SetString(m.db, key, value) && NoneDue(all, t)
  {
    hide Crowded, Forgetting;
    NothingForgotten(Tried(m, key, value, t), key, room);
    var w := Written(m, key, StringValue(value)).db;
    assert forall k :: Due(w, k, t) ==> Due(m.db, k, t);
    assert Alive(w, t).data == w.data && Alive(w, t).deadlines == w.deadlines;
    assert forall k :: Due(SetString(m.db, key, value), k, t) ==> Due(m.db, k, t);
  }

  /** So without eviction the whole result of an MSET that succeeds. */
  lemma NoEvictionLeaves(before: Mark, pairs: seq<(Key, Bytes)>, now: Mark, gone: seq<Key>, t: real, room: Room)
    requires pairs != [] && Traced(before, pairs, |pairs|, now, gone, t, room)
    requires room.policy.NoEviction? && Tidy(before.db)
    ensures now.db == SetStrings(Alive(before.db, t), Kept(before.db, pairs, t))
  {
    hide Imagined, Stays, Goes, Alive, Freshest, NoneFails, Kept, SetStrings;
    AllThere(before, pairs, |pairs|, now, gone, t, room);
    NoEvictionImagines(before, pairs, |pairs|, t, room);
    assert pairs[..|pairs|] == pairs;
  }

  /** It loses a value if and only if its first key is due and not named again. */
  lemma LosesIff(db: Db, pairs: seq<(Key, Bytes)>, t: real, key: Key)
    requires pairs != [] && key in FirstTimes(pairs)
    ensures var done := SetStrings(Alive(db, t), Kept(db, pairs, t));
      && (key !in done.data <==> key == pairs[0].0 && Due(db, key, t) && key !in FirstTimes(pairs[1..]))
      && (key in done.data ==> Find(done.data, key) == Find(SetStrings(db, pairs).data, key))
  {
    var base := Alive(db, t);
    FirstTimesKeys(pairs);
    FirstTimesKeys(pairs[1..]);
    SetStringsKeys(base, pairs);
    SetStringsKeys(base, pairs[1..]);
    forall k | k in FirstTimes(pairs) ensures k == pairs[0].0 || k in FirstTimes(pairs[1..]) {
      var i :| 0 <= i < |pairs| && pairs[i].0 == k;
      assert i > 0 ==> pairs[1..][i - 1].0 == k;
    }
    SetStringsAlike(base, db, pairs, key);
    if key in FirstTimes(pairs[1..]) {
      SetStringsAlike(base, SetString(db, pairs[0].0, pairs[0].1), pairs[1..], key);
    }
  }

  // ----- the log -----

  /** How an MSET ends under a limit, with LRU or without eviction, when a sweep takes every due
  key. */
  ghost predicate MSetEnds(before: Mark, pairs: seq<(Key, Bytes)>, gone: seq<Key>, reply: Reply, after: Db, t: real, room: Room) {
    && (reply.Error? <==> pairs == [] || Fails(before, pairs, t, room))
    && (!reply.Error? ==>
          && reply == Number(0) && after == MSetLeaves(before, pairs, t, room)
          && Stored(DeleteAll(before.db, gone), pairs, gone, after))
    && (reply.Error? ==>
          && after == PutBack(before.db, FirstTimes(pairs), gone)
          && forall k :: k in before.db.data ==> (k in gone <==> Displaced(before, pairs, k, t, room)))
  }

  /** The MSET will fail, and puts back a key that it displaced and whose deadline is not past. */
  ghost predicate MSetBreaks(before: Mark, pairs: seq<(Key, Bytes)>, clock: real, t: real, room: Room) {
    Fails(before, pairs, t, room) && exists k ::
      k in FirstTimes(pairs) && k in before.db.data && !Stale(before.db, k, clock) && Displaced(before, pairs, k, t, room)
  }

  /** No key it names is both there and displaced. */
  ghost predicate Spares(before: Mark, pairs: seq<(Key, Bytes)>, t: real, room: Room) {
    forall k :: k in FirstTimes(pairs) && k in before.db.data ==> !Displaced(before, pairs, k, t, room)
  }

  lemma NothingDisplaced(before: Mark, t: real, room: Room)
    ensures !Fails(before, [], t, room) && forall k :: !Displaced(before, [], k, t, room)
  {
  }

  /** An MSET, handled and recorded, keeps the log right at a clock if and only if it does not
  break there: what that says is about the store before the call. */
  lemma MSetLateIff(before: Mark, pairs: seq<(Key, Bytes)>, t: real, u: real, gone: seq<Key>, reply: Reply, after: Db,
      clock: real, room: Room)
    requires LateFaithful(before.db, before.log, clock) && MSetEnds(before, pairs, gone, reply, after, t, room)
    ensures var r := Record(after, MSet(pairs), reply, u);
      LateFaithful(r.db, before.log + (Dels(gone) + r.log), clock) <==> !MSetBreaks(before, pairs, clock, t, room)
  {
    hide LateFaithful, Fails, Displaced, Stored, PutBack, DeleteAll, FirstTimes, Outcome, Record, Stale, MSetLeaves;
    LateFaithfulTidy(before.db, before.log, clock);
    var cmd, keys := MSet(pairs), FirstTimes(pairs);
    if reply.Error? {
      NothingDisplaced(before, t, room);
      NothingRecorded(after, cmd, u);
      assert Dels(gone) + [] == Dels(gone);
      PutBackFaithfulIff(before.db, before.log, clock, keys, gone);
    } else {
      var h := Handled(after, reply, Dels(gone));
      MSetStored(before.db, pairs, t, gone, after);
      StepLateIff(before.db, before.log, clock, cmd, t, u, gone, h);
    }
  }

  lemma MSetStored(db: Db, pairs: seq<(Key, Bytes)>, t: real, gone: seq<Key>, after: Db)
    requires Stored(DeleteAll(db, gone), pairs, gone, after)
    ensures Outcome(db, MSet(pairs), t, gone, Handled(after, Number(0), Dels(gone)))
  {
    assert [] + Dels(gone) == Dels(gone);
  }
}
