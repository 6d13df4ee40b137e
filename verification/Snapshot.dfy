/** Snapshots: the commands that rebuild a keyspace, and what replaying them gives. */
module Snapshot {
  import opened Ordering
  import opened Numbers
  import opened Commands
  import opened Aof
  import opened OpenAddressing
  import opened Outcomes
  import opened LateReplay
  import opened Survival
  import ZSets
  import Fidelity

  /** What the snapshot reads out of one value: a collection comes in some order. */
  datatype Listing =
    | StringListing(bytes: Bytes)
    | HashListing(pairs: seq<(Text, Text)>)
    | ListListing(items: seq<Text>)
    | SetListing(members: seq<Text>)
    | ZSetListing(entries: seq<Entry>)

  datatype Item = Item(key: Key, listing: Listing)

  /** The listing is what `items` of the value's own structure may return. */
  ghost predicate Lists(l: Listing, v: Value) {
    match v
    case StringValue(bytes) => l == StringListing(bytes)
    case HashValue(m) => l.HashListing? && ListsMap(l.pairs, m)
    case ListValue(s) => l == ListListing(s)
    case SetValue(s) => l.SetListing? && Members(l.members) == s
    case ZSetValue(m) => l.ZSetListing? && ZSets.Holds(l.entries, m)
  }

  function Keys(items: seq<Item>): set<Key> {
    set i | 0 <= i < |items| :: items[i].key
  }

  ghost predicate ListsAll(items: seq<Item>, data: map<Key, Value>) {
    && (forall i :: 0 <= i < |items| ==> items[i].key in data && Lists(items[i].listing, data[items[i].key]))
    && (forall i, j :: 0 <= i < j < |items| ==> items[i].key != items[j].key)
  }

  // ----- the commands -----

  /** Scores pass through a text format that may lose digits. */
  function Formatted(entries: seq<Entry>, format: Score -> Score): seq<(Score, Text)> {
    seq(|entries|, i requires 0 <= i < |entries| => (format(entries[i].score), entries[i].member))
  }

  /** `_commands_for_object`. */
  function ObjectCommands(key: Key, l: Listing, format: Score -> Score): seq<Command> {
    match l
    case StringListing(bytes) => [Set(key, bytes, [])]
    case HashListing(pairs) => if pairs == [] then [] else [Write(key, HSet(pairs))]
    case ListListing(items) => if items == [] then [] else [Write(key, RPush(items))]
    case SetListing(members) => if members == [] then [] else [Write(key, SAdd(members))]
    case ZSetListing(entries) => if entries == [] then [] else [Write(key, ZAdd(Formatted(entries, format)))]
  }

  function DeadlineCommands(key: Key, deadlines: map<Key, real>, now: real): seq<Command> {
    if key in deadlines && deadlines[key] > now then [PExpireAt(key, DeadlineMs(deadlines[key]))] else []
  }

  /** `_snapshot_commands`. */
  function SnapshotCommands(items: seq<Item>, deadlines: map<Key, real>, now: real, format: Score -> Score): seq<Command> {
    if items == [] then []
    else
      var last := items[|items| - 1];
      SnapshotCommands(items[..|items| - 1], deadlines, now, format)
      + (ObjectCommands(last.key, last.listing, format) + DeadlineCommands(last.key, deadlines, now))
  }

  // ----- what comes back -----

  /** An empty collection is not written. */
  predicate Full(v: Value) {
    match v
    case StringValue(_) => true
    case HashValue(m) => m != map[]
    case ListValue(s) => s != []
    case SetValue(s) => s != {}
    case ZSetValue(m) => m != map[]
  }

  function Kept(v: Value, format: Score -> Score): Value {
    if v.ZSetValue? then ZSetValue(map k | k in v.scores :: format(v.scores[k])) else v
  }

  /** The part of the keyspace under `keys` as a snapshot taken at `now` writes it down. */
  function Written(db: Db, keys: set<Key>, now: real, format: Score -> Score): Db {
    Db(map k | k in db.data && k in keys && Full(db.data[k]) :: Kept(db.data[k], format),
       map k | k in db.deadlines && k in db.data && k in keys && Full(db.data[k]) && db.deadlines[k] > now :: db.deadlines[k])
  }

  // ----- one object -----

  function Fields(pairs: seq<(Text, Text)>): set<Text> {
    set i | 0 <= i < |pairs| :: pairs[i].0
  }

  function Scored(pairs: seq<(Score, Text)>): set<Text> {
    set i | 0 <= i < |pairs| :: pairs[i].1
  }

  lemma FieldsTail(pairs: seq<(Text, Text)>)
    requires pairs != []
    ensures Fields(pairs) == {pairs[0].0} + Fields(pairs[1..])
  {
    var rest := pairs[1..];
    forall k | k in Fields(pairs) ensures k in {pairs[0].0} + Fields(rest) {
      var i :| 0 <= i < |pairs| && pairs[i].0 == k;
      assert i > 0 ==> rest[i - 1].0 == k;
    }
    forall k | k in Fields(rest) ensures k in Fields(pairs) {
      var i :| 0 <= i < |rest| && rest[i].0 == k;
      assert pairs[i + 1].0 == k;
    }
  }

  lemma ScoredTail(pairs: seq<(Score, Text)>)
    requires pairs != []
    ensures Scored(pairs) == {pairs[0].1} + Scored(pairs[1..])
  {
    var rest := pairs[1..];
    forall k | k in Scored(pairs) ensures k in {pairs[0].1} + Scored(rest) {
      var i :| 0 <= i < |pairs| && pairs[i].1 == k;
      assert i > 0 ==> rest[i - 1].1 == k;
    }
    forall k | k in Scored(rest) ensures k in Scored(pairs) {
      var i :| 0 <= i < |rest| && rest[i].1 == k;
      assert pairs[i + 1].1 == k;
    }
  }

  lemma {:induction false} PutAllFollows(m: map<Text, Text>, pairs: seq<(Text, Text)>, whole: map<Text, Text>)
    requires forall i :: 0 <= i < |pairs| ==> pairs[i].0 in whole && whole[pairs[i].0] == pairs[i].1
    ensures var r := PutAll(m, pairs);
      && r.Keys == m.Keys + Fields(pairs)
      && (forall k :: k in r ==> (k in whole && r[k] == whole[k]) || (k in m && r[k] == m[k]))
    decreases |pairs|
  {
    if pairs != [] {
      PutAllFollows(m[pairs[0].0 := pairs[0].1], pairs[1..], whole);
      FieldsTail(pairs);
    }
  }

  /** A duplicate-free list of as many keys as there are lists them all. */
  lemma {:induction false} ListsEveryKey(pairs: seq<(Text, Text)>, m: map<Text, Text>)
    requires ListsMap(pairs, m)
    ensures Fields(pairs) == m.Keys
    decreases |pairs|
  {
    if pairs == [] {
      assert m == map[];
    } else {
      var key := pairs[0].0;
      assert (m - {key}).Keys == m.Keys - {key};
      ListsEveryKey(pairs[1..], m - {key});
      FieldsTail(pairs);
    }
  }

  lemma PutAllListed(pairs: seq<(Text, Text)>, m: map<Text, Text>)
    requires ListsMap(pairs, m)
    ensures PutAll(map[], pairs) == m
  {
    PutAllFollows(map[], pairs, m);
    ListsEveryKey(pairs, m);
  }

  lemma {:induction false} ScoreAllFollows(m: map<Text, Score>, entries: seq<(Score, Text)>, whole: map<Text, Score>)
    requires forall i :: 0 <= i < |entries| ==> entries[i].1 in whole && whole[entries[i].1] == entries[i].0
    ensures var r := ScoreAll(m, entries);
      && r.Keys == m.Keys + Scored(entries)
      && (forall k :: k in r ==> (k in whole && r[k] == whole[k]) || (k in m && r[k] == m[k]))
    decreases |entries|
  {
    if entries != [] {
      ScoreAllFollows(m[entries[0].1 := entries[0].0], entries[1..], whole);
      ScoredTail(entries);
    }
  }

  lemma ScoreAllListed(entries: seq<Entry>, m: map<Text, Score>, format: Score -> Score)
    requires ZSets.Holds(entries, m)
    ensures ScoreAll(map[], Formatted(entries, format)) == Kept(ZSetValue(m), format).scores
  {
    var pairs, whole := Formatted(entries, format), Kept(ZSetValue(m), format).scores;
    forall i | 0 <= i < |pairs| ensures pairs[i].1 in whole && whole[pairs[i].1] == pairs[i].0 {
      assert entries[i] in entries;
    }
    ScoreAllFollows(map[], pairs, whole);
    forall k | k in m ensures k in Scored(pairs) {
      assert Entry(m[k], k) in entries;
      var i :| 0 <= i < |entries| && entries[i] == Entry(m[k], k);
      assert pairs[i].1 == k;
    }
  }

  /** The listing is empty exactly when the collection is. */
  lemma FullListing(key: Key, l: Listing, v: Value, format: Score -> Score)
    requires Lists(l, v)
    ensures Full(v) <==> ObjectCommands(key, l, format) != []
    ensures Full(v) && !v.StringValue? ==> HasArguments(ObjectCommands(key, l, format)[0].op)
  {
    match v
    case HashValue(m) =>
      if l.pairs != [] { assert l.pairs[0].0 in m; }
      assert |m| == 0 <==> m == map[];
    case SetValue(s) =>
      if l.members != [] { assert l.members[0] in s; }
    case ZSetValue(m) =>
      if l.entries != [] { assert l.entries[0] in l.entries; }
      if m != map[] {
        var k :| k in m;
        assert Entry(m[k], k) in l.entries;
      }
    case _ =>
  }

  /** The one command of an object, applied to nothing, makes the object. */
  lemma ObjectMade(key: Key, l: Listing, v: Value, format: Score -> Score)
    requires Lists(l, v) && Full(v) && !v.StringValue?
    ensures var commands := ObjectCommands(key, l, format);
      |commands| == 1 && commands[0].Write? && commands[0].key == key && HasArguments(commands[0].op)
      && Apply(commands[0].op, None) == Becomes(Kept(v, format))
  {
    FullListing(key, l, v, format);
    match v
    case HashValue(m) => PutAllListed(l.pairs, m);
    case ListValue(s) => assert [] + s == s;
    case SetValue(s) => assert {} + s == s;
    case ZSetValue(m) => ScoreAllListed(l.entries, m, format);
  }

  lemma ReplayObject(db: Db, key: Key, l: Listing, v: Value, format: Score -> Score, clock: real)
    requires Lists(l, v) && key !in db.data && key !in db.deadlines
    ensures ReplayFrom(db, ObjectCommands(key, l, format), clock)
      == Some(if Full(v) then db.(data := db.data[key := Kept(v, format)]) else db)
  {
    hide Lists, Apply, Kept;
    var commands := ObjectCommands(key, l, format);
    FullListing(key, l, v, format);
    if Full(v) && !v.StringValue? {
      ObjectMade(key, l, v, format);
      assert commands == [commands[0]];
      ReplayOne(db, commands[0], clock);
    } else if Full(v) {
      StringListed(l, v, format);
      ReplayOne(db, commands[0], clock);
      assert db.deadlines - {key} == db.deadlines;
    }
  }

  lemma StringListed(l: Listing, v: Value, format: Score -> Score)
    requires Lists(l, v) && v.StringValue?
    ensures l == StringListing(v.bytes) && Kept(v, format) == v
  {
  }

  // ----- the whole store -----

  /** The commands for one more key. */
  lemma ReplayItem(db: Db, item: Item, v: Value, deadlines: map<Key, real>, now: real, format: Score -> Score, clock: real)
    requires Tidy(db) && Lists(item.listing, v) && item.key !in db.data
    ensures var key := item.key;
      var mid := if Full(v) then db.(data := db.data[key := Kept(v, format)]) else db;
      var end := if Full(v) && key in deadlines && deadlines[key] > now then mid.(deadlines := mid.deadlines[key := deadlines[key]]) else mid;
      && Tidy(end)
      && ReplayFrom(Late(db, clock), ObjectCommands(key, item.listing, format) + DeadlineCommands(key, deadlines, now), clock)
        == Some(Late(end, clock))
  {
    hide Lists, Kept, Full, Rounded, ReplayFrom, ObjectCommands, DeadlineMs;
    var key, rep := item.key, Late(db, clock);
    var mid := if Full(v) then db.(data := db.data[key := Kept(v, format)]) else db;
    var made, timed := ObjectCommands(key, item.listing, format), DeadlineCommands(key, deadlines, now);
    ReplayObject(rep, key, item.listing, v, format, clock);
    assert Late(mid, clock) == if Full(v) then rep.(data := rep.data[key := Kept(v, format)]) else rep;
    ReplayConcat(rep, made, timed, clock);
    if timed == [] {
      NothingToReplay(Late(mid, clock), clock);
    } else if Full(v) {
      ReplayTimed(mid, clock, key, deadlines[key]);
    } else {
      LateNotDue(mid, clock, key);
      ReplayOne(Late(mid, clock), timed[0], clock);
      assert timed == [timed[0]];
    }
  }

  lemma {:induction false} ReplayItems(db: Db, items: seq<Item>, now: real, format: Score -> Score, clock: real)
    requires ListsAll(items, db.data)
    ensures Replay(SnapshotCommands(items, db.deadlines, now, format), clock) == Some(Late(Written(db, Keys(items), now, format), clock))
    ensures Tidy(Written(db, Keys(items), now, format))
  {
    hide Lists, Kept, Full, ReplayFrom, ObjectCommands, DeadlineCommands, Late, Written;
    if items == [] {
      NothingWritten(db, now, format, clock);
      NothingToReplay(EMPTY_DB, clock);
    } else {
      var n := |items| - 1;
      var init, last := items[..n], items[n];
      var v, before := db.data[last.key], Written(db, Keys(init), now, format);
      ReplayItems(db, init, now, format, clock);
      assert last.key !in Keys(init);
      NotWritten(db, Keys(init), last.key, now, format);
      ReplayItem(before, last, v, db.deadlines, now, format, clock);
      KeysSnoc(items);
      WrittenSnoc(db, Keys(init), last.key, now, format);
      ReplaySteps(EMPTY_DB, SnapshotCommands(init, db.deadlines, now, format), Late(before, clock),
        ObjectCommands(last.key, last.listing, format) + DeadlineCommands(last.key, db.deadlines, now),
        Some(Late(Written(db, Keys(items), now, format), clock)), clock);
    }
  }

  lemma NothingWritten(db: Db, now: real, format: Score -> Score, clock: real)
    ensures Late(Written(db, Keys([]), now, format), clock) == EMPTY_DB && Tidy(Written(db, Keys([]), now, format))
  {
    assert Keys([]) == {};
  }

  lemma NotWritten(db: Db, keys: set<Key>, key: Key, now: real, format: Score -> Score)
    requires key !in keys
    ensures key !in Written(db, keys, now, format).data
  {
  }

  /** One more key, put in and then given its deadline. */
  lemma WrittenSnoc(db: Db, keys: set<Key>, key: Key, now: real, format: Score -> Score)
    requires key in db.data && key !in keys
    ensures var before := Written(db, keys, now, format);
      var v := db.data[key];
      var mid := if Full(v) then before.(data := before.data[key := Kept(v, format)]) else before;
      Written(db, keys + {key}, now, format) ==
        if Full(v) && key in db.deadlines && db.deadlines[key] > now
        then mid.(deadlines := mid.deadlines[key := db.deadlines[key]]) else mid
  {
    hide Kept, Full;
  }

  lemma KeysSnoc(items: seq<Item>)
    requires items != []
    ensures Keys(items) == Keys(items[..|items| - 1]) + {items[|items| - 1].key}
  {
    var init := items[..|items| - 1];
    forall k | k in Keys(items) ensures k in Keys(init) + {items[|items| - 1].key} {
      var i :| 0 <= i < |items| && items[i].key == k;
      assert i < |init| ==> init[i].key == k;
    }
    forall k | k in Keys(init) ensures k in Keys(items) {
      var i :| 0 <= i < |init| && init[i].key == k;
      assert items[i].key == k;
    }
  }

  /** Every score of every sorted set survives the text format. */
  ghost predicate Exact(data: map<Key, Value>, format: Score -> Score) {
    forall k, m :: k in data && data[k].ZSetValue? && m in data[k].scores ==> format(data[k].scores[m]) == data[k].scores[m]
  }

  ghost predicate AllFull(db: Db) {
    forall k :: k in db.data ==> Full(db.data[k])
  }

  /** The values a format makes of those of a keyspace. */
  function Reformatted(db: Db, format: Score -> Score): Db {
    Db(map k | k in db.data :: Kept(db.data[k], format), db.deadlines)
  }

  /** The value as it is read back: the scores of a sorted set have gone through the format. */
  ghost predicate Reread(v: Value, w: Value, format: Score -> Score) {
    if v.ZSetValue? then w.ZSetValue? && w.scores.Keys == v.scores.Keys && forall m :: m in v.scores ==> w.scores[m] == format(v.scores[m])
    else w == v
  }

  /** The key is there again, with its value read back and with its deadline if it had one. */
  ghost predicate ReadBack(db: Db, after: Db, k: Key, format: Score -> Score)
    requires k in db.data
  {
    && k in after.data && Reread(db.data[k], after.data[k], format)
    && (k in db.deadlines <==> k in after.deadlines)
    && (k in db.deadlines ==> Near(db.deadlines[k], after.deadlines[k]))
  }

  /** What a snapshot taken at `now` and replayed at `clock` brings back: the keys without a
  deadline and those whose deadline was ahead at the one and is a millisecond ahead at the other;
  none that was due at the one or is at the other; nothing else. */
  ghost predicate SnapshotBack(db: Db, after: Db, now: real, clock: real, format: Score -> Score) {
    && (forall k :: k in db.data && k !in db.deadlines ==> ReadBack(db, after, k, format))
    && (forall k :: k in db.data && k in db.deadlines && db.deadlines[k] > now && db.deadlines[k] >= clock + 0.001 ==>
          ReadBack(db, after, k, format))
    && (forall k :: k in db.deadlines && db.deadlines[k] <= now ==> k !in after.data)
    && (forall k :: k in db.deadlines && db.deadlines[k] <= clock && (0.0 <= db.deadlines[k] || 0.0 <= clock) ==> k !in after.data)
    && (forall k :: k in after.data ==> k in db.data && ReadBack(db, after, k, format))
    && (forall k :: k in after.deadlines ==> k in after.data)
  }

  lemma KeptReread(v: Value, format: Score -> Score)
    ensures Reread(v, Kept(v, format), format)
  {
  }

  lemma ReformattedReread(db: Db, format: Score -> Score)
    ensures var after := Reformatted(db, format);
      && after.data.Keys == db.data.Keys && after.deadlines == db.deadlines
      && forall k :: k in db.data ==> Reread(db.data[k], after.data[k], format)
  {
    hide Kept, Reread;
    forall k | k in db.data ensures Reread(db.data[k], Reformatted(db, format).data[k], format) {
      KeptReread(db.data[k], format);
    }
  }

  /** One key of what is left. */
  lemma LeftReadBack(db: Db, left: Db, k: Key, now: real, format: Score -> Score)
    requires k in Alive(db, now).data && k in left.data && ComesBack(Alive(db, now), left, k)
    ensures ReadBack(db, Reformatted(left, format), k, format)
  {
    hide Reformatted, Reread, Near;
    ReformattedReread(left, format);
  }

  lemma ReformattedBack(db: Db, now: real, clock: real, format: Score -> Score)
    requires Tidy(db)
    ensures SnapshotBack(db, Reformatted(Late(Alive(db, now), clock), format), now, clock, format)
  {
    hide Reformatted, Late, ComesBack, ReadBack;
    var alive, left := Alive(db, now), Late(Alive(db, now), clock);
    LateIsBack(alive, clock);
    ReformattedReread(left, format);
    forall k | k in left.data ensures k in db.data && ReadBack(db, Reformatted(left, format), k, format) {
      LeftReadBack(db, left, k, now, format);
    }
    forall k | k in db.data && !Due(db, k, now) && (k in db.deadlines ==> db.deadlines[k] >= clock + 0.001)
      ensures k in left.data
    {
      assert k in alive.data && ComesBack(alive, left, k);
      BackIsThere(alive, left, k);
    }
  }

  lemma BackIsThere(db: Db, after: Db, k: Key)
    requires k in db.data && ComesBack(db, after, k)
    ensures k in after.data
  {
  }

  /** A snapshot replayed at any clock: of the keys that were not due when it was taken, all
  come back whose deadline is not past, lists in order, each with its deadline. Their values are
  the same exactly when their scores survive the format. */
  lemma SnapshotRoundTrip(db: Db, order: seq<Key>, items: seq<Item>, now: real, format: Score -> Score, clock: real)
    requires Tidy(db) && AllFull(db) && db.data.Keys <= KeySet(order)
    requires var live := PurgeAll(db, order, now); ListsAll(items, live.data) && Keys(items) == live.data.Keys
    ensures var r := Replay(SnapshotCommands(items, PurgeAll(db, order, now).deadlines, now, format), clock);
      var left := Late(Alive(db, now), clock);
      && r == Some(Reformatted(left, format))
      && (r == Some(left) <==> Exact(left.data, format))
      && SnapshotBack(db, r.value, now, clock, format)
  {
    hide Lists, SnapshotBack, Kept, Full, ReplayFrom, SnapshotCommands, Written, Exact, Late, Reformatted, Alive;
    var live := PurgeAll(db, order, now);
    PurgeAllIsAlive(db, order, now);
    ReplayItems(live, items, now, format, clock);
    WrittenAlive(db, now, format);
    LateReformatted(live, format, clock);
    ReformattedBack(db, now, clock, format);
    ExactIff(Late(live, clock), format);
  }

  lemma LateReformatted(db: Db, format: Score -> Score, clock: real)
    ensures Late(Reformatted(db, format), clock) == Reformatted(Late(db, clock), format)
  {
    hide Kept, Rounded;
  }

  lemma WrittenAlive(db: Db, now: real, format: Score -> Score)
    requires Tidy(db) && AllFull(db)
    ensures var live := Alive(db, now); Written(live, live.data.Keys, now, format) == Reformatted(live, format)
  {
    hide Kept, Full;
  }

  lemma ExactIff(db: Db, format: Score -> Score)
    ensures Reformatted(db, format) == db <==> Exact(db.data, format)
  {
    var kept := Reformatted(db, format).data;
    if Exact(db.data, format) {
      forall k | k in db.data ensures kept[k] == db.data[k] {
        if db.data[k].ZSetValue? {
          assert kept[k].scores == db.data[k].scores;
        }
      }
      assert kept == db.data;
    } else {
      var k, m :| k in db.data && db.data[k].ZSetValue? && m in db.data[k].scores && format(db.data[k].scores[m]) != db.data[k].scores[m];
      assert kept[k].scores[m] != db.data[k].scores[m];
    }
  }

  // ----- no command leaves an empty collection behind -----

  lemma {:induction false} PutAllKeeps(m: map<Text, Text>, pairs: seq<(Text, Text)>)
    ensures m.Keys <= PutAll(m, pairs).Keys && (pairs != [] ==> pairs[0].0 in PutAll(m, pairs))
    decreases |pairs|
  {
    if pairs != [] {
      PutAllKeeps(m[pairs[0].0 := pairs[0].1], pairs[1..]);
    }
  }

  lemma {:induction false} ScoreAllKeeps(m: map<Text, Score>, entries: seq<(Score, Text)>)
    ensures m.Keys <= ScoreAll(m, entries).Keys && (entries != [] ==> entries[0].1 in ScoreAll(m, entries))
    decreases |entries|
  {
    if entries != [] {
      ScoreAllKeeps(m[entries[0].1 := entries[0].0], entries[1..]);
    }
  }

  lemma ApplyFull(op: Op, v: Option<Value>)
    requires HasArguments(op) && (v.Some? ==> Full(v.value))
    ensures Apply(op, v).Becomes? ==> Full(Apply(op, v).value)
  {
    match op
    case HSet(pairs) =>
      var w := OrEmpty(v, HashValue(map[]));
      if w.HashValue? { PutAllKeeps(w.fields, pairs); }
    case ZAdd(entries) =>
      var w := OrEmpty(v, ZSetValue(map[]));
      if w.ZSetValue? { ScoreAllKeeps(w.scores, entries); }
    case SAdd(members) =>
      assert members[0] in Members(members);
    case _ =>
  }

  lemma {:induction false} SetStringsFull(db: Db, pairs: seq<(Key, Bytes)>)
    requires AllFull(db)
    ensures AllFull(SetStrings(db, pairs))
    decreases |pairs|
  {
    if pairs != [] {
      SetStringsFull(SetString(db, pairs[0].0, pairs[0].1), pairs[1..]);
    }
  }

  lemma {:induction false} PurgeAllFull(db: Db, keys: seq<Key>, t: real)
    requires AllFull(db)
    ensures AllFull(PurgeAll(db, keys, t))
    decreases |keys|
  {
    if keys != [] {
      PurgeAllFull(Purge(db, keys[0], t), keys[1..], t);
    }
  }

  lemma {:induction false} RecordFinalFull(db: Db, keys: seq<Key>, u: real)
    requires AllFull(db)
    ensures AllFull(RecordFinal(db, keys, u).db)
    decreases |keys|
  {
    if keys != [] {
      RecordFinalFull(Purge(db, keys[0], u), keys[1..], u);
    }
  }

  lemma HandleFull(db: Db, cmd: Command, t: real)
    requires AllFull(db)
    ensures AllFull(Handle(db, cmd, t).db)
  {
    hide Full, Apply;
    match cmd
    case Set(_, value, _) => StringFull(value);
    case MSet(pairs) => SetStringsFull(db, pairs);
    case Write(key, op) =>
      if HasArguments(op) {
        ApplyFull(op, Find(Purge(db, key, t).data, key));
      }
    case Del(keys) => DeleteAllIs(db, keys);
    case Read(keys) => PurgeAllFull(db, keys, t);
    case _ =>
  }

  lemma StringFull(value: Bytes)
    ensures Full(StringValue(value))
  {
  }

  lemma RecordFull(db: Db, cmd: Command, reply: Reply, u: real)
    requires AllFull(db)
    ensures AllFull(Record(db, cmd, reply, u).db)
  {
    hide Full;
    if cmd.MSet? {
      RecordFinalFull(db, FirstTimes(cmd.pairs), u);
    }
  }

  lemma {:induction false} RunFull(requests: seq<Fidelity.Request>)
    ensures AllFull(Fidelity.Run(requests).db)
  {
    hide Handle, Record, AllFull;
    if requests == [] {
      EmptyFull();
    } else {
      var init, last := requests[..|requests| - 1], requests[|requests| - 1];
      RunFull(init);
      var before := Fidelity.Run(init).db;
      HandleFull(before, last.cmd, last.t);
      RecordFull(Handle(before, last.cmd, last.t).db, last.cmd, Handle(before, last.cmd, last.t).reply, last.u);
    }
  }

  lemma EmptyFull()
    ensures AllFull(EMPTY_DB)
  {
  }

  /** So of whatever a run leaves, a snapshot taken at `now` and replayed at `clock` brings back
  exactly the keys that are not due at the one and not past at the other. */
  lemma SnapshotOfRun(requests: seq<Fidelity.Request>, order: seq<Key>, items: seq<Item>, now: real, format: Score -> Score, clock: real)
    requires Fidelity.Run(requests).db.data.Keys <= KeySet(order)
    requires var live := PurgeAll(Fidelity.Run(requests).db, order, now); ListsAll(items, live.data) && Keys(items) == live.data.Keys
    ensures var db := Fidelity.Run(requests).db;
      var r := Replay(SnapshotCommands(items, PurgeAll(db, order, now).deadlines, now, format), clock);
      && r.Some?
      && r.value.data.Keys == (set k | k in db.data && !Due(db, k, now) && !Stale(db, k, clock))
      && (r == Some(Late(Alive(db, now), clock)) <==> Exact(Late(Alive(db, now), clock).data, format))
      && SnapshotBack(db, r.value, now, clock, format)
  {
    hide SnapshotBack, Reread, Near, Lists, Kept, ReplayFrom, SnapshotCommands, Rounded, Exact, Fidelity.Run, AllFull;
    RunFull(requests);
    Fidelity.RunTidy(requests);
    SnapshotRoundTrip(Fidelity.Run(requests).db, order, items, now, format, clock);
  }

  // ----- the format of scores -----

  /** Rounding to the nearest integer, halves to the even one. */
  function HalfEven(x: real): int {
    var below := x.Floor;
    var rest := x - below as real;
    if rest < 0.5 || (rest == 0.5 && below % 2 == 0) then below else below + 1
  }

  /** How far a positive number is from having six digits before its point. */
  function Distance(x: real): nat
    requires x > 0.0
  {
    if x >= 1000000.0 then x.Floor else if x < 100000.0 then (1000000.0 / x).Floor else 0
  }

  lemma NearerBelow(x: real)
    requires x >= 1000000.0
    ensures Distance(x / 10.0) < Distance(x)
  {
    assert x / 10.0 >= 100000.0;
    assert (x / 10.0).Floor as real <= x / 10.0 < x - 1.0 < x.Floor as real;
  }

  lemma NearerAbove(x: real)
    requires 0.0 < x < 100000.0
    ensures Distance(10.0 * x) < Distance(x)
  {
    var y := 1000000.0 / x;
    assert y * x == 1000000.0;
    assert y > 10.0;
    assert 1000000.0 / (10.0 * x) == y / 10.0;
    assert (y / 10.0).Floor as real <= y / 10.0 < y - 1.0 < y.Floor as real;
  }

  /** `format(x, "g")` read back, for a positive number: six significant digits, wherever they
  are. */
  function Six(x: real): (r: real)
    requires x > 0.0
    ensures -x <= 200000.0 * (r - x) <= x
    decreases Distance(x)
  {
    if x >= 1000000.0 then
      NearerBelow(x);
      10.0 * Six(x / 10.0)
    else if x < 100000.0 then
      NearerAbove(x);
      Six(10.0 * x) / 10.0
    else
      HalfEven(x) as real
  }

  function SixDigits(s: Score): Score {
    match s
    case Finite(x) => if x == 0.0 then s else if x > 0.0 then Finite(Six(x)) else Finite(-Six(-x))
    case _ => s
  }

  function Pow10(k: nat): (r: nat)
    ensures r > 0
  {
    if k == 0 then 1 else 10 * Pow10(k - 1)
  }

  /** A number of at most six digits, and zeros after them or places before them. */
  ghost predicate Spells(x: real, n: nat, k: nat) {
    n < 1000000 && (x == (n * Pow10(k)) as real || x * Pow10(k) as real == n as real)
  }

  ghost predicate Short(x: real) {
    exists n: nat, k: nat :: Spells(x, n, k)
  }

  lemma PlacesMove(x: real, y: real, k: nat)
    requires y == 10.0 * x
    ensures x * Pow10(k + 1) as real == y * Pow10(k) as real
  {
    var p := Pow10(k) as real;
    assert Pow10(k + 1) as real == 10.0 * p;
    assert x * (10.0 * p) == (10.0 * x) * p;
  }

  lemma ZerosMove(n: nat, k: nat)
    ensures (n * Pow10(k + 1)) as real == 10.0 * (n * Pow10(k)) as real
  {
    assert n * (10 * Pow10(k)) == 10 * (n * Pow10(k));
  }

  lemma ShortUp(x: real, y: real)
    requires y == 10.0 * x && Short(x)
    ensures Short(y)
  {
    hide Pow10;
    var n: nat, k: nat :| Spells(x, n, k);
    NoPlaces(x, n);
    if x == (n * Pow10(k)) as real {
      ZerosMove(n, k);
      assert Spells(y, n, k + 1);
    } else {
      assert k > 0;
      PlacesMove(x, y, k - 1);
      assert Spells(y, n, k - 1);
    }
  }

  lemma ShortDown(x: real, y: real)
    requires y == 10.0 * x && Short(y)
    ensures Short(x)
  {
    hide Pow10;
    var n: nat, k: nat :| Spells(y, n, k);
    NoPlaces(y, n);
    if y * Pow10(k) as real == n as real {
      PlacesMove(x, y, k);
      assert Spells(x, n, k + 1);
    } else {
      assert k > 0;
      ZerosMove(n, k - 1);
      assert Spells(x, n, k - 1);
    }
  }

  lemma TimesTen(x: real, y: real)
    requires y == 10.0 * x
    ensures Short(x) <==> Short(y)
  {
    hide Short;
    if Short(x) {
      ShortUp(x, y);
    }
    if Short(y) {
      ShortDown(x, y);
    }
  }

  lemma NoPlaces(x: real, n: nat)
    ensures Spells(x, n, 0) <==> n < 1000000 && x == n as real
    ensures Pow10(0) == 1
  {
  }

  /** Between one hundred thousand and a million, six digits are the whole number. */
  lemma ShortIsWhole(x: real)
    requires 100000.0 <= x < 1000000.0
    ensures Short(x) <==> x == x.Floor as real
  {
    if x == x.Floor as real {
      assert Spells(x, x.Floor, 0);
    }
    if n: nat, k: nat :| Spells(x, n, k) {
      NoPlaces(x, n);
      if k > 0 {
        ManyPlaces(x, k);
      }
    }
  }

  lemma ManyPlaces(x: real, k: nat)
    requires x >= 100000.0 && k > 0
    ensures x * Pow10(k) as real >= 1000000.0
  {
    var p := Pow10(k) as real;
    assert p == 10.0 * Pow10(k - 1) as real >= 10.0;
    assert x * p >= 100000.0 * p;
  }

  lemma HalfEvenWhole(x: real)
    ensures HalfEven(x) as real == x <==> x == x.Floor as real
  {
  }

  /** Rounding changes nothing exactly when there are no more than six digits. */
  lemma {:induction false} SixIff(x: real)
    requires x > 0.0
    ensures Six(x) == x <==> Short(x)
    decreases Distance(x)
  {
    hide Short, HalfEven;
    if x >= 1000000.0 {
      NearerBelow(x);
      SixIff(x / 10.0);
      TimesTen(x / 10.0, x);
    } else if x < 100000.0 {
      NearerAbove(x);
      SixIff(10.0 * x);
      TimesTen(x, 10.0 * x);
    } else {
      ShortIsWhole(x);
      HalfEvenWhole(x);
    }
  }

  /** What the format makes of a number is short. */
  lemma {:induction false} SixIsShort(x: real)
    requires x > 0.0
    ensures Six(x) > 0.0 && Short(Six(x))
    decreases Distance(x)
  {
    hide Short, HalfEven;
    if x >= 1000000.0 {
      NearerBelow(x);
      SixIsShort(x / 10.0);
      ShortUp(Six(x / 10.0), Six(x));
    } else if x < 100000.0 {
      NearerAbove(x);
      SixIsShort(10.0 * x);
      ShortDown(Six(x), Six(10.0 * x));
    } else {
      HalfEvenShort(x);
    }
  }

  lemma HalfEvenShort(x: real)
    requires 100000.0 <= x < 1000000.0
    ensures HalfEven(x) > 0 && Short(HalfEven(x) as real)
  {
    var n := HalfEven(x);
    if n < 1000000 {
      assert Spells(n as real, n, 0);
    } else {
      assert n == 1 * Pow10(6);
      assert Spells(n as real, 1, 6);
    }
  }

  /** A score of at most six significant digits, or an infinity. */
  ghost predicate ShortScore(s: Score) {
    s.Finite? ==> Short(if s.value < 0.0 then -s.value else s.value)
  }

  /** A score survives the six-digit format exactly when it has no more digits. */
  lemma SixDigitsIff(s: Score)
    ensures SixDigits(s) == s <==> ShortScore(s)
    ensures ShortScore(SixDigits(s))
  {
    hide Short, Six;
    ZeroIsShort();
    if s.Finite? && s.value != 0.0 {
      var x := if s.value < 0.0 then -s.value else s.value;
      SixIff(x);
      SixIsShort(x);
    }
  }

  lemma ZeroIsShort()
    ensures Short(0.0)
  {
    assert Spells(0.0, 0, 0);
  }

  /** So a snapshot keeps the values exactly when all scores are short; and what it brings back
  the next snapshot keeps. */
  lemma ExactWhenShort(db: Db)
    ensures Exact(db.data, SixDigits) <==>
      forall k, m :: k in db.data && db.data[k].ZSetValue? && m in db.data[k].scores ==> ShortScore(db.data[k].scores[m])
    ensures Exact(Reformatted(db, SixDigits).data, SixDigits)
  {
    hide SixDigits, ShortScore;
    forall s: Score ensures SixDigits(s) == s <==> ShortScore(s) {
      SixDigitsIff(s);
    }
    forall s: Score ensures SixDigits(SixDigits(s)) == SixDigits(s) {
      SixDigitsIff(s);
      SixDigitsIff(SixDigits(s));
    }
  }

  /** Six digits are not enough for a score of 1234567. */
  lemma SixDigitsLose(key: Key, member: Text)
    ensures var data := map[key := ZSetValue(map[member := Finite(1234567.0)])];
      && !Exact(data, SixDigits)
      && Kept(data[key], SixDigits) == ZSetValue(map[member := Finite(1234570.0)])
  {
    var data := map[key := ZSetValue(map[member := Finite(1234567.0)])];
    assert HalfEven(123456.7) == 123457;
    assert Six(123456.7) == 123457.0;
    assert Six(1234567.0) == 1234570.0;
    assert SixDigits(data[key].scores[member]) == Finite(1234570.0);
  }
}
