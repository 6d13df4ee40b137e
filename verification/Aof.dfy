/** Handlers without a memory limit, the log records they leave, and replay.

Every client command is handled at one clock reading and recorded at a later one; a key may
fall due in between. Times are in seconds. */
module Aof {
  import opened Ordering
  import opened Numbers
  import opened Commands

  /** The keyspace as clients see it: values, and absolute deadlines. */
  datatype Db = Db(data: map<Key, Value>, deadlines: map<Key, real>)

  datatype SetOption = EX(seconds: int) | PX(milliseconds: int) | NotANumber | Unknown

  datatype Command =
    | Set(key: Key, value: Bytes, options: seq<SetOption>)
    | MSet(pairs: seq<(Key, Bytes)>)
    | Write(key: Key, op: Op)
    | Del(keys: seq<Key>)
    | Expire(key: Key, seconds: int)
    | PExpireAt(key: Key, milliseconds: int)
    | Persist(key: Key)
    | FlushAll
    | Read(keys: seq<Key>)  // any command that only looks

  /** An error reply, or a number. The log depends on no number but the one of PERSIST; the
  replies of reads and of writes to values are not modelled and count as zero. */
  datatype Reply = Error | Number(n: int)

  // ----- expiry -----

  predicate Due(db: Db, key: Key, t: real) {
    key in db.deadlines && db.deadlines[key] <= t
  }

  /** `delete`: the hook forgets the deadline of a key that was there. */
  function Delete(db: Db, key: Key): Db {
    if key in db.data then Db(db.data - {key}, db.deadlines - {key}) else db
  }

  function Purge(db: Db, key: Key, t: real): Db {
    if Due(db, key, t) then Delete(db, key) else db
  }

  /** An automatic deletion is recorded at once. */
  function PurgeLog(db: Db, key: Key, t: real): seq<Command> {
    if Due(db, key, t) && key in db.data then [Del([key])] else []
  }

  function DeleteAll(db: Db, keys: seq<Key>): Db
    decreases |keys|
  {
    if keys == [] then db else DeleteAll(Delete(db, keys[0]), keys[1..])
  }

  /** The records of automatic deletions, one by one. */
  function Dels(keys: seq<Key>): seq<Command> {
    seq(|keys|, i requires 0 <= i < |keys| => Del([keys[i]]))
  }

  // ----- handlers -----

  datatype Ttl = NoTtl | Seconds(s: real) | BadOption

  /** The option loop of SET: the last valid option wins, the first bad one is an error. */
  function TtlOf(options: seq<SetOption>, so_far: Ttl): Ttl
    decreases |options|
  {
    if options == [] then so_far
    else
      match options[0]
      case EX(n) => if n <= 0 then BadOption else TtlOf(options[1..], Seconds(n as real))
      case PX(n) => if n <= 0 then BadOption else TtlOf(options[1..], Seconds(n as real / 1000.0))
      case _ => BadOption
  }

  function SetString(db: Db, key: Key, value: Bytes): Db {
    Db(db.data[key := StringValue(value)], db.deadlines - {key})
  }

  function SetStrings(db: Db, pairs: seq<(Key, Bytes)>): Db
    decreases |pairs|
  {
    if pairs == [] then db else SetStrings(SetString(db, pairs[0].0, pairs[0].1), pairs[1..])
  }

  function Effected(db: Db, key: Key, e: Effect): Db {
    match e
    case Becomes(v) => Db(db.data[key := v], db.deadlines)
    case Removes => Delete(db, key)
    case _ => db
  }

  function PurgeAll(db: Db, keys: seq<Key>, t: real): Db
    decreases |keys|
  {
    if keys == [] then db else PurgeAll(Purge(db, keys[0], t), keys[1..], t)
  }

  function PurgeAllLog(db: Db, keys: seq<Key>, t: real): seq<Command>
    decreases |keys|
  {
    if keys == [] then [] else PurgeLog(db, keys[0], t) + PurgeAllLog(Purge(db, keys[0], t), keys[1..], t)
  }

  datatype Handled = Handled(db: Db, reply: Reply, log: seq<Command>)

  /** `dispatch` at time `t`: the new keyspace, the reply, and the automatic deletions recorded
  on the way. */
  function Handle(db: Db, cmd: Command, t: real): Handled {
    match cmd
    case Set(key, value, options) =>
      (match TtlOf(options, NoTtl)
       case BadOption => Handled(db, Error, [])
       case NoTtl => Handled(SetString(db, key, value), Number(0), [])
       case Seconds(s) =>
         var set' := SetString(db, key, value);
         Handled(set'.(deadlines := set'.deadlines[key := t + s]), Number(0), []))
    case MSet(pairs) =>
      if pairs == [] then Handled(db, Error, []) else Handled(SetStrings(db, pairs), Number(0), [])
    case Write(key, op) =>
      if !HasArguments(op) then Handled(db, Error, [])
      else
        var purged := Purge(db, key, t);
        var e := Apply(op, Find(purged.data, key));
        Handled(Effected(purged, key, e), if e.Refuses? then Error else Number(0), PurgeLog(db, key, t))
    case Del(keys) =>
      if keys == [] then Handled(db, Error, []) else Handled(DeleteAll(db, keys), Number(0), [])
    case Expire(key, seconds) =>
      var purged := Purge(db, key, t);
      if key !in purged.data then Handled(purged, Number(0), PurgeLog(db, key, t))
      else
        var set' := purged.(deadlines := purged.deadlines[key := t + seconds as real]);
        // No reason is given for this deletion, so it is not recorded.
        Handled(Purge(set', key, t), Number(1), PurgeLog(db, key, t))
    case PExpireAt(key, ms) =>
      var purged := Purge(db, key, t);
      var deadline := ms as real / 1000.0;
      if key !in purged.data then Handled(purged, Number(0), PurgeLog(db, key, t))
      else if deadline <= t then Handled(Delete(purged, key), Number(1), PurgeLog(db, key, t) + [Del([key])])
      else Handled(purged.(deadlines := purged.deadlines[key := deadline]), Number(1), PurgeLog(db, key, t))
    case Persist(key) =>
      var purged := Purge(db, key, t);
      if key in purged.data && key in purged.deadlines
      then Handled(purged.(deadlines := purged.deadlines - {key}), Number(1), PurgeLog(db, key, t))
      else Handled(purged, Number(0), PurgeLog(db, key, t))
    case FlushAll => Handled(Db(map[], db.deadlines - db.data.Keys), Number(0), [])
    case Read(keys) => Handled(PurgeAll(db, keys, t), Number(0), PurgeAllLog(db, keys, t))
  }

  // ----- records -----

  /** `int(x)`: truncation toward zero. */
  function Truncate(x: real): int {
    if x < 0.0 then -((-x).Floor) else x.Floor
  }

  /** The deadline as the log writes it, in milliseconds. */
  function DeadlineMs(deadline: real): int {
    Truncate(deadline * 1000.0)
  }

  /** The deadline as it is read back. */
  function Rounded(deadline: real): real {
    DeadlineMs(deadline) as real / 1000.0
  }

  function DeadlineLog(db: Db, key: Key): seq<Command> {
    if key in db.deadlines then [PExpireAt(key, DeadlineMs(db.deadlines[key]))] else []
  }

  function FirstTimes(pairs: seq<(Key, Bytes)>): seq<Key>
  {
    if pairs == [] then []
    else
      var before, key := FirstTimes(pairs[..|pairs| - 1]), pairs[|pairs| - 1].0;
      if key in before then before else before + [key]
  }

  datatype Recorded = Recorded(db: Db, log: seq<Command>)

  /** MSET is recorded as the values its keys have in the end: strings, if they are there. */
  function RecordFinal(db: Db, keys: seq<Key>, u: real): Recorded
    decreases |keys|
  {
    if keys == [] then Recorded(db, [])
    else
      var purged := Purge(db, keys[0], u);
      var record :=
        if keys[0] in purged.data && purged.data[keys[0]].StringValue?
        then Set(keys[0], purged.data[keys[0]].bytes, []) else Del([keys[0]]);
      var rest := RecordFinal(purged, keys[1..], u);
      Recorded(rest.db, PurgeLog(db, keys[0], u) + [record] + rest.log)
  }

  /** `record_command` at time `u`: the rewritten command, after any deletion that looking at
  the key brings about. */
  function Record(db: Db, cmd: Command, reply: Reply, u: real): Recorded {
    if reply.Error? then Recorded(db, [])
    else
      match cmd
      case Set(key, value, options) =>
        var purged := Purge(db, key, u);
        Recorded(purged, PurgeLog(db, key, u) +
          if key in purged.data then [Set(key, value, [])] + DeadlineLog(purged, key) else [Del([key])])
      case MSet(pairs) => RecordFinal(db, FirstTimes(pairs), u)
      case Write(key, op) =>
        var purged := Purge(db, key, u);
        Recorded(purged, PurgeLog(db, key, u) + if key in purged.data then [cmd] else [Del([key])])
      case Del(keys) => Recorded(db, [cmd])
      case Expire(key, _) =>
        var purged := Purge(db, key, u);
        Recorded(purged, PurgeLog(db, key, u) + if key in purged.data then DeadlineLog(purged, key) else [])
      case PExpireAt(key, _) =>
        var purged := Purge(db, key, u);
        Recorded(purged, PurgeLog(db, key, u) + if key in purged.data then DeadlineLog(purged, key) else [])
      case Persist(key) => Recorded(db, if reply == Number(1) then [cmd] else [])
      case FlushAll => Recorded(db, [FlushAll])
      case Read(_) => Recorded(db, [])
  }

  // ----- replay -----

  /** Replay from a keyspace on, with None when a command is answered with an error. */
  function ReplayFrom(db: Db, log: seq<Command>, clock: real): Option<Db>
    decreases |log|
  {
    if log == [] then Some(db)
    else
      var h := Handle(db, log[0], clock);
      if h.reply.Error? then None else ReplayFrom(h.db, log[1..], clock)
  }

  const EMPTY_DB := Db(map[], map[])

  function Replay(log: seq<Command>, clock: real): Option<Db> {
    ReplayFrom(EMPTY_DB, log, clock)
  }

  /** No logged deadline has passed at the replay clock. */
  ghost predicate Before(log: seq<Command>, clock: real) {
    forall i :: 0 <= i < |log| && log[i].PExpireAt? ==> clock < log[i].milliseconds as real / 1000.0
  }

  /** Every deadline belongs to a key that is there. */
  predicate Tidy(db: Db) {
    db.deadlines.Keys <= db.data.Keys
  }

  /** The deadline of the key, as the log has it, is past at the replay clock. */
  predicate Stale(db: Db, key: Key, clock: real) {
    key in db.deadlines && Rounded(db.deadlines[key]) <= clock
  }

  ghost predicate NoneStale(db: Db, clock: real) {
    forall k :: k in db.deadlines ==> !Stale(db, k, clock)
  }

  /** What is left of a keyspace at the replay clock: the keys whose deadline is not past, and
  their deadlines to the millisecond. */
  function Late(db: Db, clock: real): Db {
    Db(map k | k in db.data && !Stale(db, k, clock) :: db.data[k],
       map k | k in db.deadlines && !Stale(db, k, clock) :: Rounded(db.deadlines[k]))
  }

  lemma {:induction false} ReplayConcat(db: Db, a: seq<Command>, b: seq<Command>, clock: real)
    ensures ReplayFrom(db, a + b, clock) ==
      var mid := ReplayFrom(db, a, clock); if mid.None? then None else ReplayFrom(mid.value, b, clock)
    decreases |a|
  {
    if a == [] {
      assert a + b == b;
    } else {
      assert (a + b)[1..] == a[1..] + b;
      ReplayConcat(Handle(db, a[0], clock).db, a[1..], b, clock);
    }
  }

  lemma ReplayOne(db: Db, cmd: Command, clock: real)
    ensures ReplayFrom(db, [cmd], clock) ==
      if Handle(db, cmd, clock).reply.Error? then None else Some(Handle(db, cmd, clock).db)
  {
    assert [cmd][1..] == [];
  }

  lemma BeforeConcat(a: seq<Command>, b: seq<Command>, clock: real)
    ensures Before(a + b, clock) <==> Before(a, clock) && Before(b, clock)
  {
    assert forall i :: 0 <= i < |b| ==> (a + b)[|a| + i] == b[i];
    assert forall i :: 0 <= i < |a| ==> (a + b)[i] == a[i];
  }

  lemma ReplaySteps(rep: Db, a: seq<Command>, mid: Db, b: seq<Command>, end: Option<Db>, clock: real)
    requires ReplayFrom(rep, a, clock) == Some(mid) && ReplayFrom(mid, b, clock) == end
    ensures ReplayFrom(rep, a + b, clock) == end
  {
    ReplayConcat(rep, a, b, clock);
  }

  lemma NothingToReplay(rep: Db, clock: real)
    ensures ReplayFrom(rep, [], clock) == Some(rep)
  {
  }
}
