/** From the bytes of a log file, however they are read, to the store. */
module Recovery {
  import opened Ordering
  import opened Numbers
  import opened Commands
  import opened Aof
  import opened Outcomes
  import opened Accounting
  import opened Marks
  import opened LateReplay
  import opened Survival
  import opened Fidelity
  import opened Resp
  import opened Stream
  import opened Wire
  import opened DataStores

  /** The commands that lists of strings stand for; None if one stands for no command of the log. */
  function ReadAll(c: Codec, words: seq<seq<Bytes>>): Option<seq<Command>> {
    if words == [] then Some([])
    else
      match (ReadCommand(c, words[0]), ReadAll(c, words[1..]))
      case (Some(cmd), Some(rest)) => Some([cmd] + rest)
      case _ => None
  }

  /** What reading and replaying comes to: every command read must be one of the log and be
  answered without an error, and no number may be malformed. */
  function Reading(c: Codec, db: Db, d: Drained, clock: real): Option<Db> {
    if d.status != Running || ReadAll(c, d.commands).None? then None
    else ReplayFrom(db, ReadAll(c, d.commands).value, clock)
  }

  lemma {:induction false} ReadAllConcat(c: Codec, a: seq<seq<Bytes>>, b: seq<seq<Bytes>>)
    ensures var x, y := ReadAll(c, a), ReadAll(c, b);
      ReadAll(c, a + b) == if x.None? || y.None? then None else Some(x.value + y.value)
    decreases |a|
  {
    hide ReadCommand;
    if a == [] {
      assert a + b == b;
      assert ReadAll(c, b).Some? ==> [] + ReadAll(c, b).value == ReadAll(c, b).value;
    } else {
      assert (a + b)[1..] == a[1..] + b;
      ReadAllConcat(c, a[1..], b);
      if ReadCommand(c, a[0]).Some? && ReadAll(c, a[1..]).Some? && ReadAll(c, b).Some? {
        var cmd, x, y := ReadCommand(c, a[0]).value, ReadAll(c, a[1..]).value, ReadAll(c, b).value;
        assert [cmd] + (x + y) == ([cmd] + x) + y;
      }
    }
  }

  /** Reading on after some commands. */
  lemma ReadingAfter(c: Codec, db: Db, words: seq<seq<Bytes>>, d: Drained, clock: real)
    ensures var mid := Reading(c, db, Drained(words, [], Running), clock);
      Reading(c, db, AfterCommands(words, d), clock) == if mid.None? then None else Reading(c, mid.value, d, clock)
  {
    hide ReadAll, ReplayFrom;
    ReadAllConcat(c, words, d.commands);
    if ReadAll(c, words).Some? && ReadAll(c, d.commands).Some? {
      ReplayConcat(db, ReadAll(c, words).value, ReadAll(c, d.commands).value, clock);
    }
  }

  lemma ReadingOne(c: Codec, db: Db, words: seq<Bytes>, clock: real)
    ensures var cmd := ReadCommand(c, words);
      Reading(c, db, Drained([words], [], Running), clock) ==
        if cmd.None? || Handle(db, cmd.value, clock).reply.Error? then None else Some(Handle(db, cmd.value, clock).db)
  {
    hide ReadCommand, Handle, ReplayFrom;
    assert [words][1..] == [] && ReadAll(c, []) == Some([]);
    if ReadCommand(c, words).Some? {
      var cmd := ReadCommand(c, words).value;
      assert [cmd] + [] == [cmd];
      ReplayOne(db, cmd, clock);
    }
  }

  lemma ReadingNothing(c: Codec, db: Db, rest: Bytes, clock: real)
    ensures Reading(c, db, Drained([], rest, Running), clock) == Some(db)
  {
  }

  /** One parsed command dispatched; false for an error, which stops the replay. */
  method DispatchWords(store: DataStore, c: Codec, words: seq<Bytes>, clock: real) returns (ok: bool)
    requires store.Accounted() && store.maxMemory <= 0 && Tidy(store.View())
    modifies store
    ensures store.Accounted() && Tidy(store.View())
    ensures Reading(c, old(store.View()), Drained([words], [], Running), clock) == if ok then Some(store.View()) else None
  {
    hide DataStore.Accounted, Handle, AutoLog, Outcome, ReadCommand, Reading, ReadAll;
    ReadingOne(c, store.View(), words, clock);
    var cmd := ReadCommand(c, words);
    if cmd.None? {
      return false;
    }
    HandleTidy(store.View(), cmd.value, clock);
    var reply, gone := store.Dispatch(cmd.value, clock);
    ok := !reply.Error?;
  }

  /** The inner loop of `_read_stream`: parse, advance, dispatch, and stop at an error. */
  method TakeCommands(store: DataStore, c: Codec, start: Bytes, clock: real) returns (ok: bool, buffer: Bytes, ghost words: seq<seq<Bytes>>)
    requires store.Accounted() && store.maxMemory <= 0 && Tidy(store.View())
    modifies store
    ensures store.Accounted() && Tidy(store.View())
    ensures Reading(c, old(store.View()), Drain(start), clock) == if ok then Some(store.View()) else None
    ensures ok ==> Drain(start) == Drained(words, buffer, Running)
  {
    hide DataStore.Accounted, Parse, Slice, Reading, Drain;
    ghost var db := store.View();
    ok, buffer, words := true, start, [];
    assert AfterCommands([], Drain(start)) == Drain(start);
    while buffer != []
      invariant store.Accounted() && Tidy(store.View()) && ok
      invariant Drain(start) == AfterCommands(words, Drain(buffer))
      invariant Reading(c, db, Drain(start), clock) == Reading(c, store.View(), Drain(buffer), clock)
      decreases |buffer|
    {
      match Parse(buffer) {
        case Incomplete =>
          DrainNothing(buffer);
          break;
        case Malformed =>
          DrainBad(buffer);
          NotRunning(c, store.View(), Drain(buffer), clock);
          ok := false;
          return;
        case Parsed(command, consumed) =>
          DrainParsed(buffer, command, consumed);
          var after := Slice(buffer, consumed, |buffer|);
          ghost var before := store.View();
          ok := DispatchWords(store, c, command, clock);
          if |after| >= |buffer| {
            NotRunning(c, before, Drain(buffer), clock);
            ok := false;
            return;
          }
          ReadingAfter(c, before, [command], Drain(after), clock);
          AfterTwice(words, [command], Drain(after));
          if !ok {
            return;
          }
          words, buffer := words + [command], after;
      }
    }
    DrainEmpty();
    ReadingNothing(c, store.View(), buffer, clock);
    assert words + [] == words;
  }

  lemma NotRunning(c: Codec, db: Db, d: Drained, clock: real)
    requires d.status != Running
    ensures Reading(c, db, d, clock) == None
  {
  }

  /** `_read_stream`: chunk after chunk into the buffer, every whole command dispatched at once; an
  error, or a command cut short at the end, fails the load. */
  method ReadStream(store: DataStore, c: Codec, chunks: seq<Bytes>, clock: real) returns (ok: bool)
    requires store.Accounted() && store.maxMemory <= 0 && Tidy(store.View())
    modifies store
    ensures store.Accounted() && Tidy(store.View())
    ensures var d := Feed([], chunks); var r := Reading(c, old(store.View()), d, clock);
      (ok <==> r.Some? && Strip(d.rest) == []) && (ok ==> r == Some(store.View()))
  {
    hide DataStore.Accounted, Reading, Drain, Feed, Strip;
    ghost var db, words := store.View(), [];
    var buffer: Bytes := [];
    assert AfterCommands([], Feed([], chunks)) == Feed([], chunks);
    for i := 0 to |chunks|
      invariant store.Accounted() && Tidy(store.View())
      invariant Feed([], chunks) == AfterCommands(words, Feed(buffer, chunks[i..]))
      invariant Reading(c, db, Feed([], chunks), clock) == Reading(c, store.View(), Feed(buffer, chunks[i..]), clock)
    {
      FeedStep(buffer, chunks, i);
      ghost var first, before := Drain(buffer + chunks[i]), store.View();
      ghost var more;
      ok, buffer, more := TakeCommands(store, c, buffer + chunks[i], clock);
      if !ok {
        StopsReading(c, before, first, Feed(first.rest, chunks[i + 1..]), clock);
        return;
      }
      ReadingAfter(c, before, more, Feed(buffer, chunks[i + 1..]), clock);
      RestOfNone(c, before, more, buffer, clock);
      AfterTwice(words, more, Feed(buffer, chunks[i + 1..]));
      words := words + more;
    }
    assert chunks[|chunks|..] == [];
    FeedNothing(buffer);
    ReadingNothing(c, store.View(), buffer, clock);
    ok := Strip(buffer) == [];
  }

  lemma FeedNothing(buffer: Bytes)
    ensures Feed(buffer, []) == Drained([], buffer, Running)
  {
  }

  lemma RestOfNone(c: Codec, db: Db, words: seq<seq<Bytes>>, rest: Bytes, clock: real)
    ensures Reading(c, db, Drained(words, rest, Running), clock) == Reading(c, db, Drained(words, [], Running), clock)
  {
  }

  /** What fails in the middle fails. */
  lemma StopsReading(c: Codec, db: Db, first: Drained, more: Drained, clock: real)
    requires Reading(c, db, first, clock).None?
    ensures first.status == Running ==> Reading(c, db, AfterCommands(first.commands, more), clock).None?
  {
    hide ReplayFrom, ReadAll;
    if first.status == Running {
      RestOfNone(c, db, first.commands, first.rest, clock);
      ReadingAfter(c, db, first.commands, more, clock);
    }
  }

  // ----- restarts -----

  lemma {:induction false} LogWordsRead(c: Codec, log: seq<Command>)
    requires AllLoggable(log) && AllSpelled(c, log)
    ensures ReadAll(c, LogWords(c, log)) == Some(log)
    decreases |log|
  {
    hide CommandWords, ReadCommand, Words, Spelled, Loggable;
    if log != [] {
      CommandReads(c, log[0]);
      LogWordsRead(c, log[1..]);
      assert LogWords(c, log)[1..] == LogWords(c, log[1..]);
      HeadTail(log);
    }
  }

  /** The file of a log has its commands as frames of words, and those words are read as its commands. */
  lemma LogReads(c: Codec, log: seq<Command>)
    requires AllLoggable(log) && AllSpelled(c, log)
    ensures IsFile(c, FileBytes(c, log), log)
    ensures ReadAll(c, LogWords(c, log)) == Some(log)
  {
    hide IsFile, FileBytes, ReadAll, LogWords, AllLoggable, AllSpelled;
    FileFramed(c, log);
    LogWordsRead(c, log);
  }

  /** A restart from a log file. Whatever the chunks it is read in, the new store has what is left
  by then of the keyspace the log was right for, less what has to go for the limit; a file that
  ends in the middle of a command is refused. */
  method RestartFromFile(c: Codec, sizeOf: Sizer, maxMemory: int, policy: Policy, chunks: seq<Bytes>, clock: real, t: real)
    returns (store: DataStore, ok: bool, ghost gone: seq<Key>)
    ensures fresh(store) && store.Accounted()
    ensures maxMemory <= 0 ==> gone == []
    ensures maxMemory > 0 && ok ==> store.usedMemory <= maxMemory
    ensures forall db, log ::
      AllLoggable(log) && AllSpelled(c, log) && LateFaithful(db, log, clock) && Concat(chunks) == FileBytes(c, log) ==>
        && store.View() == DeleteAll(Late(db, clock), gone) && store.log == log
        && (maxMemory <= 0 || policy.AllKeysLru? || policy.AllKeysRandom? ==> ok)
    ensures forall log, tail ::
      AllLoggable(log) && Torn(tail) && tail != [] && Concat(chunks) == FileBytes(c, log) + tail ==> !ok
  {
    hide EncodeAll, LogWords, Feed, LateFaithful, Late, ReplayFrom, Torn, Concat, DataStore.Accounted, DeleteAll, Total, Sizes;
    hide DataStore.Sweepable, Spared, ReadAll, Strip, Alive;
    var replayed := new DataStore(sizeOf, 0, policy);
    TidyEmpty();
    var whole := ReadStream(replayed, c, chunks, clock);
    forall log, tail | AllLoggable(log) && Torn(tail) && Concat(chunks) == FileBytes(c, log) + tail
      ensures Feed([], chunks) == Drained(LogWords(c, log), tail, Running) && (Strip(tail) == [] <==> tail == [])
    {
      ReadExact(chunks, LogWords(c, log), tail);
    }
    NothingTorn();
    assert forall log :: AllLoggable(log) ==> FileBytes(c, log) + [] == FileBytes(c, log);
    forall log | AllLoggable(log) && AllSpelled(c, log) ensures ReadAll(c, LogWords(c, log)) == Some(log) {
      LogReads(c, log);
    }
    forall db, log | LateFaithful(db, log, clock) ensures Replay(log, clock) == Some(Late(db, clock)) {
      FaithfulReplays(db, log, clock);
    }
    // The file stays the log.
    var log := ReadAll(c, Feed([], chunks).commands);
    store, ok, gone := MakeRoom(replayed, whole, maxMemory, if log.Some? then log.value else [], t);
  }

  lemma FaithfulReplays(db: Db, log: seq<Command>, clock: real)
    requires LateFaithful(db, log, clock)
    ensures Replay(log, clock) == Some(Late(db, clock))
  {
  }

  lemma NothingTorn()
    ensures Torn([])
  {
  }

  /** The file that a run leaves. */
  ghost function RunBytes(c: Codec, requests: seq<Request>): Bytes {
    RunLoggable(requests);
    FileBytes(c, Run(requests).log)
  }

  /** From requests to a restart, without a limit: if the texts and scores of the requests are
  read back as they were, and no request breaks at that clock, then from the bytes of the log, cut
  into any chunks, a new server has what is left by then of what the old one had: every key without
  a deadline or with one at least a millisecond ahead, and none whose deadline has come. */
  method RestartOfRun(c: Codec, sizeOf: Sizer, policy: Policy, ghost requests: seq<Request>, chunks: seq<Bytes>, clock: real)
    returns (store: DataStore, ok: bool)
    requires Concat(chunks) == RunBytes(c, requests)
    requires forall i :: 0 <= i < |requests| ==> Spelled(c, requests[i].cmd)
    requires NeverBreaks(requests, clock)
    ensures fresh(store) && ok && store.View() == Late(Run(requests).db, clock)
    ensures BroughtBack(Run(requests).db, store.View(), clock)
  {
    hide BroughtBack, Spelled, Late, Run, LateFaithful, Concat, FileBytes, Loggable, DataStore.Accounted;
    RunLoggable(requests);
    RunSpelled(c, requests);
    RunLate(requests, clock);
    RunTidy(requests);
    LateIsBack(Run(requests).db, clock);
    ghost var gone;
    store, ok, gone := RestartFromFile(c, sizeOf, 0, policy, chunks, clock, clock);
  }
}
