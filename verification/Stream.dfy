/** The buffer loop over incoming chunks: of the append-only file on start, and of a connection. */
module Stream {
  import opened Numbers
  import opened Resp

  datatype Status = Running | BadNumber | Stuck

  datatype Drained = Drained(commands: seq<seq<Bytes>>, rest: Bytes, status: Status)

  /** Takes every whole command off the front of the buffer. Stuck marks a command after
  which the buffer would not get shorter. */
  function Drain(buffer: Bytes): Drained
    decreases |buffer|
  {
    if buffer == [] then Drained([], buffer, Running)
    else
      match Parse(buffer)
      case Incomplete => Drained([], buffer, Running)
      case Malformed => Drained([], buffer, BadNumber)
      case Parsed(command, consumed) =>
        var after := Slice(buffer, consumed, |buffer|);
        if |after| >= |buffer| then Drained([command], buffer, Stuck)
        else
          var more := Drain(after);
          more.(commands := [command] + more.commands)
  }

  /** What reading chunk after chunk comes to, from a buffer on. */
  function Feed(buffer: Bytes, chunks: seq<Bytes>): Drained
    decreases |chunks|
  {
    if chunks == [] then Drained([], buffer, Running)
    else
      var first := Drain(buffer + chunks[0]);
      if first.status != Running then first
      else
        var more := Feed(first.rest, chunks[1..]);
        more.(commands := first.commands + more.commands)
  }

  function AfterCommands(commands: seq<seq<Bytes>>, d: Drained): Drained {
    d.(commands := commands + d.commands)
  }

  lemma FeedStep(buffer: Bytes, chunks: seq<Bytes>, i: nat)
    requires i < |chunks|
    ensures var first := Drain(buffer + chunks[i]);
      Feed(buffer, chunks[i..]) ==
        if first.status != Running then first else AfterCommands(first.commands, Feed(first.rest, chunks[i + 1..]))
  {
    assert chunks[i..][1..] == chunks[i + 1..];
  }

  lemma AfterTwice(a: seq<seq<Bytes>>, b: seq<seq<Bytes>>, d: Drained)
    ensures AfterCommands(a, AfterCommands(b, d)) == AfterCommands(a + b, d)
  {
    assert a + (b + d.commands) == (a + b) + d.commands;
  }

  /** The inner loop of a connection: parse, advance, and hand the command on, whatever its reply. */
  method DrainBuffer(start: Bytes, before: seq<seq<Bytes>>)
    returns (commands: seq<seq<Bytes>>, buffer: Bytes, status: Status)
    ensures Drained(commands, buffer, status) == AfterCommands(before, Drain(start))
  {
    hide Parse, Slice;
    commands, buffer, status := before, start, Running;
    while buffer != []
      invariant status == Running && AfterCommands(before, Drain(start)) == AfterCommands(commands, Drain(buffer))
      decreases |buffer|
    {
      match Parse(buffer) {
        case Incomplete => break;
        case Malformed =>
          status := BadNumber;
          break;
        case Parsed(command, consumed) =>
          var after := Slice(buffer, consumed, |buffer|);
          commands := commands + [command];
          if |after| >= |buffer| {
            status := Stuck;
            break;
          }
          AfterTwice(commands[..|commands| - 1], [command], Drain(after));
          buffer := after;
      }
    }
  }

  // ----- chunking does not matter -----

  function Concat(chunks: seq<Bytes>): Bytes {
    if chunks == [] then [] else chunks[0] + Concat(chunks[1..])
  }

  /** Chunk after chunk, from the front. */
  lemma {:induction false} ConcatSnoc(chunks: seq<Bytes>, chunk: Bytes)
    ensures Concat(chunks + [chunk]) == Concat(chunks) + chunk && Concat([]) == []
    decreases |chunks|
  {
    if chunks == [] {
      assert [chunk][1..] == [] && chunk + [] == [] + chunk;
    } else {
      assert (chunks + [chunk])[1..] == chunks[1..] + [chunk];
      ConcatSnoc(chunks[1..], chunk);
    }
  }

  function EncodeAll(commands: seq<seq<Bytes>>): Bytes {
    if commands == [] then [] else EncodeArray(commands[0]) + EncodeAll(commands[1..])
  }

  /** Nothing, or an encoded command that was cut short. */
  ghost predicate Torn(tail: Bytes) {
    tail == [] || exists cmd :: tail < EncodeArray(cmd)
  }

  /** The buffer holds no whole command of the stream that is still to come. */
  ghost predicate Waiting(buffer: Bytes, commands: seq<seq<Bytes>>) {
    commands != [] ==> |buffer| < |EncodeArray(commands[0])|
  }

  lemma {:induction false} EncodeAllStartsTorn(buffer: Bytes, more: Bytes, tail: Bytes)
    requires buffer + more == tail && Torn(tail)
    ensures Parse(buffer) == Incomplete
  {
    if tail == [] {
      assert buffer == [];
    } else {
      var cmd :| tail < EncodeArray(cmd);
      assert buffer <= tail;
      PrefixIncomplete(cmd, buffer);
    }
  }

  lemma DrainBad(buffer: Bytes)
    requires buffer != [] && Parse(buffer) == Malformed
    ensures Drain(buffer) == Drained([], buffer, BadNumber)
  {
    hide Parse, Slice;
  }

  /** One command off the front. */
  lemma DrainParsed(buffer: Bytes, command: seq<Bytes>, consumed: int)
    requires buffer != [] && Parse(buffer) == Parsed(command, consumed)
    ensures var after := Slice(buffer, consumed, |buffer|);
      Drain(buffer) == if |after| >= |buffer| then Drained([command], buffer, Stuck) else AfterCommands([command], Drain(after))
  {
    hide Parse, Slice;
  }

  lemma DrainEmpty()
    ensures Drain([]) == Drained([], [], Running)
  {
  }

  lemma DrainNothing(buffer: Bytes)
    requires Parse(buffer) == Incomplete
    ensures Drain(buffer) == Drained([], buffer, Running)
  {
    hide Parse, Slice;
  }

  lemma DrainOne(buffer: Bytes, cmd: seq<Bytes>, e: Bytes, after: Bytes)
    requires Parse(buffer) == Parsed(cmd, |e|) && buffer == e + after && e != []
    ensures Drain(buffer) == AfterCommands([cmd], Drain(after))
  {
    hide Parse, Slice;
    TakeFront(buffer, |e|);
  }

  lemma NothingTaken(buffer: Bytes, more: Bytes, commands: seq<seq<Bytes>>, tail: Bytes)
    requires buffer + more == EncodeAll(commands) + tail && Torn(tail)
    requires commands == [] || buffer < EncodeArray(commands[0])
    ensures Drain(buffer) == Drained([], buffer, Running) && Waiting(buffer, commands)
  {
    hide Drain, Parse, EncodeArray;
    if commands == [] {
      assert EncodeAll(commands) + tail == tail;
      EncodeAllStartsTorn(buffer, more, tail);
    } else {
      PrefixIncomplete(commands[0], buffer);
    }
    DrainNothing(buffer);
  }

  /** Draining the front of an encoded stream takes exactly the commands that are whole. */
  lemma {:induction false} DrainExact(buffer: Bytes, more: Bytes, commands: seq<seq<Bytes>>, tail: Bytes) returns (k: nat)
    requires buffer + more == EncodeAll(commands) + tail && Torn(tail)
    ensures k <= |commands| && Drain(buffer).commands == commands[..k] && Drain(buffer).status == Running
    ensures Drain(buffer).rest + more == EncodeAll(commands[k..]) + tail
    ensures Waiting(Drain(buffer).rest, commands[k..])
    decreases |commands|
  {
    hide Drain, Parse, EncodeArray, Waiting, Torn;
    k := 0;
    if commands == [] {
      NothingTaken(buffer, more, commands, tail);
    } else {
      var e, others := EncodeArray(commands[0]), EncodeAll(commands[1..]) + tail;
      assert EncodeAll(commands) + tail == e + others;
      SplitStream(buffer, more, e, others);
      if |buffer| < |e| {
        NothingTaken(buffer, more, commands, tail);
      } else {
        var after := buffer[|e|..];
        RoundTrip(commands[0], after);
        NotEmpty(commands[0]);
        DrainOne(buffer, commands[0], e, after);
        var m := DrainExact(after, more, commands[1..], tail);
        k := m + 1;
        assert commands[..k] == [commands[0]] + commands[1..][..m] && commands[k..] == commands[1..][m..];
      }
    }
  }

  lemma SplitStream(buffer: Bytes, more: Bytes, e: Bytes, others: Bytes)
    requires buffer + more == e + others
    ensures |buffer| < |e| ==> buffer < e
    ensures |buffer| >= |e| ==> buffer == e + buffer[|e|..] && buffer[|e|..] + more == others
  {
    var all := e + others;
    assert buffer == all[..|buffer|];
    if |buffer| >= |e| {
      assert e == all[..|e|] && others == all[|e|..];
      assert buffer[|e|..] + more == (buffer + more)[|e|..];
    }
  }

  lemma TakeFront(buffer: Bytes, n: nat)
    requires n <= |buffer|
    ensures Slice(buffer, n, |buffer|) == buffer[n..]
  {
  }

  lemma NotEmpty(cmd: seq<Bytes>)
    ensures |EncodeArray(cmd)| > 0
  {
  }

  /** The chunks of a stream of encoded commands, however it was cut, are read as exactly
  those commands; what is left over is the torn end. */
  lemma {:induction false} FeedExact(buffer: Bytes, chunks: seq<Bytes>, commands: seq<seq<Bytes>>, tail: Bytes)
    requires buffer + Concat(chunks) == EncodeAll(commands) + tail && Torn(tail) && Waiting(buffer, commands)
    ensures Feed(buffer, chunks) == Drained(commands, tail, Running)
    decreases |chunks|
  {
    hide Drain, EncodeArray, Torn;
    if chunks == [] {
      AllTaken(buffer, commands, tail);
    } else {
      hide EncodeAll, Waiting, Feed;
      var first := Drain(buffer + chunks[0]);
      assert buffer + chunks[0] + Concat(chunks[1..]) == buffer + Concat(chunks);
      var k := DrainExact(buffer + chunks[0], Concat(chunks[1..]), commands, tail);
      FeedExact(first.rest, chunks[1..], commands[k..], tail);
      assert chunks[0..] == chunks && commands[..k] + commands[k..] == commands;
      FeedStep(buffer, chunks, 0);
    }
  }

  lemma AllTaken(buffer: Bytes, commands: seq<seq<Bytes>>, tail: Bytes)
    requires buffer + [] == EncodeAll(commands) + tail && Waiting(buffer, commands)
    ensures commands == [] && buffer == tail
  {
    assert buffer == EncodeAll(commands) + tail;
  }

  /** A torn end is seen: it is never blank. */
  lemma TornIsSeen(tail: Bytes)
    requires Torn(tail)
    ensures Strip(tail) == [] <==> tail == []
  {
    if tail != [] {
      var cmd :| tail < EncodeArray(cmd);
      ArrayLayout(cmd);
      assert tail[0] == STAR && StripLeft(tail) == tail;
      StarStays(tail);
    }
  }

  lemma {:induction false} StarStays(s: Bytes)
    requires s != [] && s[0] == STAR
    ensures StripRight(s) != []
  {
    if IsSpace(s[|s| - 1]) {
      StarStays(s[..|s| - 1]);
    }
  }

  /** Reading back a log file: a whole log gives its commands whatever the chunk size, and a
  log with a torn end is refused after the whole commands were handed on. */
  lemma ReadExact(chunks: seq<Bytes>, commands: seq<seq<Bytes>>, tail: Bytes)
    requires Concat(chunks) == EncodeAll(commands) + tail && Torn(tail)
    ensures Feed([], chunks) == Drained(commands, tail, Running)
    ensures Strip(Feed([], chunks).rest) == [] <==> tail == []
  {
    assert [] + Concat(chunks) == Concat(chunks);
    if commands != [] {
      NotEmpty(commands[0]);
    }
    FeedExact([], chunks, commands, tail);
    TornIsSeen(tail);
  }
}
