/** The log as bytes: the words a command is written in, and a restart from the bytes of a file. */
module Wire {
  import opened Ordering
  import opened Numbers
  import opened Commands
  import opened Aof
  import opened Outcomes
  import opened Fidelity
  import opened Resp
  import opened Stream
  import opened Utf8

  /** How texts and scores are spelled. */
  datatype Codec = Codec(text: Text -> Bytes, readText: Bytes -> Text, score: Score -> Bytes, readScore: Bytes -> Option<Score>)

  predicate TextRead(c: Codec, x: Text) {
    c.readText(c.text(x)) == x
  }

  ghost predicate TextsSpelled(c: Codec, xs: seq<Text>) {
    forall i :: 0 <= i < |xs| ==> TextRead(c, xs[i])
  }

  ghost predicate PairsSpelled(c: Codec, pairs: seq<(Text, Text)>) {
    forall i :: 0 <= i < |pairs| ==> TextRead(c, pairs[i].0) && TextRead(c, pairs[i].1)
  }

  ghost predicate ScoresSpelled(c: Codec, entries: seq<(Score, Text)>) {
    forall i :: 0 <= i < |entries| ==> ScoreRead(c, entries[i].0) && TextRead(c, entries[i].1)
  }

  predicate ScoreRead(c: Codec, score: Score) {
    c.readScore(c.score(score)) == Some(score)
  }

  ghost predicate OpSpelled(c: Codec, op: Op) {
    match op
    case IncrBy(_) => true
    case Append(_) => true
    case HSet(pairs) => PairsSpelled(c, pairs)
    case HDel(fields) => TextsSpelled(c, fields)
    case LPush(values) => TextsSpelled(c, values)
    case RPush(values) => TextsSpelled(c, values)
    case LPop => true
    case RPop => true
    case LSet(_, value) => TextRead(c, value)
    case SAdd(members) => TextsSpelled(c, members)
    case SRem(members) => TextsSpelled(c, members)
    case ZAdd(entries) => ScoresSpelled(c, entries)
    case ZRem(members) => TextsSpelled(c, members)
  }

  /** The texts and the scores of the command are read back as they were. */
  ghost predicate Spelled(c: Codec, cmd: Command) {
    match cmd
    case Set(key, _, _) => TextRead(c, key)
    case MSet(pairs) => forall i :: 0 <= i < |pairs| ==> TextRead(c, pairs[i].0)
    case Write(key, op) => TextRead(c, key) && OpSpelled(c, op)
    case Del(keys) => TextsSpelled(c, keys)
    case Expire(key, _) => TextRead(c, key)
    case PExpireAt(key, _) => TextRead(c, key)
    case Persist(key) => TextRead(c, key)
    case FlushAll => true
    case Read(keys) => TextsSpelled(c, keys)
  }

  // ----- names -----

  datatype Name =
    | SetName | IncrByName | AppendName | HSetName | HDelName | LPushName | RPushName | LPopName | RPopName
    | LSetName | SAddName | SRemName | ZAddName | ZRemName | DelName | PExpireAtName | PersistName | FlushAllName

  /** The name of a command in ASCII. */
  function Word(name: Name): Bytes {
    match name
    case SetName => [83, 69, 84]  // SET
    case IncrByName => [73, 78, 67, 82, 66, 89]  // INCRBY
    case AppendName => [65, 80, 80, 69, 78, 68]  // APPEND
    case HSetName => [72, 83, 69, 84]  // HSET
    case HDelName => [72, 68, 69, 76]  // HDEL
    case LPushName => [76, 80, 85, 83, 72]  // LPUSH
    case RPushName => [82, 80, 85, 83, 72]  // RPUSH
    case LPopName => [76, 80, 79, 80]  // LPOP
    case RPopName => [82, 80, 79, 80]  // RPOP
    case LSetName => [76, 83, 69, 84]  // LSET
    case SAddName => [83, 65, 68, 68]  // SADD
    case SRemName => [83, 82, 69, 77]  // SREM
    case ZAddName => [90, 65, 68, 68]  // ZADD
    case ZRemName => [90, 82, 69, 77]  // ZREM
    case DelName => [68, 69, 76]  // DEL
    case PExpireAtName => [80, 69, 88, 80, 73, 82, 69, 65, 84]  // PEXPIREAT
    case PersistName => [80, 69, 82, 83, 73, 83, 84]  // PERSIST
    case FlushAllName => [70, 76, 85, 83, 72, 65, 76, 76]  // FLUSHALL
  }

  function ReadName(word: Bytes): Option<Name> {
    if word == Word(SetName) then Some(SetName)
    else if word == Word(IncrByName) then Some(IncrByName)
    else if word == Word(AppendName) then Some(AppendName)
    else if word == Word(HSetName) then Some(HSetName)
    else if word == Word(HDelName) then Some(HDelName)
    else if word == Word(LPushName) then Some(LPushName)
    else if word == Word(RPushName) then Some(RPushName)
    else if word == Word(LPopName) then Some(LPopName)
    else if word == Word(RPopName) then Some(RPopName)
    else if word == Word(LSetName) then Some(LSetName)
    else if word == Word(SAddName) then Some(SAddName)
    else if word == Word(SRemName) then Some(SRemName)
    else if word == Word(ZAddName) then Some(ZAddName)
    else if word == Word(ZRemName) then Some(ZRemName)
    else if word == Word(DelName) then Some(DelName)
    else if word == Word(PExpireAtName) then Some(PExpireAtName)
    else if word == Word(PersistName) then Some(PersistName)
    else if word == Word(FlushAllName) then Some(FlushAllName)
    else None
  }

  lemma NameReads(name: Name)
    ensures ReadName(Word(name)) == Some(name)
  {
  }

  // ----- arguments -----

  function Texts(c: Codec, xs: seq<Text>): seq<Bytes> {
    seq(|xs|, i requires 0 <= i < |xs| => c.text(xs[i]))
  }

  function ReadTexts(c: Codec, words: seq<Bytes>): seq<Text> {
    seq(|words|, i requires 0 <= i < |words| => c.readText(words[i]))
  }

  lemma TextsRead(c: Codec, xs: seq<Text>)
    requires TextsSpelled(c, xs)
    ensures ReadTexts(c, Texts(c, xs)) == xs
  {
  }

  function Pairs(c: Codec, pairs: seq<(Text, Text)>): seq<Bytes> {
    if pairs == [] then [] else [c.text(pairs[0].0), c.text(pairs[0].1)] + Pairs(c, pairs[1..])
  }

  function ReadPairs(c: Codec, words: seq<Bytes>): Option<seq<(Text, Text)>>
    decreases |words|
  {
    if words == [] then Some([])
    else if |words| == 1 then None
    else
      match ReadPairs(c, words[2..])
      case None => None
      case Some(rest) => Some([(c.readText(words[0]), c.readText(words[1]))] + rest)
  }

  lemma {:induction false} PairsRead(c: Codec, pairs: seq<(Text, Text)>)
    requires PairsSpelled(c, pairs)
    ensures ReadPairs(c, Pairs(c, pairs)) == Some(pairs)
    decreases |pairs|
  {
    if pairs != [] {
      PairsRead(c, pairs[1..]);
      assert Pairs(c, pairs)[2..] == Pairs(c, pairs[1..]);
      assert [pairs[0]] + pairs[1..] == pairs;
    }
  }

  function Scores(c: Codec, entries: seq<(Score, Text)>): seq<Bytes> {
    if entries == [] then [] else [c.score(entries[0].0), c.text(entries[0].1)] + Scores(c, entries[1..])
  }

  function ReadScores(c: Codec, words: seq<Bytes>): Option<seq<(Score, Text)>>
    decreases |words|
  {
    if words == [] then Some([])
    else if |words| == 1 then None
    else
      match (c.readScore(words[0]), ReadScores(c, words[2..]))
      case (Some(score), Some(rest)) => Some([(score, c.readText(words[1]))] + rest)
      case _ => None
  }

  lemma {:induction false} ScoresRead(c: Codec, entries: seq<(Score, Text)>)
    requires ScoresSpelled(c, entries)
    ensures ReadScores(c, Scores(c, entries)) == Some(entries)
    decreases |entries|
  {
    if entries != [] {
      ScoresRead(c, entries[1..]);
      assert Scores(c, entries)[2..] == Scores(c, entries[1..]);
      assert [entries[0]] + entries[1..] == entries;
    }
  }

  // ----- commands -----

  /** The commands the log is written in. */
  predicate Loggable(cmd: Command) {
    (cmd.Set? && cmd.options == []) || cmd.Write? || cmd.Del? || cmd.PExpireAt? || cmd.Persist? || cmd.FlushAll?
  }

  function NameOf(cmd: Command): Name
    requires Loggable(cmd)
  {
    match cmd
    case Set(_, _, _) => SetName
    case Del(_) => DelName
    case PExpireAt(_, _) => PExpireAtName
    case Persist(_) => PersistName
    case FlushAll => FlushAllName
    case Write(_, op) =>
      match op
      case IncrBy(_) => IncrByName
      case Append(_) => AppendName
      case HSet(_) => HSetName
      case HDel(_) => HDelName
      case LPush(_) => LPushName
      case RPush(_) => RPushName
      case LPop => LPopName
      case RPop => RPopName
      case LSet(_, _) => LSetName
      case SAdd(_) => SAddName
      case SRem(_) => SRemName
      case ZAdd(_) => ZAddName
      case ZRem(_) => ZRemName
  }

  function OpWords(c: Codec, op: Op): seq<Bytes> {
    match op
    case IncrBy(delta) => [PrintInt(delta)]
    case Append(suffix) => [suffix]
    case HSet(pairs) => Pairs(c, pairs)
    case HDel(fields) => Texts(c, fields)
    case LPush(values) => Texts(c, values)
    case RPush(values) => Texts(c, values)
    case LPop => []
    case RPop => []
    case LSet(index, value) => [PrintInt(index), c.text(value)]
    case SAdd(members) => Texts(c, members)
    case SRem(members) => Texts(c, members)
    case ZAdd(entries) => Scores(c, entries)
    case ZRem(members) => Texts(c, members)
  }

  function Arguments(c: Codec, cmd: Command): seq<Bytes>
    requires Loggable(cmd)
  {
    match cmd
    case Set(key, value, _) => [c.text(key), value]
    case Write(key, op) => [c.text(key)] + OpWords(c, op)
    case Del(keys) => Texts(c, keys)
    case PExpireAt(key, ms) => [c.text(key), PrintInt(ms)]
    case Persist(key) => [c.text(key)]
    case FlushAll => []
  }

  /** The command as the list of strings that `_append_command` encodes. */
  function Words(c: Codec, cmd: Command): seq<Bytes>
    requires Loggable(cmd)
  {
    [Word(NameOf(cmd))] + Arguments(c, cmd)
  }

  // ----- the words, said of letters and places -----

  predicate Ascii(w: Bytes, name: string) {
    |w| == |name| && forall i :: 0 <= i < |w| ==> w[i] == name[i] as int
  }

  function OpName(op: Op): string {
    match op
    case IncrBy(_) => "INCRBY"
    case Append(_) => "APPEND"
    case HSet(_) => "HSET"
    case HDel(_) => "HDEL"
    case LPush(_) => "LPUSH"
    case RPush(_) => "RPUSH"
    case LPop => "LPOP"
    case RPop => "RPOP"
    case LSet(_, _) => "LSET"
    case SAdd(_) => "SADD"
    case SRem(_) => "SREM"
    case ZAdd(_) => "ZADD"
    case ZRem(_) => "ZREM"
  }

  ghost predicate TextsAt(c: Codec, words: seq<Bytes>, first: nat, xs: seq<Text>) {
    |words| == first + |xs| && forall i :: 0 <= i < |xs| ==> words[first + i] == c.text(xs[i])
  }

  /** The words of a write: its name, its key, and its arguments in their order; ZADD has the score
  before the member. */
  ghost predicate WriteWords(c: Codec, words: seq<Bytes>, key: Key, op: Op) {
    && |words| >= 2 && Ascii(words[0], OpName(op)) && words[1] == c.text(key)
    && match op
       case IncrBy(delta) => |words| == 3 && Decimal(words[2], delta)
       case Append(suffix) => |words| == 3 && words[2] == suffix
       case HSet(pairs) =>
         && |words| == 2 + 2 * |pairs|
         && forall i :: 0 <= i < |pairs| ==> words[2 + 2 * i] == c.text(pairs[i].0) && words[3 + 2 * i] == c.text(pairs[i].1)
       case HDel(fields) => TextsAt(c, words, 2, fields)
       case LPush(values) => TextsAt(c, words, 2, values)
       case RPush(values) => TextsAt(c, words, 2, values)
       case LPop => |words| == 2
       case RPop => |words| == 2
       case LSet(index, value) => |words| == 4 && Decimal(words[2], index) && words[3] == c.text(value)
       case SAdd(members) => TextsAt(c, words, 2, members)
       case SRem(members) => TextsAt(c, words, 2, members)
       case ZAdd(entries) =>
         && |words| == 2 + 2 * |entries|
         && forall i :: 0 <= i < |entries| ==> words[2 + 2 * i] == c.score(entries[i].0) && words[3 + 2 * i] == c.text(entries[i].1)
       case ZRem(members) => TextsAt(c, words, 2, members)
  }

  ghost predicate CommandWords(c: Codec, words: seq<Bytes>, cmd: Command)
    requires Loggable(cmd)
  {
    match cmd
    case Set(key, value, _) => |words| == 3 && Ascii(words[0], "SET") && words[1] == c.text(key) && words[2] == value
    case Write(key, op) => WriteWords(c, words, key, op)
    case Del(keys) => words != [] && Ascii(words[0], "DEL") && TextsAt(c, words, 1, keys)
    case PExpireAt(key, ms) => |words| == 3 && Ascii(words[0], "PEXPIREAT") && words[1] == c.text(key) && Decimal(words[2], ms)
    case Persist(key) => |words| == 2 && Ascii(words[0], "PERSIST") && words[1] == c.text(key)
    case FlushAll => |words| == 1 && Ascii(words[0], "FLUSHALL")
  }

  lemma {:induction false} PairsAt(c: Codec, pairs: seq<(Text, Text)>)
    ensures |Pairs(c, pairs)| == 2 * |pairs|
    ensures forall i :: 0 <= i < |pairs| ==>
      Pairs(c, pairs)[2 * i] == c.text(pairs[i].0) && Pairs(c, pairs)[1 + 2 * i] == c.text(pairs[i].1)
    decreases |pairs|
  {
    if pairs != [] {
      PairsAt(c, pairs[1..]);
      var words, rest := Pairs(c, pairs), Pairs(c, pairs[1..]);
      forall i | 0 <= i < |pairs| ensures words[2 * i] == c.text(pairs[i].0) && words[1 + 2 * i] == c.text(pairs[i].1) {
        if i > 0 {
          assert words[2 * i] == rest[2 * (i - 1)] && words[1 + 2 * i] == rest[1 + 2 * (i - 1)];
          assert pairs[1..][i - 1] == pairs[i];
        }
      }
    }
  }

  lemma {:induction false} ScoresAt(c: Codec, entries: seq<(Score, Text)>)
    ensures |Scores(c, entries)| == 2 * |entries|
    ensures forall i :: 0 <= i < |entries| ==>
      Scores(c, entries)[2 * i] == c.score(entries[i].0) && Scores(c, entries)[1 + 2 * i] == c.text(entries[i].1)
    decreases |entries|
  {
    if entries != [] {
      ScoresAt(c, entries[1..]);
      var words, rest := Scores(c, entries), Scores(c, entries[1..]);
      forall i | 0 <= i < |entries| ensures words[2 * i] == c.score(entries[i].0) && words[1 + 2 * i] == c.text(entries[i].1) {
        if i > 0 {
          assert words[2 * i] == rest[2 * (i - 1)] && words[1 + 2 * i] == rest[1 + 2 * (i - 1)];
          assert entries[1..][i - 1] == entries[i];
        }
      }
    }
  }

  lemma WriteNamed(key: Key, op: Op)
    ensures Ascii(Word(NameOf(Write(key, op))), OpName(op))
  {
  }

  lemma HSetWorded(c: Codec, words: seq<Bytes>, pairs: seq<(Text, Text)>)
    requires |words| == 2 + |Pairs(c, pairs)| && words[2..] == Pairs(c, pairs)
    ensures |words| == 2 + 2 * |pairs|
    ensures forall i :: 0 <= i < |pairs| ==> words[2 + 2 * i] == c.text(pairs[i].0) && words[3 + 2 * i] == c.text(pairs[i].1)
  {
    hide Pairs;
    PairsAt(c, pairs);
    forall i | 0 <= i < |pairs| ensures words[2 + 2 * i] == c.text(pairs[i].0) && words[3 + 2 * i] == c.text(pairs[i].1) {
      assert words[2 + 2 * i] == words[2..][2 * i] && words[2 + (1 + 2 * i)] == words[2..][1 + 2 * i];
    }
  }

  lemma ZAddWorded(c: Codec, words: seq<Bytes>, entries: seq<(Score, Text)>)
    requires |words| == 2 + |Scores(c, entries)| && words[2..] == Scores(c, entries)
    ensures |words| == 2 + 2 * |entries|
    ensures forall i :: 0 <= i < |entries| ==> words[2 + 2 * i] == c.score(entries[i].0) && words[3 + 2 * i] == c.text(entries[i].1)
  {
    hide Scores;
    ScoresAt(c, entries);
    forall i | 0 <= i < |entries| ensures words[2 + 2 * i] == c.score(entries[i].0) && words[3 + 2 * i] == c.text(entries[i].1) {
      assert words[2 + 2 * i] == words[2..][2 * i] && words[2 + (1 + 2 * i)] == words[2..][1 + 2 * i];
    }
  }

  lemma TextsWorded(c: Codec, words: seq<Bytes>, first: nat, xs: seq<Text>)
    requires |words| == first + |xs| && words[first..] == Texts(c, xs)
    ensures TextsAt(c, words, first, xs)
  {
    forall i | 0 <= i < |xs| ensures words[first + i] == c.text(xs[i]) {
      assert words[first + i] == words[first..][i];
    }
  }

  lemma WriteLayout(c: Codec, key: Key, op: Op)
    ensures var words := Words(c, Write(key, op));
      && |words| == 2 + |OpWords(c, op)| && words[0] == Word(NameOf(Write(key, op))) && words[1] == c.text(key)
      && words[2..] == OpWords(c, op)
  {
    hide Word, NameOf, OpWords;
  }

  lemma WriteWorded(c: Codec, key: Key, op: Op)
    ensures WriteWords(c, Words(c, Write(key, op)), key, op)
  {
    hide Word, Ascii, OpName, NameOf, Words, Decimal, PrintInt, Pairs, Scores, TextsAt;
    WriteNamed(key, op);
    WriteLayout(c, key, op);
    var words := Words(c, Write(key, op));
    match op
    case IncrBy(delta) => PrintIntDecimal(delta);
    case LSet(index, _) => PrintIntDecimal(index);
    case HSet(pairs) => HSetWorded(c, words, pairs);
    case ZAdd(entries) => ZAddWorded(c, words, entries);
    case HDel(fields) => TextsWorded(c, words, 2, fields);
    case LPush(values) => TextsWorded(c, words, 2, values);
    case RPush(values) => TextsWorded(c, words, 2, values);
    case SAdd(members) => TextsWorded(c, words, 2, members);
    case SRem(members) => TextsWorded(c, words, 2, members);
    case ZRem(members) => TextsWorded(c, words, 2, members);
    case _ =>
  }

  lemma CommandWorded(c: Codec, cmd: Command)
    requires Loggable(cmd)
    ensures CommandWords(c, Words(c, cmd), cmd)
  {
    hide Decimal, PrintInt, WriteWords;
    match cmd
    case Write(key, op) => WriteWorded(c, key, op);
    case PExpireAt(_, ms) => PrintIntDecimal(ms);
    case _ =>
  }

  /** The arguments of a write after its key. */
  function ReadOp(c: Codec, name: Name, words: seq<Bytes>): Option<Op> {
    match name
    case IncrByName =>
      if |words| == 1 && ReadInt(words[0]).Some? then Some(IncrBy(ReadInt(words[0]).value)) else None
    case AppendName => if |words| == 1 then Some(Append(words[0])) else None
    case HSetName => if ReadPairs(c, words).Some? then Some(HSet(ReadPairs(c, words).value)) else None
    case HDelName => Some(HDel(ReadTexts(c, words)))
    case LPushName => Some(LPush(ReadTexts(c, words)))
    case RPushName => Some(RPush(ReadTexts(c, words)))
    case LPopName => if words == [] then Some(LPop) else None
    case RPopName => if words == [] then Some(RPop) else None
    case LSetName =>
      if |words| == 2 && ReadInt(words[0]).Some? then Some(LSet(ReadInt(words[0]).value, c.readText(words[1]))) else None
    case SAddName => Some(SAdd(ReadTexts(c, words)))
    case SRemName => Some(SRem(ReadTexts(c, words)))
    case ZAddName => if ReadScores(c, words).Some? then Some(ZAdd(ReadScores(c, words).value)) else None
    case ZRemName => Some(ZRem(ReadTexts(c, words)))
    case _ => None
  }

  function ReadArguments(c: Codec, name: Name, words: seq<Bytes>): Option<Command> {
    match name
    case SetName => if |words| == 2 then Some(Set(c.readText(words[0]), words[1], [])) else None
    case DelName => Some(Del(ReadTexts(c, words)))
    case PExpireAtName =>
      if |words| == 2 && ReadInt(words[1]).Some? then Some(PExpireAt(c.readText(words[0]), ReadInt(words[1]).value)) else None
    case PersistName => if |words| == 1 then Some(Persist(c.readText(words[0]))) else None
    case FlushAllName => if words == [] then Some(FlushAll) else None
    case _ =>
      if words == [] then None
      else
        match ReadOp(c, name, words[1..])
        case None => None
        case Some(op) => Some(Write(c.readText(words[0]), op))
  }

  /** A list of strings as a command of the log. */
  function ReadCommand(c: Codec, words: seq<Bytes>): Option<Command> {
    if words == [] then None
    else
      match ReadName(words[0])
      case None => None
      case Some(name) => ReadArguments(c, name, words[1..])
  }

  lemma OpReads(c: Codec, key: Key, op: Op)
    requires OpSpelled(c, op)
    ensures ReadOp(c, NameOf(Write(key, op)), OpWords(c, op)) == Some(op)
  {
    hide PrintInt, ReadInt, Texts, ReadTexts, Pairs, ReadPairs, Scores, ReadScores;
    match op
    case IncrBy(delta) => ReadPrintedInt(delta);
    case LSet(index, _) => ReadPrintedInt(index);
    case HSet(pairs) => PairsRead(c, pairs);
    case ZAdd(entries) => ScoresRead(c, entries);
    case HDel(fields) => TextsRead(c, fields);
    case LPush(values) => TextsRead(c, values);
    case RPush(values) => TextsRead(c, values);
    case SAdd(members) => TextsRead(c, members);
    case SRem(members) => TextsRead(c, members);
    case ZRem(members) => TextsRead(c, members);
    case _ =>
  }

  /** A command of the log is written in its words, and read back from them. */
  lemma CommandReads(c: Codec, cmd: Command)
    requires Loggable(cmd) && Spelled(c, cmd)
    ensures CommandWords(c, Words(c, cmd), cmd)
    ensures ReadCommand(c, Words(c, cmd)) == Some(cmd)
  {
    hide CommandWords, Words, ReadCommand, Spelled;
    CommandWorded(c, cmd);
    WordsRead(c, cmd);
  }

  lemma WordsRead(c: Codec, cmd: Command)
    requires Loggable(cmd) && Spelled(c, cmd)
    ensures ReadCommand(c, Words(c, cmd)) == Some(cmd)
  {
    hide Word, ReadName, PrintInt, ReadInt, Texts, ReadTexts, OpWords, ReadOp;
    NameReads(NameOf(cmd));
    assert Words(c, cmd)[1..] == Arguments(c, cmd);
    match cmd
    case Write(key, op) =>
      OpReads(c, key, op);
      assert Arguments(c, cmd)[1..] == OpWords(c, op);
    case Del(keys) => TextsRead(c, keys);
    case PExpireAt(_, ms) => ReadPrintedInt(ms);
    case _ =>
  }

  // ----- whole logs -----

  ghost predicate AllLoggable(log: seq<Command>) {
    forall i :: 0 <= i < |log| ==> Loggable(log[i])
  }

  ghost predicate AllSpelled(c: Codec, log: seq<Command>) {
    forall i :: 0 <= i < |log| ==> Spelled(c, log[i])
  }

  function LogWords(c: Codec, log: seq<Command>): seq<seq<Bytes>>
    requires AllLoggable(log)
  {
    seq(|log|, i requires 0 <= i < |log| => Words(c, log[i]))
  }

  /** The file. */
  function FileBytes(c: Codec, log: seq<Command>): Bytes
    requires AllLoggable(log)
  {
    EncodeAll(LogWords(c, log))
  }

  /** The file of a log, said of bytes: one frame after another, each with the words of its command. */
  ghost predicate IsFile(c: Codec, s: Bytes, log: seq<Command>)
    requires AllLoggable(log)
    decreases |log|
  {
    if log == [] then s == []
    else
      exists a, b, words ::
        s == a + b && IsCommand(a, words) && CommandWords(c, words, log[0]) && IsFile(c, b, log[1..])
  }

  lemma {:induction false} FileFramed(c: Codec, log: seq<Command>)
    requires AllLoggable(log)
    ensures IsFile(c, FileBytes(c, log), log)
    decreases |log|
  {
    hide Loggable, Words, CommandWords, IsCommand, EncodeArray;
    if log != [] {
      var words := Words(c, log[0]);
      CommandWorded(c, log[0]);
      CommandFramed(words);
      FileFramed(c, log[1..]);
      assert LogWords(c, log)[1..] == LogWords(c, log[1..]);
      assert FileBytes(c, log) == EncodeArray(words) + FileBytes(c, log[1..]);
    }
  }

  lemma {:induction false} PurgeAllLoggable(db: Db, keys: seq<Key>, t: real)
    ensures AllLoggable(PurgeAllLog(db, keys, t))
    decreases |keys|
  {
    if keys != [] {
      PurgeAllLoggable(Purge(db, keys[0], t), keys[1..], t);
    }
  }

  lemma {:induction false} RecordFinalLoggable(db: Db, keys: seq<Key>, u: real)
    ensures AllLoggable(RecordFinal(db, keys, u).log)
    decreases |keys|
  {
    if keys != [] {
      RecordFinalLoggable(Purge(db, keys[0], u), keys[1..], u);
    }
  }

  lemma HandledLoggable(db: Db, cmd: Command, t: real, gone: seq<Key>, h: Handled)
    requires Outcome(db, cmd, t, gone, h)
    ensures AllLoggable(h.log)
  {
    hide Apply, DeleteAll, Stored, TtlOf;
    match cmd
    case Read(keys) => PurgeAllLoggable(db, keys, t);
    case _ =>
  }

  lemma RecordedLoggable(db: Db, cmd: Command, reply: Reply, u: real)
    ensures AllLoggable(Record(db, cmd, reply, u).log)
  {
    hide DeadlineMs;
    if cmd.MSet? {
      RecordFinalLoggable(db, FirstTimes(cmd.pairs), u);
    }
  }

  /** Whatever a command appends to the log can be written and read back. */
  lemma StepLoggable(db: Db, cmd: Command, t: real, u: real, gone: seq<Key>, h: Handled)
    requires Outcome(db, cmd, t, gone, h)
    ensures AllLoggable(h.log + Record(h.db, cmd, h.reply, u).log)
  {
    hide Outcome, Record, Loggable;
    HandledLoggable(db, cmd, t, gone, h);
    RecordedLoggable(h.db, cmd, h.reply, u);
  }

  lemma {:induction false} RunLoggable(requests: seq<Request>)
    ensures AllLoggable(Run(requests).log)
  {
    hide Handle, Record, Outcome, Loggable;
    if requests != [] {
      var before, last := Run(requests[..|requests| - 1]), requests[|requests| - 1];
      RunLoggable(requests[..|requests| - 1]);
      RunTidy(requests[..|requests| - 1]);
      HandleIsOutcome(before.db, last.cmd, last.t);
      StepLoggable(before.db, last.cmd, last.t, last.u, [], Handle(before.db, last.cmd, last.t));
    }
  }

  // ----- what is logged is spelled as the commands were -----

  ghost predicate KeysSpelled(c: Codec, db: Db) {
    forall k :: k in db.data ==> TextRead(c, k)
  }

  lemma {:induction false} PurgeAllSpelled(c: Codec, db: Db, keys: seq<Key>, t: real)
    requires KeysSpelled(c, db)
    ensures AllSpelled(c, PurgeAllLog(db, keys, t)) && KeysSpelled(c, PurgeAll(db, keys, t))
    decreases |keys|
  {
    if keys != [] {
      PurgeAllSpelled(c, Purge(db, keys[0], t), keys[1..], t);
    }
  }

  lemma {:induction false} RecordFinalSpelled(c: Codec, db: Db, keys: seq<Key>, u: real)
    requires KeysSpelled(c, db) && TextsSpelled(c, keys)
    ensures var r := RecordFinal(db, keys, u); AllSpelled(c, r.log) && KeysSpelled(c, r.db)
    decreases |keys|
  {
    if keys != [] {
      RecordFinalSpelled(c, Purge(db, keys[0], u), keys[1..], u);
    }
  }

  lemma HandledSpelled(c: Codec, db: Db, cmd: Command, t: real)
    requires KeysSpelled(c, db) && Spelled(c, cmd)
    ensures var h := Handle(db, cmd, t); AllSpelled(c, h.log) && KeysSpelled(c, h.db)
  {
    hide TextRead, Apply, TtlOf;
    match cmd
    case MSet(pairs) => NamedSpelled(c, db, pairs);
    case Del(keys) => DeleteAllIs(db, keys);
    case Read(keys) => PurgeAllSpelled(c, db, keys, t);
    case _ =>
  }

  lemma NamedSpelled(c: Codec, db: Db, pairs: seq<(Key, Bytes)>)
    requires Spelled(c, MSet(pairs))
    ensures TextsSpelled(c, FirstTimes(pairs))
    ensures KeysSpelled(c, db) ==> KeysSpelled(c, SetStrings(db, pairs))
  {
    hide TextRead;
    FirstTimesKeys(pairs);
    SetStringsKeys(db, pairs);
    var done := SetStrings(db, pairs);
    forall i | 0 <= i < |FirstTimes(pairs)| ensures TextRead(c, FirstTimes(pairs)[i]) {
      assert FirstTimes(pairs)[i] in FirstTimes(pairs);
    }
    if KeysSpelled(c, db) {
      forall k | k in done.data ensures TextRead(c, k) {
        assert k !in FirstTimes(pairs) ==> Find(done.data, k) == Find(db.data, k);
      }
    }
  }

  lemma RecordedSpelled(c: Codec, db: Db, cmd: Command, reply: Reply, u: real)
    requires KeysSpelled(c, db) && Spelled(c, cmd)
    ensures var r := Record(db, cmd, reply, u); AllSpelled(c, r.log) && KeysSpelled(c, r.db)
  {
    hide TextRead, DeadlineMs;
    if cmd.MSet? {
      NamedSpelled(c, db, cmd.pairs);
      RecordFinalSpelled(c, db, FirstTimes(cmd.pairs), u);
    }
  }

  /** If the texts and scores of all requests are read back, so are those of the log. */
  lemma {:induction false} RunSpelled(c: Codec, requests: seq<Request>)
    requires forall i :: 0 <= i < |requests| ==> Spelled(c, requests[i].cmd)
    ensures AllSpelled(c, Run(requests).log) && KeysSpelled(c, Run(requests).db)
  {
    hide Handle, Record, Spelled, KeysSpelled;
    if requests == [] {
      NoKeysSpelled(c);
    } else {
      var init, last := requests[..|requests| - 1], requests[|requests| - 1];
      RunSpelled(c, init);
      var h := Handle(Run(init).db, last.cmd, last.t);
      HandledSpelled(c, Run(init).db, last.cmd, last.t);
      RecordedSpelled(c, h.db, last.cmd, h.reply, last.u);
    }
  }

  lemma NoKeysSpelled(c: Codec)
    ensures KeysSpelled(c, EMPTY_DB)
  {
  }

  // ----- the codec -----

  const INF: Bytes := [105, 110, 102]

  /** A whole number as its digits, and the infinities as Python prints them. */
  function WholeScore(s: Score): Bytes {
    match s
    case NegInf => [MINUS] + INF
    case PosInf => INF
    case Finite(x) => PrintInt(x.Floor)
  }

  function ReadWholeScore(s: Bytes): Option<Score> {
    if s == INF then Some(PosInf)
    else if s == [MINUS] + INF then Some(NegInf)
    else if ReadInt(s).Some? then Some(Finite(ReadInt(s).value as real))
    else None
  }

  predicate Whole(s: Score) {
    s.Finite? ==> s.value == s.value.Floor as real
  }

  /** UTF-8 with surrogate escapes; of scores, the whole numbers and the infinities. */
  const UTF8 := Codec(EncodeText, Decode, WholeScore, ReadWholeScore)

  function EncodeText(x: Text): Bytes {
    if Encode(x).Some? then Encode(x).value else []
  }

  lemma WholeScoreReads(s: Score)
    requires Whole(s)
    ensures ReadWholeScore(WholeScore(s)) == Some(s)
    ensures if s.Finite? then Decimal(WholeScore(s), s.value.Floor) else Ascii(WholeScore(s), if s.PosInf? then "inf" else "-inf")
  {
    hide Decimal;
    if s.Finite? {
      var n := s.value.Floor;
      PrintIntDecimal(n);
      ReadPrintedInt(n);
      assert IsDigit(PrintInt(n)[if n < 0 then 1 else 0]);
    }
  }

  /** Every text that was read from bytes is read back, and every whole score. */
  lemma Utf8ReadsBack(s: Bytes, score: Score)
    ensures TextRead(UTF8, Decode(s))
    ensures Whole(score) ==> ScoreRead(UTF8, score)
    ensures Whole(score) && score.Finite? ==> Decimal(UTF8.score(score), score.value.Floor)
  {
    hide Decimal, Decode, Encode, WholeScore, ReadWholeScore, Whole;
    Reencodes(s);
    if Whole(score) {
      WholeScoreReads(score);
    }
  }
}
