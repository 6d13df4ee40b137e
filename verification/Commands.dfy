/** Values of the five types and what a write command does to one of them. */
module Commands {
  import opened Ordering
  import opened Numbers
  import opened Ranges

  type Key = Text

  datatype Value =
    | StringValue(bytes: Bytes)
    | HashValue(fields: map<Text, Text>)
    | ListValue(items: seq<Text>)
    | SetValue(members: set<Text>)
    | ZSetValue(scores: map<Text, Score>)

  /** A write command for one key, its arguments already parsed. */
  datatype Op =
    | IncrBy(delta: int)
    | Append(suffix: Bytes)
    | HSet(pairs: seq<(Text, Text)>)
    | HDel(fields: seq<Text>)
    | LPush(values: seq<Text>)
    | RPush(values: seq<Text>)
    | LPop
    | RPop
    | LSet(index: int, value: Text)
    | SAdd(members: seq<Text>)
    | SRem(members: seq<Text>)
    | ZAdd(entries: seq<(Score, Text)>)
    | ZRem(members: seq<Text>)

  /** The arity checks: a command with a list of arguments needs at least one. */
  predicate HasArguments(op: Op) {
    match op
    case HSet(pairs) => pairs != []
    case HDel(fields) => fields != []
    case LPush(values) => values != []
    case RPush(values) => values != []
    case SAdd(members) => members != []
    case SRem(members) => members != []
    case ZAdd(entries) => entries != []
    case ZRem(members) => members != []
    case _ => true
  }

  /** What a command makes of the value under its key. Refuses is an error reply; Leaves
  returns without touching the keyspace; Removes deletes the key. */
  datatype Effect = Refuses | Leaves | Becomes(value: Value) | Removes

  function PutAll(m: map<Text, Text>, pairs: seq<(Text, Text)>): map<Text, Text>
    decreases |pairs|
  {
    if pairs == [] then m else PutAll(m[pairs[0].0 := pairs[0].1], pairs[1..])
  }

  function ScoreAll(m: map<Text, Score>, entries: seq<(Score, Text)>): map<Text, Score>
    decreases |entries|
  {
    if entries == [] then m else ScoreAll(m[entries[0].1 := entries[0].0], entries[1..])
  }

  function Members(s: seq<Text>): set<Text> {
    set x | x in s
  }

  function OrEmpty(v: Option<Value>, empty: Value): Value {
    if v.Some? then v.value else empty
  }

  function HashEffect(m: map<Text, Text>): Effect {
    if m == map[] then Removes else Becomes(HashValue(m))
  }

  function ListEffect(l: seq<Text>): Effect {
    if l == [] then Removes else Becomes(ListValue(l))
  }

  function Apply(op: Op, v: Option<Value>): Effect {
    match op
    case IncrBy(delta) =>
      (match v
       case None => Becomes(StringValue(PrintInt(delta)))
       case Some(StringValue(bytes)) =>
         (match ReadInt(bytes)
          case None => Refuses
          case Some(n) => Becomes(StringValue(PrintInt(n + delta))))
       case _ => Refuses)
    case Append(suffix) =>
      (match OrEmpty(v, StringValue([]))
       case StringValue(bytes) => Becomes(StringValue(bytes + suffix))
       case _ => Refuses)
    case HSet(pairs) =>
      (match OrEmpty(v, HashValue(map[]))
       case HashValue(m) => Becomes(HashValue(PutAll(m, pairs)))
       case _ => Refuses)
    case HDel(fields) =>
      (match v
       case None => Leaves
       case Some(HashValue(m)) => HashEffect(m - Members(fields))
       case _ => Refuses)
    case LPush(values) =>
      (match OrEmpty(v, ListValue([]))
       case ListValue(l) => Becomes(ListValue(Reversed(values) + l))
       case _ => Refuses)
    case RPush(values) =>
      (match OrEmpty(v, ListValue([]))
       case ListValue(l) => Becomes(ListValue(l + values))
       case _ => Refuses)
    case LPop =>
      (match v
       case None => Leaves
       case Some(ListValue(l)) => if l == [] then Leaves else ListEffect(l[1..])
       case _ => Refuses)
    case RPop =>
      (match v
       case None => Leaves
       case Some(ListValue(l)) => if l == [] then Leaves else ListEffect(l[..|l| - 1])
       case _ => Refuses)
    case LSet(index, value) =>
      (match v
       case Some(ListValue(l)) =>
         var i := Resolve(|l|, index);
         if i < 0 || i >= |l| then Refuses else Becomes(ListValue(l[i := value]))
       case _ => Refuses)
    case SAdd(members) =>
      (match OrEmpty(v, SetValue({}))
       case SetValue(s) => Becomes(SetValue(s + Members(members)))
       case _ => Refuses)
    case SRem(members) =>
      (match v
       case None => Leaves
       case Some(SetValue(s)) =>
         if s - Members(members) == {} then Removes else Becomes(SetValue(s - Members(members)))
       case _ => Refuses)
    case ZAdd(entries) =>
      (match OrEmpty(v, ZSetValue(map[]))
       case ZSetValue(m) => Becomes(ZSetValue(ScoreAll(m, entries)))
       case _ => Refuses)
    case ZRem(members) =>
      (match v
       case None => Leaves
       case Some(ZSetValue(m)) =>
         if m - Members(members) == m then Leaves
         else if m - Members(members) == map[] then Removes
         else Becomes(ZSetValue(m - Members(members)))
       case _ => Refuses)
  }

  // ----- the same, said of what can be looked up in the value before and after -----

  ghost predicate Holds<K, V>(m: map<K, V>, k: K, v: V) {
    k in m && m[k] == v
  }

  /** The key is in both or in neither, and with the same value. */
  ghost predicate Alike<K, V>(m: map<K, V>, m': map<K, V>, k: K) {
    (k in m <==> k in m') && (k in m ==> m'[k] == m[k])
  }

  /** The stored bytes are the decimal number that is `delta` more than the old one, or than zero. */
  ghost predicate CountDoes(delta: int, v: Option<Value>, e: Effect) {
    && (v.None? ==> e.Becomes? && e.value.StringValue? && Decimal(e.value.bytes, delta))
    && (v.Some? && !v.value.StringValue? ==> e.Refuses?)
    && (v.Some? && v.value.StringValue? ==>
          && ((forall n :: !ReadsAs(v.value.bytes, n)) ==> e.Refuses?)
          && (forall n :: ReadsAs(v.value.bytes, n) ==> e.Becomes? && e.value.StringValue? && Decimal(e.value.bytes, n + delta)))
  }

  ghost predicate AppendDoes(suffix: Bytes, v: Option<Value>, e: Effect) {
    if v.None? then e == Becomes(StringValue(suffix))
    else if !v.value.StringValue? then e.Refuses?
    else
      && e.Becomes? && e.value.StringValue? && |e.value.bytes| == |v.value.bytes| + |suffix|
      && e.value.bytes[..|v.value.bytes|] == v.value.bytes && e.value.bytes[|v.value.bytes|..] == suffix
  }

  predicate LastPair(pairs: seq<(Text, Text)>, i: nat) {
    i < |pairs| && forall j :: i < j < |pairs| ==> pairs[j].0 != pairs[i].0
  }

  predicate NamesField(pairs: seq<(Text, Text)>, f: Text) {
    exists i :: 0 <= i < |pairs| && pairs[i].0 == f
  }

  /** The last pair that names a field wins; other fields are as before. */
  ghost predicate PutsPairs(m: map<Text, Text>, pairs: seq<(Text, Text)>, m': map<Text, Text>) {
    && (forall i: nat :: LastPair(pairs, i) ==> Holds(m', pairs[i].0, pairs[i].1))
    && (forall f :: !NamesField(pairs, f) ==> Alike(m, m', f))
    && (forall f :: f in m' ==> f in m || NamesField(pairs, f))
  }

  predicate LastEntry(entries: seq<(Score, Text)>, i: nat) {
    i < |entries| && forall j :: i < j < |entries| ==> entries[j].1 != entries[i].1
  }

  predicate NamesMember(entries: seq<(Score, Text)>, x: Text) {
    exists i :: 0 <= i < |entries| && entries[i].1 == x
  }

  ghost predicate PutsScores(m: map<Text, Score>, entries: seq<(Score, Text)>, m': map<Text, Score>) {
    && (forall i: nat :: LastEntry(entries, i) ==> Holds(m', entries[i].1, entries[i].0))
    && (forall x :: !NamesMember(entries, x) ==> Alike(m, m', x))
    && (forall x :: x in m' ==> x in m || NamesMember(entries, x))
  }

  /** The named keys are gone; the others are as before. */
  ghost predicate Lacks<V>(m: map<Text, V>, named: seq<Text>, m': map<Text, V>) {
    forall k :: if k in named then k !in m' else Alike(m, m', k)
  }

  ghost predicate HashDoes(op: Op, v: Option<Value>, e: Effect)
    requires op.HSet? || op.HDel?
  {
    if v.Some? && !v.value.HashValue? then e.Refuses?
    else
      match op
      case HSet(pairs) =>
        e.Becomes? && e.value.HashValue? && PutsPairs(if v.Some? then v.value.fields else map[], pairs, e.value.fields)
      case HDel(fields) =>
        if v.None? then e.Leaves?
        else if forall f :: f in v.value.fields ==> f in fields then e.Removes?
        else e.Becomes? && e.value.HashValue? && Lacks(v.value.fields, fields, e.value.fields)
  }

  /** Which end of a list, which element, and that the others keep their order. */
  ghost predicate ListDoes(op: Op, v: Option<Value>, e: Effect)
    requires op.LPush? || op.RPush? || op.LPop? || op.RPop? || op.LSet?
  {
    if v.Some? && !v.value.ListValue? then e.Refuses?
    else
      var l := if v.Some? then v.value.items else [];
      match op
      case LPush(values) =>
        && e.Becomes? && e.value.ListValue? && |e.value.items| == |values| + |l|
        && (forall i :: 0 <= i < |values| ==> e.value.items[i] == values[|values| - 1 - i])
        && (forall i :: 0 <= i < |l| ==> e.value.items[|values| + i] == l[i])
      case RPush(values) =>
        && e.Becomes? && e.value.ListValue? && |e.value.items| == |l| + |values|
        && (forall i :: 0 <= i < |l| ==> e.value.items[i] == l[i])
        && (forall i :: 0 <= i < |values| ==> e.value.items[|l| + i] == values[i])
      case LPop =>
        if |l| == 0 then e.Leaves?
        else if |l| == 1 then e.Removes?
        else
          && e.Becomes? && e.value.ListValue? && |e.value.items| == |l| - 1
          && forall i :: 0 <= i < |l| - 1 ==> e.value.items[i] == l[i + 1]
      case RPop =>
        if |l| == 0 then e.Leaves?
        else if |l| == 1 then e.Removes?
        else
          && e.Becomes? && e.value.ListValue? && |e.value.items| == |l| - 1
          && forall i :: 0 <= i < |l| - 1 ==> e.value.items[i] == l[i]
      case LSet(index, value) =>
        if v.None? || index >= |l| || index + |l| < 0 then e.Refuses?
        else
          && e.Becomes? && e.value.ListValue? && |e.value.items| == |l|
          && forall i :: 0 <= i < |l| ==>
               e.value.items[i] == if i == index || i == index + |l| then value else l[i]
  }

  ghost predicate SetDoes(op: Op, v: Option<Value>, e: Effect)
    requires op.SAdd? || op.SRem?
  {
    if v.Some? && !v.value.SetValue? then e.Refuses?
    else
      match op
      case SAdd(members) =>
        && e.Becomes? && e.value.SetValue?
        && forall x :: x in e.value.members <==> (v.Some? && x in v.value.members) || x in members
      case SRem(members) =>
        if v.None? then e.Leaves?
        else if forall x :: x in v.value.members ==> x in members then e.Removes?
        else
          && e.Becomes? && e.value.SetValue?
          && forall x :: x in e.value.members <==> x in v.value.members && x !in members
  }

  ghost predicate ZSetDoes(op: Op, v: Option<Value>, e: Effect)
    requires op.ZAdd? || op.ZRem?
  {
    if v.Some? && !v.value.ZSetValue? then e.Refuses?
    else
      match op
      case ZAdd(entries) =>
        e.Becomes? && e.value.ZSetValue? && PutsScores(if v.Some? then v.value.scores else map[], entries, e.value.scores)
      case ZRem(members) =>
        if v.None? || forall x :: x in members ==> x !in v.value.scores then e.Leaves?
        else if forall x :: x in v.value.scores ==> x in members then e.Removes?
        else e.Becomes? && e.value.ZSetValue? && Lacks(v.value.scores, members, e.value.scores)
  }

  /** What an operation does to a value. */
  ghost predicate EffectDoes(op: Op, v: Option<Value>, e: Effect) {
    if op.IncrBy? then CountDoes(op.delta, v, e)
    else if op.Append? then AppendDoes(op.suffix, v, e)
    else if op.HSet? || op.HDel? then HashDoes(op, v, e)
    else if op.SAdd? || op.SRem? then SetDoes(op, v, e)
    else if op.ZAdd? || op.ZRem? then ZSetDoes(op, v, e)
    else ListDoes(op, v, e)
  }

  lemma CountDone(delta: int, v: Option<Value>)
    ensures CountDoes(delta, v, Apply(IncrBy(delta), v))
  {
    hide ReadInt, PrintInt, ReadsAs, Decimal;
    PrintIntDecimal(delta);
    if v.Some? && v.value.StringValue? {
      forall n ensures ReadInt(v.value.bytes) == Some(n) <==> ReadsAs(v.value.bytes, n) {
        ReadIntIff(v.value.bytes, n);
      }
      var number := ReadInt(v.value.bytes);
      if number.Some? {
        assert ReadsAs(v.value.bytes, number.value);
        PrintIntDecimal(number.value + delta);
      }
    }
  }

  lemma {:induction false} PutAllPuts(m: map<Text, Text>, pairs: seq<(Text, Text)>)
    ensures PutsPairs(m, pairs, PutAll(m, pairs))
    decreases |pairs|
  {
    if pairs != [] {
      var rest, mid := pairs[1..], m[pairs[0].0 := pairs[0].1];
      PutAllPuts(mid, rest);
      var m' := PutAll(m, pairs);
      forall f ensures NamesField(pairs, f) <==> f == pairs[0].0 || NamesField(rest, f) {
        NamesTail(pairs, f);
      }
      forall i: nat | LastPair(pairs, i) ensures Holds(m', pairs[i].0, pairs[i].1) {
        if i > 0 {
          assert rest[i - 1] == pairs[i] && LastPair(rest, i - 1);
        } else {
          assert !NamesField(rest, pairs[0].0);
          assert Alike(mid, m', pairs[0].0);
        }
      }
      forall f | !NamesField(pairs, f) ensures Alike(m, m', f) {
        assert Alike(mid, m', f);
      }
    }
  }

  lemma NamesTail(pairs: seq<(Text, Text)>, f: Text)
    requires pairs != []
    ensures NamesField(pairs, f) <==> f == pairs[0].0 || NamesField(pairs[1..], f)
  {
    if i :| 0 <= i < |pairs| && pairs[i].0 == f {
      assert i > 0 ==> pairs[1..][i - 1].0 == f;
    }
    if i :| 0 <= i < |pairs[1..]| && pairs[1..][i].0 == f {
      assert pairs[i + 1].0 == f;
    }
    assert pairs[0].0 == pairs[0].0;
  }

  lemma {:induction false} ScoreAllPuts(m: map<Text, Score>, entries: seq<(Score, Text)>)
    ensures PutsScores(m, entries, ScoreAll(m, entries))
    decreases |entries|
  {
    if entries != [] {
      var rest, mid := entries[1..], m[entries[0].1 := entries[0].0];
      ScoreAllPuts(mid, rest);
      var m' := ScoreAll(m, entries);
      forall x ensures NamesMember(entries, x) <==> x == entries[0].1 || NamesMember(rest, x) {
        MembersTail(entries, x);
      }
      forall i: nat | LastEntry(entries, i) ensures Holds(m', entries[i].1, entries[i].0) {
        if i > 0 {
          assert rest[i - 1] == entries[i] && LastEntry(rest, i - 1);
        } else {
          assert !NamesMember(rest, entries[0].1);
          assert Alike(mid, m', entries[0].1);
        }
      }
      forall x | !NamesMember(entries, x) ensures Alike(m, m', x) {
        assert Alike(mid, m', x);
      }
    }
  }

  lemma MembersTail(entries: seq<(Score, Text)>, x: Text)
    requires entries != []
    ensures NamesMember(entries, x) <==> x == entries[0].1 || NamesMember(entries[1..], x)
  {
    if i :| 0 <= i < |entries| && entries[i].1 == x {
      assert i > 0 ==> entries[1..][i - 1].1 == x;
    }
    if i :| 0 <= i < |entries[1..]| && entries[1..][i].1 == x {
      assert entries[i + 1].1 == x;
    }
    assert entries[0].1 == entries[0].1;
  }

  lemma MinusLacks<V>(m: map<Text, V>, named: seq<Text>)
    ensures Lacks(m, named, m - Members(named))
    ensures m - Members(named) == map[] <==> forall k :: k in m ==> k in named
    ensures m - Members(named) == m <==> forall k :: k in named ==> k !in m
  {
    var less := m - Members(named);
    assert forall k :: k in less <==> k in m && k !in named;
  }

  /** `Apply` says it: this is what it says. */
  lemma ApplyDoes(op: Op, v: Option<Value>)
    ensures EffectDoes(op, v, Apply(op, v))
  {
    hide ReadInt, PrintInt, Members, PutAll, ScoreAll, PutsPairs, PutsScores, Lacks;
    match op
    case IncrBy(delta) => CountDone(delta, v);
    case HSet(pairs) => PutAllPuts(if v.Some? && v.value.HashValue? then v.value.fields else map[], pairs);
    case ZAdd(entries) => ScoreAllPuts(if v.Some? && v.value.ZSetValue? then v.value.scores else map[], entries);
    case HDel(fields) =>
      if v.Some? && v.value.HashValue? {
        MinusLacks(v.value.fields, fields);
      }
    case ZRem(members) =>
      if v.Some? && v.value.ZSetValue? {
        MinusLacks(v.value.scores, members);
      }
    case SAdd(members) => SetMembers(if v.Some? && v.value.SetValue? then v.value.members else {}, members);
    case SRem(members) => SetMembers(if v.Some? && v.value.SetValue? then v.value.members else {}, members);
    case Append(suffix) => assert [] + suffix == suffix;
    case _ =>
  }

  lemma SetMembers(s: set<Text>, members: seq<Text>)
    ensures forall x :: x in Members(members) <==> x in members
    ensures s - Members(members) == {} <==> forall x :: x in s ==> x in members
  {
    if s - Members(members) == {} {
      assert forall x :: x in s ==> x in s - Members(members) || x in members;
    }
  }

  // ----- the loops of the store's typed operations -----

  /** `lpush`: one `appendleft` after another. */
  method PushLeft(l: seq<Text>, values: seq<Text>) returns (r: seq<Text>)
    ensures r == Reversed(values) + l
  {
    r := l;
    for i := 0 to |values|
      invariant r == Reversed(values[..i]) + l
    {
      assert Reversed(values[..i + 1]) == [values[i]] + Reversed(values[..i]);
      r := [values[i]] + r;
    }
    assert values[..|values|] == values;
  }

  method PushRight(l: seq<Text>, values: seq<Text>) returns (r: seq<Text>)
    ensures r == l + values
  {
    r := l;
    for i := 0 to |values|
      invariant r == l + values[..i]
    {
      r := r + [values[i]];
    }
  }

  lemma OneFewer<V>(m: map<Text, V>, key: Text)
    ensures |m - {key}| == if key in m then |m| - 1 else |m|
    ensures key !in m ==> m - {key} == m
  {
    var less := m - {key};
    if key in m {
      assert m.Keys == less.Keys + {key};
    } else {
      assert less == m;
    }
  }

  lemma MembersSnoc(members: seq<Text>, i: nat)
    requires i < |members|
    ensures Members(members[..i + 1]) == Members(members[..i]) + {members[i]}
  {
  }

  lemma MinusMore<V>(m: map<Text, V>, a: set<Text>, x: Text)
    ensures (m - a) - {x} == m - (a + {x})
  {
  }

  /** `hdel`, with the number of fields that were there. */
  method DeleteFields(m: map<Text, Text>, fields: seq<Text>) returns (r: map<Text, Text>, deleted: nat)
    ensures r == m - Members(fields) && deleted == |m| - |r|
  {
    hide Members;
    r, deleted := m, 0;
    NoMembers(m);
    for i := 0 to |fields|
      invariant r == m - Members(fields[..i]) && deleted == |m| - |r|
    {
      MembersSnoc(fields, i);
      MinusMore(m, Members(fields[..i]), fields[i]);
      OneFewer(r, fields[i]);
      if fields[i] in r {
        r, deleted := r - {fields[i]}, deleted + 1;
      }
    }
    assert fields[..|fields|] == fields;
  }

  lemma NoMembers<V>(m: map<Text, V>)
    ensures Members([]) == {} && m - Members([]) == m
  {
  }

  /** `sadd`, with the number of new members. */
  method AddMembers(s: set<Text>, members: seq<Text>) returns (r: set<Text>, added: nat)
    ensures r == s + Members(members) && added == |r| - |s|
  {
    r, added := s, 0;
    for i := 0 to |members|
      invariant r == s + Members(members[..i]) && added == |r| - |s|
    {
      MembersSnoc(members, i);
      if members[i] !in r {
        r, added := r + {members[i]}, added + 1;
      }
    }
    assert members[..|members|] == members;
  }

  /** `srem`, with the number of members that were there. */
  method RemoveMembers(s: set<Text>, members: seq<Text>) returns (r: set<Text>, removed: nat)
    ensures r == s - Members(members) && removed == |s| - |r|
  {
    r, removed := s, 0;
    for i := 0 to |members|
      invariant r == s - Members(members[..i]) && removed == |s| - |r|
    {
      MembersSnoc(members, i);
      if members[i] in r {
        r, removed := r - {members[i]}, removed + 1;
      }
    }
    assert members[..|members|] == members;
  }

  /** `hset`, pair by pair. */
  method PutPairs(m: map<Text, Text>, pairs: seq<(Text, Text)>) returns (r: map<Text, Text>)
    ensures r == PutAll(m, pairs) && PutsPairs(m, pairs, r)
  {
    PutAllPuts(m, pairs);
    r := m;
    for i := 0 to |pairs|
      invariant PutAll(r, pairs[i..]) == PutAll(m, pairs)
    {
      assert pairs[i..][1..] == pairs[i + 1..];
      r := r[pairs[i].0 := pairs[i].1];
    }
  }

  /** `zadd`, pair by pair. */
  method PutScores(m: map<Text, Score>, entries: seq<(Score, Text)>) returns (r: map<Text, Score>)
    ensures r == ScoreAll(m, entries) && PutsScores(m, entries, r)
  {
    ScoreAllPuts(m, entries);
    r := m;
    for i := 0 to |entries|
      invariant ScoreAll(r, entries[i..]) == ScoreAll(m, entries)
    {
      assert entries[i..][1..] == entries[i + 1..];
      r := r[entries[i].1 := entries[i].0];
    }
  }

  /** `zrem`, member by member, with the number of members that were there. */
  method DeleteScores(m: map<Text, Score>, members: seq<Text>) returns (r: map<Text, Score>, removed: nat)
    ensures r == m - Members(members) && removed == |m| - |r| && (removed == 0 <==> r == m)
  {
    hide Members;
    r, removed := m, 0;
    NoMembers(m);
    for i := 0 to |members|
      invariant r == m - Members(members[..i]) && removed == |m| - |r| && (removed == 0 ==> r == m)
    {
      MembersSnoc(members, i);
      MinusMore(m, Members(members[..i]), members[i]);
      OneFewer(r, members[i]);
      if members[i] in r {
        r, removed := r - {members[i]}, removed + 1;
      }
    }
    assert members[..|members|] == members;
  }

  /** The string handlers, as the handlers and the store carry them out. */
  method OnString(op: Op, v: Option<Value>) returns (e: Effect)
    requires op.IncrBy? || op.Append?
    ensures e == Apply(op, v) && EffectDoes(op, v, e)
  {
    hide EffectDoes;
    ApplyDoes(op, v);
    match op
    case IncrBy(delta) =>
      var current := 0;
      if v.Some? {
        if !v.value.StringValue? {
          return Refuses;
        }
        var number := ReadInt(v.value.bytes);
        if number.None? {
          return Refuses;
        }
        current := number.value;
      }
      e := Becomes(StringValue(PrintInt(current + delta)));
    case Append(suffix) =>
      if v.None? {
        assert [] + suffix == suffix;
        return Becomes(StringValue(suffix));
      }
      e := if v.value.StringValue? then Becomes(StringValue(v.value.bytes + suffix)) else Refuses;
  }

  /** The hash operations, as the handlers and the store carry them out. */
  method OnHash(op: Op, v: Option<Value>) returns (e: Effect)
    requires op.HSet? || op.HDel?
    ensures e == Apply(op, v) && EffectDoes(op, v, e)
  {
    hide EffectDoes;
    ApplyDoes(op, v);
    match op
    case HSet(pairs) =>
      var hash := OrEmpty(v, HashValue(map[]));
      if !hash.HashValue? {
        return Refuses;
      }
      var fields := PutPairs(hash.fields, pairs);
      e := Becomes(HashValue(fields));
    case HDel(fields) =>
      if v.None? {
        return Leaves;
      }
      if !v.value.HashValue? {
        return Refuses;
      }
      var left, deleted := DeleteFields(v.value.fields, fields);
      e := if left == map[] then Removes else Becomes(HashValue(left));
  }

  /** The list operations, as the handlers and the store carry them out. */
  method OnList(op: Op, v: Option<Value>) returns (e: Effect)
    requires op.LPush? || op.RPush? || op.LPop? || op.RPop? || op.LSet?
    ensures e == Apply(op, v) && EffectDoes(op, v, e)
  {
    hide EffectDoes;
    ApplyDoes(op, v);
    match op
    case LPush(values) =>
      var list := OrEmpty(v, ListValue([]));
      if !list.ListValue? {
        return Refuses;
      }
      var items := PushLeft(list.items, values);
      e := Becomes(ListValue(items));
    case RPush(values) =>
      var list := OrEmpty(v, ListValue([]));
      if !list.ListValue? {
        return Refuses;
      }
      var items := PushRight(list.items, values);
      e := Becomes(ListValue(items));
    case LPop =>
      if v.None? {
        return Leaves;
      }
      if !v.value.ListValue? {
        return Refuses;
      }
      if v.value.items == [] {
        return Leaves;
      }
      var left := v.value.items[1..];
      e := if left == [] then Removes else Becomes(ListValue(left));
    case RPop =>
      if v.None? {
        return Leaves;
      }
      if !v.value.ListValue? {
        return Refuses;
      }
      if v.value.items == [] {
        return Leaves;
      }
      var left := v.value.items[..|v.value.items| - 1];
      e := if left == [] then Removes else Becomes(ListValue(left));
    case LSet(index, value) =>
      if v.None? || !v.value.ListValue? {
        return Refuses;
      }
      var length := |v.value.items|;
      var position := if index < 0 then index + length else index;
      if position < 0 || position >= length {
        return Refuses;
      }
      e := Becomes(ListValue(v.value.items[position := value]));
  }

  /** The set operations, as the handlers and the store carry them out. */
  method OnSet(op: Op, v: Option<Value>) returns (e: Effect)
    requires op.SAdd? || op.SRem?
    ensures e == Apply(op, v) && EffectDoes(op, v, e)
  {
    hide EffectDoes, Members, ReadInt, PrintInt, PutAll, ScoreAll;
    ApplyDoes(op, v);
    match op
    case SAdd(members) =>
      var s := OrEmpty(v, SetValue({}));
      if !s.SetValue? {
        return Refuses;
      }
      var all, added := AddMembers(s.members, members);
      e := Becomes(SetValue(all));
    case SRem(members) =>
      if v.None? {
        return Leaves;
      }
      if !v.value.SetValue? {
        return Refuses;
      }
      var left, removed := RemoveMembers(v.value.members, members);
      e := if left == {} then Removes else Becomes(SetValue(left));
  }

  /** The sorted-set operations, as the handlers and the store carry them out. */
  method OnZSet(op: Op, v: Option<Value>) returns (e: Effect)
    requires op.ZAdd? || op.ZRem?
    ensures e == Apply(op, v) && EffectDoes(op, v, e)
  {
    hide EffectDoes, Members, ScoreAll, PutAll, ReadInt, PrintInt;
    ApplyDoes(op, v);
    match op
    case ZAdd(entries) =>
      var zset := OrEmpty(v, ZSetValue(map[]));
      if !zset.ZSetValue? {
        return Refuses;
      }
      var scores := PutScores(zset.scores, entries);
      e := Becomes(ZSetValue(scores));
    case ZRem(members) =>
      if v.None? {
        return Leaves;
      }
      if !v.value.ZSetValue? {
        return Refuses;
      }
      var left, removed := DeleteScores(v.value.scores, members);
      if removed == 0 {
        return Leaves;
      }
      e := if left == map[] then Removes else Becomes(ZSetValue(left));
  }

  /** A typed operation, by the type of its values. */
  method Perform(op: Op, v: Option<Value>) returns (e: Effect)
    ensures e == Apply(op, v) && EffectDoes(op, v, e)
  {
    hide Apply, EffectDoes;
    if op.IncrBy? || op.Append? {
      e := OnString(op, v);
    } else if op.HSet? || op.HDel? {
      e := OnHash(op, v);
    } else if op.SAdd? || op.SRem? {
      e := OnSet(op, v);
    } else if op.ZAdd? || op.ZRem? {
      e := OnZSet(op, v);
    } else {
      e := OnList(op, v);
    }
  }

  /** The value under the key afterwards. */
  function After(e: Effect, v: Option<Value>): Option<Value> {
    match e
    case Becomes(w) => Some(w)
    case Removes => None
    case _ => v
  }

  // ----- commands that go to the store one element at a time -----

  /** The calls a handler makes: HSET, ZADD and ZREM loop over their arguments. */
  function Parts(op: Op): seq<Op> {
    match op
    case HSet(pairs) => seq(|pairs|, i requires 0 <= i < |pairs| => HSet([pairs[i]]))
    case ZAdd(entries) => seq(|entries|, i requires 0 <= i < |entries| => ZAdd([entries[i]]))
    case ZRem(members) => seq(|members|, i requires 0 <= i < |members| => ZRem([members[i]]))
    case _ => [op]
  }

  /** The first `n` parts as one command. */
  function Prefix(op: Op, n: nat): Op
    requires n <= |Parts(op)|
  {
    match op
    case HSet(pairs) => HSet(pairs[..n])
    case ZAdd(entries) => ZAdd(entries[..n])
    case ZRem(members) => ZRem(members[..n])
    case _ => op
  }

  function Find<V>(m: map<Key, V>, key: Key): Option<V> {
    if key in m then Some(m[key]) else None
  }

  lemma {:induction false} PutAllSnoc(m: map<Text, Text>, pairs: seq<(Text, Text)>, p: (Text, Text))
    ensures PutAll(m, pairs + [p]) == PutAll(m, pairs)[p.0 := p.1]
    decreases |pairs|
  {
    if pairs == [] {
      assert [p][1..] == [];
    } else {
      assert (pairs + [p])[1..] == pairs[1..] + [p];
      PutAllSnoc(m[pairs[0].0 := pairs[0].1], pairs[1..], p);
    }
  }

  lemma {:induction false} ScoreAllSnoc(m: map<Text, Score>, entries: seq<(Score, Text)>, e: (Score, Text))
    ensures ScoreAll(m, entries + [e]) == ScoreAll(m, entries)[e.1 := e.0]
    decreases |entries|
  {
    if entries == [] {
      assert [e][1..] == [];
    } else {
      assert (entries + [e])[1..] == entries[1..] + [e];
      ScoreAllSnoc(m[entries[0].1 := entries[0].0], entries[1..], e);
    }
  }

  /** The value once the first `n` parts have been applied one after another. */
  function Done(op: Op, n: nat, v: Option<Value>): Option<Value>
    requires n <= |Parts(op)|
  {
    if n == 0 then v else After(Apply(Prefix(op, n), v), v)
  }

  /** A command that is not refused is not refused part by part either, and its parts, one
  after another, do what the command does as a whole. */
  lemma PartStep(op: Op, i: nat, v: Option<Value>)
    requires i < |Parts(op)| && !Apply(op, v).Refuses?
    ensures !Apply(Parts(op)[i], Done(op, i, v)).Refuses?
    ensures Done(op, i + 1, v) == After(Apply(Parts(op)[i], Done(op, i, v)), Done(op, i, v))
  {
    match op
    case HSet(pairs) => HSetStep(pairs, i, v);
    case ZAdd(entries) => ZAddStep(entries, i, v);
    case ZRem(members) =>
      if v.Some? {
        RemovePrefix(v.value.scores, members, i);
      }
    case _ =>
  }

  lemma HSetStep(pairs: seq<(Text, Text)>, i: nat, v: Option<Value>)
    requires i < |pairs| && !Apply(HSet(pairs), v).Refuses?
    ensures var op := HSet(pairs); var before := Done(op, i, v);
      var e := Apply(HSet([pairs[i]]), before);
      !e.Refuses? && Done(op, i + 1, v) == After(e, before)
  {
    var m := OrEmpty(v, HashValue(map[])).fields;
    assert pairs[..i + 1] == pairs[..i] + [pairs[i]];
    PutAllSnoc(m, pairs[..i], pairs[i]);
    assert PutAll(m, pairs[..0]) == m;
    OnePair(PutAll(m, pairs[..i]), pairs[i]);
  }

  lemma ZAddStep(entries: seq<(Score, Text)>, i: nat, v: Option<Value>)
    requires i < |entries| && !Apply(ZAdd(entries), v).Refuses?
    ensures var op := ZAdd(entries); var before := Done(op, i, v);
      var e := Apply(ZAdd([entries[i]]), before);
      !e.Refuses? && Done(op, i + 1, v) == After(e, before)
  {
    var m := OrEmpty(v, ZSetValue(map[])).scores;
    assert entries[..i + 1] == entries[..i] + [entries[i]];
    ScoreAllSnoc(m, entries[..i], entries[i]);
    assert ScoreAll(m, entries[..0]) == m;
    OneScore(ScoreAll(m, entries[..i]), entries[i]);
  }

  lemma OnePair(m: map<Text, Text>, p: (Text, Text))
    ensures PutAll(m, [p]) == m[p.0 := p.1]
  {
    assert [p][1..] == [];
  }

  lemma OneScore(m: map<Text, Score>, e: (Score, Text))
    ensures ScoreAll(m, [e]) == m[e.1 := e.0]
  {
    assert [e][1..] == [];
  }

  lemma RemovePrefix(m: map<Text, Score>, members: seq<Text>, i: nat)
    requires i < |members|
    ensures m - Members(members[..i + 1]) == (m - Members(members[..i])) - Members([members[i]])
    ensures m - Members(members[..0]) == m
  {
    assert Members(members[..i + 1]) == Members(members[..i]) + Members([members[i]]);
    assert Members(members[..0]) == {};
  }

  lemma DoneAll(op: Op, v: Option<Value>)
    requires HasArguments(op)
    ensures |Parts(op)| > 0 && Done(op, |Parts(op)|, v) == After(Apply(op, v), v)
  {
    match op
    case HSet(pairs) => assert pairs[..|pairs|] == pairs;
    case ZAdd(entries) => assert entries[..|entries|] == entries;
    case ZRem(members) => assert members[..|members|] == members;
    case _ =>
  }
}
