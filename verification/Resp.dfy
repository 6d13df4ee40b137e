/** RESP2 framing of commands: the encoder, and the incremental parser that undoes it. */
module Resp {
  import opened Ordering
  import opened Numbers

  const STAR: Byte := 42
  const DOLLAR: Byte := 36
  const COLON: Byte := 58
  const CRLF: Bytes := [CR, LF]

  // ----- encoder -----

  function EncodeBulkString(value: Bytes): Bytes {
    [DOLLAR] + PrintNat(|value|) + CRLF + value + CRLF
  }

  function EncodeItems(items: seq<Bytes>): Bytes {
    if items == [] then [] else EncodeBulkString(items[0]) + EncodeItems(items[1..])
  }

  function EncodeArray(items: seq<Bytes>): Bytes {
    [STAR] + PrintNat(|items|) + CRLF + EncodeItems(items)
  }

  /** What an array of a reply may hold. */
  datatype Item = Bulk(value: Bytes) | Null | Integer(n: int) | Array(items: seq<Item>)

  function EncodeItem(x: Item): Bytes {
    match x
    case Bulk(value) => EncodeBulkString(value)
    case Null => [DOLLAR] + PrintInt(-1) + CRLF
    case Integer(n) => [COLON] + PrintInt(n) + CRLF
    case Array(items) => [STAR] + PrintNat(|items|) + CRLF + EncodeList(items)
  }

  function EncodeList(items: seq<Item>): Bytes {
    if items == [] then [] else EncodeItem(items[0]) + EncodeList(items[1..])
  }

  lemma {:induction false} EncodeListSnoc(items: seq<Item>, item: Item)
    ensures EncodeList(items + [item]) == EncodeList(items) + EncodeItem(item)
    decreases |items|
  {
    hide EncodeItem;
    if items == [] {
      assert [item][1..] == [];
    } else {
      assert (items + [item])[1..] == items[1..] + [item];
      EncodeListSnoc(items[1..], item);
    }
  }

  /** `encode_array`: a header, then one item after another, nested arrays by the same method. */
  method BuildArray(items: seq<Item>) returns (result: Bytes)
    ensures result == EncodeItem(Array(items)) && IsItem(result, Array(items))
    decreases items
  {
    hide IsItem, EncodeList, EncodeBulkString, PrintNat, PrintInt;
    result := [STAR] + PrintNat(|items|) + CRLF;
    ghost var header := result;
    NoItems();
    for i := 0 to |items|
      invariant result == header + EncodeList(items[..i])
    {
      assert items[..i + 1] == items[..i] + [items[i]];
      EncodeListSnoc(items[..i], items[i]);
      match items[i] {
        case Bulk(value) => result := result + EncodeBulkString(value);
        case Null => result := result + ([DOLLAR] + PrintInt(-1) + CRLF);
        case Integer(n) => result := result + ([COLON] + PrintInt(n) + CRLF);
        case Array(nested) =>
          var inner := BuildArray(nested);
          result := result + inner;
      }
    }
    assert items[..|items|] == items;
    ItemFramed(Array(items));
  }

  lemma NoItems()
    ensures EncodeList([]) == []
  {
  }

  /** A command is an array of bulk strings. */
  lemma {:induction false} CommandIsArray(cmd: seq<Bytes>)
    ensures EncodeItem(Array(Bulks(cmd))) == EncodeArray(cmd) && IsCommand(EncodeArray(cmd), cmd)
  {
    hide IsCommand;
    CommandFramed(cmd);
    BulksEncode(cmd);
  }

  function Bulks(cmd: seq<Bytes>): seq<Item> {
    seq(|cmd|, i requires 0 <= i < |cmd| => Bulk(cmd[i]))
  }

  lemma {:induction false} BulksEncode(cmd: seq<Bytes>)
    ensures EncodeList(Bulks(cmd)) == EncodeItems(cmd)
    decreases |cmd|
  {
    if cmd != [] {
      assert Bulks(cmd)[1..] == Bulks(cmd[1..]);
      BulksEncode(cmd[1..]);
    }
  }

  // ----- the form of a frame, said of bytes -----

  /** '$', the length, CR LF, the bytes, CR LF. */
  function BulkFrame(digits: Bytes, value: Bytes): Bytes {
    ['$' as int] + digits + ['\r' as int, '\n' as int] + value + ['\r' as int, '\n' as int]
  }

  ghost predicate IsBulk(s: Bytes, value: Bytes) {
    exists digits :: Numeral(digits, |value|) && s == BulkFrame(digits, value)
  }

  /** One bulk string after another. */
  ghost predicate AreBulks(s: Bytes, items: seq<Bytes>)
    decreases |items|
  {
    if items == [] then s == [] else exists a, b :: s == a + b && IsBulk(a, items[0]) && AreBulks(b, items[1..])
  }

  /** '*', the number of items, CR LF, the items. */
  ghost predicate IsCommand(s: Bytes, items: seq<Bytes>) {
    exists digits, body :: Numeral(digits, |items|) && AreBulks(body, items) && s == ArrayFrame(digits, body)
  }

  function ArrayFrame(digits: Bytes, body: Bytes): Bytes {
    ['*' as int] + digits + ['\r' as int, '\n' as int] + body
  }

  /** '$' and -1 for null, ':' and the number for an integer, and arrays within arrays. */
  ghost predicate IsItem(s: Bytes, x: Item)
    decreases x, 0
  {
    match x
    case Bulk(value) => IsBulk(s, value)
    case Null => s == ['$' as int, '-' as int, '1' as int, '\r' as int, '\n' as int]
    case Integer(n) => exists digits :: Decimal(digits, n) && s == [':' as int] + digits + ['\r' as int, '\n' as int]
    case Array(items) => exists digits, body :: Numeral(digits, |items|) && AreItems(body, items) && s == ArrayFrame(digits, body)
  }

  ghost predicate AreItems(s: Bytes, items: seq<Item>)
    decreases items, 1
  {
    if items == [] then s == [] else exists a, b :: s == a + b && IsItem(a, items[0]) && AreItems(b, items[1..])
  }

  lemma BulkFramed(value: Bytes)
    ensures EncodeBulkString(value) == BulkFrame(PrintNat(|value|), value) && IsBulk(EncodeBulkString(value), value)
  {
    hide Numeral;
    PrintNatNumeral(|value|);
  }

  lemma {:induction false} BulksFramed(items: seq<Bytes>)
    ensures AreBulks(EncodeItems(items), items)
    decreases |items|
  {
    hide EncodeBulkString, IsBulk;
    if items != [] {
      BulkFramed(items[0]);
      BulksFramed(items[1..]);
    }
  }

  /** An encoded command has the form of one. */
  lemma CommandFramed(cmd: seq<Bytes>)
    ensures IsCommand(EncodeArray(cmd), cmd)
  {
    hide Numeral, AreBulks, EncodeItems;
    PrintNatNumeral(|cmd|);
    BulksFramed(cmd);
    assert EncodeArray(cmd) == ArrayFrame(PrintNat(|cmd|), EncodeItems(cmd));
  }

  lemma {:induction false} ItemFramed(x: Item)
    ensures IsItem(EncodeItem(x), x)
    decreases x, 0
  {
    hide Numeral, Decimal, EncodeBulkString, EncodeList, IsBulk, AreItems, PrintNat;
    match x
    case Bulk(value) => BulkFramed(value);
    case Null => NullPrinted();
    case Integer(n) => PrintIntDecimal(n);
    case Array(items) =>
      PrintNatNumeral(|items|);
      ListFramed(items);
      assert EncodeItem(x) == ArrayFrame(PrintNat(|items|), EncodeList(items));
  }

  lemma NullPrinted()
    ensures PrintInt(-1) == ['-' as int, '1' as int]
  {
  }

  lemma {:induction false} ListFramed(items: seq<Item>)
    ensures AreItems(EncodeList(items), items)
    decreases items, 1
  {
    hide EncodeItem, IsItem;
    if items != [] {
      ItemFramed(items[0]);
      ListFramed(items[1..]);
    }
  }

  // ----- Python's slices and find, for any integers -----

  function ClampIndex(length: nat, i: int): (r: nat)
    ensures r <= length
    ensures 0 <= i <= length ==> r == i
  {
    if i < 0 then (if i + length < 0 then 0 else i + length) else if i > length then length else i
  }

  /** `data[start:stop]`. */
  function Slice(data: Bytes, start: int, stop: int): Bytes {
    var lo, hi := ClampIndex(|data|, start), ClampIndex(|data|, stop);
    if lo <= hi then data[lo..hi] else []
  }

  function FindFrom(data: Bytes, i: nat): int
    decreases |data| - i
  {
    if i + 2 > |data| then -1 else if data[i] == CR && data[i + 1] == LF then i else FindFrom(data, i + 1)
  }

  /** `data.find(b"\r\n", pos)`. */
  function FindCrlf(data: Bytes, pos: int): int {
    if pos > |data| then -1 else FindFrom(data, ClampIndex(|data|, pos))
  }

  // ----- parser -----

  datatype BulkResult = NoValue | Value(value: Bytes, next: int) | BadLength

  /** `_parse_bulk_string`; BadLength stands for the ValueError of `int`. */
  function ParseBulkString(data: Bytes, pos: int): BulkResult {
    var crlf := FindCrlf(data, pos);
    if crlf == -1 then NoValue
    else
      var length := ReadInt(Slice(data, pos, crlf));
      if length.None? then BadLength
      else if length.value == -1 then NoValue
      else
        var start := crlf + 2;
        var end := start + length.value;
        if end + 2 > |data| then NoValue else Value(Slice(data, start, end), end + 2)
  }

  datatype ParseResult = Incomplete | Parsed(command: seq<Bytes>, consumed: int) | Malformed

  /** The items from `pos` on, `count` of them still to come. */
  function ParseItems(data: Bytes, pos: int, count: nat): ParseResult
    decreases count
  {
    if count == 0 then Parsed([], pos)
    else if pos >= |data| || Slice(data, pos, pos + 1) != [DOLLAR] then Incomplete
    else
      match ParseBulkString(data, pos + 1)
      case NoValue => Incomplete
      case BadLength => Malformed
      case Value(value, next) =>
        match ParseItems(data, next, count - 1)
        case Parsed(rest, consumed) => Parsed([value] + rest, consumed)
        case other => other
  }

  /** `parse`: a command and the number of bytes it took, or nothing yet. */
  function Parse(data: Bytes): ParseResult {
    if data == [] || data[0] != STAR then Incomplete
    else
      var crlf := FindCrlf(data, 1);
      if crlf == -1 then Incomplete
      else
        var count := ReadInt(Slice(data, 1, crlf));
        if count.None? then Malformed
        else ParseItems(data, crlf + 2, if count.value < 0 then 0 else count.value)
  }

  function Prepend(before: seq<Bytes>, r: ParseResult): ParseResult {
    match r
    case Parsed(rest, consumed) => Parsed(before + rest, consumed)
    case other => other
  }

  lemma PrependTwice(before: seq<Bytes>, value: Bytes, r: ParseResult)
    ensures Prepend(before, Prepend([value], r)) == Prepend(before + [value], r)
  {
    if r.Parsed? {
      assert before + ([value] + r.command) == (before + [value]) + r.command;
    }
  }

  lemma PrependNothing(r: ParseResult)
    ensures Prepend([], r) == r
  {
    if r.Parsed? {
      assert [] + r.command == r.command;
    }
  }

  lemma ParseItemsStep(data: Bytes, pos: int, count: nat)
    requires count > 0 && pos < |data| && Slice(data, pos, pos + 1) == [DOLLAR]
    ensures var bulk := ParseBulkString(data, pos + 1);
      ParseItems(data, pos, count) ==
        if bulk.NoValue? then Incomplete
        else if bulk.BadLength? then Malformed
        else Prepend([bulk.value], ParseItems(data, bulk.next, count - 1))
  {
  }

  /** `_parse_array` as the source writes it, with a position that moves along. */
  method ParseArray(data: Bytes) returns (r: ParseResult)
    requires data != [] && data[0] == STAR
    ensures r == Parse(data)
    ensures forall s, items :: IsCommand(s, items) && s <= data ==> r == Parsed(items, |s|)
  {
    hide Slice, FindCrlf, ReadInt, ParseBulkString, IsCommand;
    forall s, items | IsCommand(s, items) && s <= data ensures Parse(data) == Parsed(items, |s|) {
      ParseCommand(s, items, data[|s|..]);
      assert s + data[|s|..] == data;
    }
    var crlf := FindCrlf(data, 1);
    if crlf == -1 {
      return Incomplete;
    }
    var count := ReadInt(Slice(data, 1, crlf));
    if count.None? {
      return Malformed;
    }
    var pos := crlf + 2;
    var result: seq<Bytes> := [];
    var remaining: nat := if count.value < 0 then 0 else count.value;
    PrependNothing(ParseItems(data, pos, remaining));
    hide Parse;
    while remaining > 0
      invariant Parse(data) == Prepend(result, ParseItems(data, pos, remaining))
    {
      if pos >= |data| || Slice(data, pos, pos + 1) != [DOLLAR] {
        return Incomplete;
      }
      ParseItemsStep(data, pos, remaining);
      match ParseBulkString(data, pos + 1) {
        case NoValue => return Incomplete;
        case BadLength => return Malformed;
        case Value(value, next) =>
          PrependTwice(result, value, ParseItems(data, next, remaining - 1));
          result, pos := result + [value], next;
      }
      remaining := remaining - 1;
    }
    assert result + [] == result;
    r := Parsed(result, pos);
  }

  // ----- the parser undoes the encoder -----

  lemma {:induction false} FindSkips(data: Bytes, i: nat, k: nat)
    requires i <= k && k + 2 <= |data| && data[k] == CR && data[k + 1] == LF
    requires forall j :: i <= j < k ==> data[j] != CR
    ensures FindFrom(data, i) == k
    decreases k - i
  {
    if i < k {
      FindSkips(data, i + 1, k);
    }
  }

  lemma {:induction false} FindNothing(data: Bytes, i: nat)
    requires forall j :: i <= j && j + 1 < |data| ==> !(data[j] == CR && data[j + 1] == LF)
    ensures FindFrom(data, i) == -1
    decreases |data| - i
  {
    if i + 2 <= |data| {
      FindNothing(data, i + 1);
    }
  }

  /** A length in digits followed by CR LF is found and read. */
  lemma LengthLine(data: Bytes, pos: nat, digits: Bytes, n: nat)
    requires Numeral(digits, n) && pos <= |data| && digits + CRLF <= data[pos..]
    ensures FindCrlf(data, pos) == pos + |digits|
    ensures ReadInt(Slice(data, pos, pos + |digits|)) == Some(n)
  {
    hide ReadInt, FindFrom, Worth;
    ReadNumeral(digits, n);
    var line, k := digits + CRLF, pos + |digits|;
    assert forall j :: 0 <= j < |line| ==> data[pos + j] == line[j];
    assert forall j :: pos <= j < k ==> data[j] == digits[j - pos];
    assert data[k] == line[|digits|] && data[k + 1] == line[|digits| + 1];
    FindSkips(data, pos, k);
    assert data[pos..k] == digits;
  }

  lemma BulkLayout(digits: Bytes, v: Bytes)
    ensures |BulkFrame(digits, v)| == 1 + |digits| + 2 + |v| + 2
    ensures BulkFrame(digits, v)[0] == DOLLAR
    ensures digits + CRLF <= BulkFrame(digits, v)[1..]
    ensures BulkFrame(digits, v)[|digits| + 3..|digits| + 3 + |v|] == v
  {
  }

  /** A part of what stands at a position. */
  lemma PartAt(data: Bytes, pos: nat, e: Bytes, rest: Bytes, i: nat, j: nat)
    requires pos <= |data| && data[pos..] == e + rest && i <= j <= |e|
    ensures pos + |e| <= |data| && Slice(data, pos + i, pos + j) == e[i..j]
  {
    assert |data| == pos + |e| + |rest|;
    var part := data[pos + i..pos + j];
    forall k | 0 <= k < j - i ensures part[k] == e[i..j][k] {
      assert part[k] == data[pos + (i + k)] == data[pos..][i + k] == (e + rest)[i + k];
    }
    assert part == e[i..j];
  }

  lemma RestAt(data: Bytes, pos: nat, e: Bytes, rest: Bytes, line: Bytes)
    requires pos <= |data| && data[pos..] == e + rest && |e| > 0 && line <= e[1..]
    ensures pos + 1 <= |data| && line <= data[pos + 1..]
  {
    assert data[pos + 1..] == data[pos..][1..];
    assert (e + rest)[1..] == e[1..] + rest;
  }

  lemma ParseBulkIs(data: Bytes, pos: nat, crlf: nat, n: nat)
    requires FindCrlf(data, pos) == crlf && ReadInt(Slice(data, pos, crlf)) == Some(n) && crlf + 2 + n + 2 <= |data|
    ensures ParseBulkString(data, pos) == Value(Slice(data, crlf + 2, crlf + 2 + n), crlf + 2 + n + 2)
  {
    hide FindCrlf, ReadInt, Slice;
  }

  lemma ParseBulkFrame(data: Bytes, pos: nat, digits: Bytes, v: Bytes, rest: Bytes)
    requires Numeral(digits, |v|) && pos <= |data| && data[pos..] == BulkFrame(digits, v) + rest
    ensures pos < |data| && Slice(data, pos, pos + 1) == [DOLLAR]
    ensures ParseBulkString(data, pos + 1) == Value(v, pos + |BulkFrame(digits, v)|)
  {
    hide FindCrlf, ReadInt, Slice, ParseBulkString, BulkFrame, Numeral;
    var e := BulkFrame(digits, v);
    BulkLayout(digits, v);
    PartAt(data, pos, e, rest, 0, 1);
    assert e[0..1] == [DOLLAR];
    PartAt(data, pos, e, rest, |digits| + 3, |digits| + 3 + |v|);
    RestAt(data, pos, e, rest, digits + CRLF);
    LengthLine(data, pos + 1, digits, |v|);
    ParseBulkIs(data, pos + 1, pos + 1 + |digits|, |v|);
  }

  lemma ParseBulkExact(data: Bytes, pos: nat, e: Bytes, v: Bytes, rest: Bytes)
    requires IsBulk(e, v) && pos <= |data| && data[pos..] == e + rest
    ensures pos < |data| && Slice(data, pos, pos + 1) == [DOLLAR]
    ensures ParseBulkString(data, pos + 1) == Value(v, pos + |e|)
  {
    hide Slice, ParseBulkString, BulkFrame, Numeral;
    var digits :| Numeral(digits, |v|) && e == BulkFrame(digits, v);
    ParseBulkFrame(data, pos, digits, v, rest);
  }

  /** The bytes from a position on. */
  predicate Stands(data: Bytes, pos: nat, e: Bytes) {
    pos <= |data| && data[pos..] == e
  }

  lemma {:induction false} ParseItemsExact(data: Bytes, pos: nat, body: Bytes, items: seq<Bytes>, rest: Bytes)
    requires AreBulks(body, items) && Stands(data, pos, body + rest)
    ensures ParseItems(data, pos, |items|) == Parsed(items, pos + |body|)
    decreases |items|
  {
    hide ParseBulkString, Slice, ParseItems, Stands, Prepend, IsBulk;
    if items == [] {
      NoneParsed(data, pos);
    } else {
      var a, b :| body == a + b && IsBulk(a, items[0]) && AreBulks(b, items[1..]);
      AppendTwice(a, b, rest);
      BulkStands(data, pos, a, items[0], b + rest);
      ParseItemsExact(data, pos + |a|, b, items[1..], rest);
      ParseItemsStep(data, pos, |items|);
      PrependFront(items, pos + |body|);
    }
  }

  lemma NoneParsed(data: Bytes, pos: nat)
    ensures ParseItems(data, pos, 0) == Parsed([], pos)
  {
  }

  lemma PrependFront(items: seq<Bytes>, n: int)
    requires items != []
    ensures Prepend([items[0]], Parsed(items[1..], n)) == Parsed(items, n)
  {
    HeadTail(items);
  }

  lemma BulkStands(data: Bytes, pos: nat, e: Bytes, v: Bytes, others: Bytes)
    requires IsBulk(e, v) && Stands(data, pos, e + others)
    ensures pos < |data| && Slice(data, pos, pos + 1) == [DOLLAR]
    ensures ParseBulkString(data, pos + 1) == Value(v, pos + |e|)
    ensures Stands(data, pos + |e|, others)
  {
    hide ParseBulkString, Slice, IsBulk;
    ParseBulkExact(data, pos, e, v, others);
    DropFront(data, pos, e, others);
  }

  lemma DropFront(data: Bytes, pos: nat, e: Bytes, others: Bytes)
    requires pos <= |data| && data[pos..] == e + others
    ensures pos + |e| <= |data| && data[pos + |e|..] == others
  {
    assert data[pos + |e|..] == data[pos..][|e|..];
  }

  lemma ArrayLayout(cmd: seq<Bytes>)
    ensures EncodeArray(cmd)[0] == STAR && PrintNat(|cmd|) + CRLF <= EncodeArray(cmd)[1..]
    ensures |EncodeArray(cmd)| == 1 + |PrintNat(|cmd|)| + 2 + |EncodeItems(cmd)|
    ensures EncodeArray(cmd)[|PrintNat(|cmd|)| + 3..] == EncodeItems(cmd)
  {
  }

  lemma FrameLayout(digits: Bytes, body: Bytes, rest: Bytes)
    ensures var data := ArrayFrame(digits, body) + rest;
      && data[0] == STAR && digits + CRLF <= data[1..] && Stands(data, |digits| + 3, body + rest)
      && |ArrayFrame(digits, body)| == |digits| + 3 + |body|
  {
    var e := ArrayFrame(digits, body);
    assert (e + rest)[1..] == digits + CRLF + body + rest;
    assert (e + rest)[|digits| + 3..] == body + rest;
  }

  /** Whatever follows, bytes of the form of a command are parsed as its items, and exactly those
  bytes are taken. */
  lemma ParseCommand(s: Bytes, items: seq<Bytes>, rest: Bytes)
    requires IsCommand(s, items)
    ensures Parse(s + rest) == Parsed(items, |s|)
  {
    hide ParseItems, ArrayFrame, Numeral, AreBulks, Stands, FindCrlf, ReadInt;
    var digits, body :| Numeral(digits, |items|) && AreBulks(body, items) && s == ArrayFrame(digits, body);
    FrameLayout(digits, body, rest);
    ParseHeader(s + rest, digits, |items|);
    ParseItemsExact(s + rest, |digits| + 3, body, items, rest);
  }

  /** Whatever follows, an encoded command is parsed back, and exactly its bytes are taken. */
  lemma RoundTrip(cmd: seq<Bytes>, rest: Bytes)
    ensures Parse(EncodeArray(cmd) + rest) == Parsed(cmd, |EncodeArray(cmd)|)
    ensures IsCommand(EncodeArray(cmd), cmd)
  {
    hide Parse, IsCommand, EncodeArray;
    CommandFramed(cmd);
    ParseCommand(EncodeArray(cmd), cmd, rest);
  }

  // ----- a torn command is never mistaken for a whole one -----

  /** No line end can be found inside a line that was cut short. */
  lemma LineCut(data: Bytes, pos: nat, n: nat)
    requires pos <= |data| && data[pos..] < PrintNat(n) + CRLF
    ensures FindCrlf(data, pos) == -1
  {
    var line := PrintNat(n) + CRLF;
    assert forall j :: pos <= j < |data| ==> data[j] == line[j - pos];
    FindNothing(data, pos);
  }

  lemma PrefixSplit(data: Bytes, pos: nat, line: Bytes, tail: Bytes)
    requires pos <= |data| && data[pos..] <= line + tail
    ensures |data| - pos < |line| ==> data[pos..] < line
    ensures |data| - pos >= |line| ==> line <= data[pos..] && data[pos + |line|..] <= tail
  {
    var t := data[pos..];
    assert forall j :: 0 <= j < |t| ==> t[j] == (line + tail)[j];
    if |t| >= |line| {
      assert forall j :: 0 <= j < |t| - |line| ==> data[pos + |line| + j] == tail[j];
    }
  }

  lemma CutHead(data: Bytes, pos: nat, b: Byte, tail: Bytes)
    requires pos < |data| && data[pos..] < [b] + tail
    ensures data[pos] == b && data[pos + 1..] < tail
  {
    var t := data[pos..];
    assert forall j :: 0 <= j < |t| ==> t[j] == ([b] + tail)[j];
  }

  /** The length line is whole, the bytes it announces are not. */
  lemma BodyCut(data: Bytes, pos: nat, n: nat)
    requires pos <= |data| && PrintNat(n) + CRLF <= data[pos..]
    requires |data| < pos + |PrintNat(n)| + 2 + n + 2
    ensures ParseBulkString(data, pos) == NoValue
  {
    hide FindCrlf, ReadInt, PrintNat, Slice, Numeral;
    PrintNatNumeral(n);
    LengthLine(data, pos, PrintNat(n), n);
  }

  lemma ParseBulkCut(data: Bytes, pos: nat, v: Bytes)
    requires pos < |data| && data[pos..] < EncodeBulkString(v)
    ensures Slice(data, pos, pos + 1) == [DOLLAR] && ParseBulkString(data, pos + 1) == NoValue
  {
    hide FindCrlf, ReadInt, PrintNat, ParseBulkString;
    var line := PrintNat(|v|) + CRLF;
    BulkFramed(v);
    BulkLayout(PrintNat(|v|), v);
    assert EncodeBulkString(v) == [DOLLAR] + (line + (v + CRLF));
    CutHead(data, pos, DOLLAR, line + (v + CRLF));
    PrefixSplit(data, pos + 1, line, v + CRLF);
    if |data| - (pos + 1) < |line| {
      LineCut(data, pos + 1, |v|);
      NoLine(data, pos + 1);
    } else {
      assert |data[pos..]| < 1 + |line| + |v| + 2;
      BodyCut(data, pos + 1, |v|);
    }
  }

  lemma NoLine(data: Bytes, pos: nat)
    requires FindCrlf(data, pos) == -1
    ensures ParseBulkString(data, pos) == NoValue
  {
  }

  lemma {:induction false} ParseItemsCut(data: Bytes, pos: nat, items: seq<Bytes>)
    requires pos <= |data| && data[pos..] < EncodeItems(items)
    ensures ParseItems(data, pos, |items|) == Incomplete
    decreases |items|
  {
    hide ParseBulkString, Slice, EncodeBulkString;
    if pos < |data| {
      var e, others := EncodeBulkString(items[0]), EncodeItems(items[1..]);
      PrefixSplit(data, pos, e, others);
      if |data| - pos < |e| {
        ParseBulkCut(data, pos, items[0]);
      } else {
        assert data[pos..] == e + data[pos + |e|..];
        BulkFramed(items[0]);
        ParseBulkExact(data, pos, e, items[0], data[pos + |e|..]);
        ParseItemsCut(data, pos + |e|, items[1..]);
      }
      ParseItemsStep(data, pos, |items|);
    }
  }

  /** The line with the number of items is whole. */
  lemma ParseHeader(data: Bytes, digits: Bytes, n: nat)
    requires Numeral(digits, n) && data != [] && data[0] == STAR && digits + CRLF <= data[1..]
    ensures Parse(data) == ParseItems(data, |digits| + 3, n)
  {
    hide FindCrlf, ReadInt, Numeral, ParseItems;
    LengthLine(data, 1, digits, n);
  }

  /** Every strict prefix of an encoded command asks for more bytes. */
  lemma PrefixIncomplete(cmd: seq<Bytes>, data: Bytes)
    requires data < EncodeArray(cmd)
    ensures Parse(data) == Incomplete
  {
    hide FindCrlf, ReadInt, PrintNat, ParseItems, EncodeItems;
    if data != [] {
      var line := PrintNat(|cmd|) + CRLF;
      ArrayLayout(cmd);
      assert EncodeArray(cmd) == [STAR] + (line + EncodeItems(cmd)) && data[0..] == data;
      CutHead(data, 0, STAR, line + EncodeItems(cmd));
      PrefixSplit(data, 1, line, EncodeItems(cmd));
      if |data| - 1 < |line| {
        LineCut(data, 1, |cmd|);
      } else {
        PrintNatNumeral(|cmd|);
        ParseHeader(data, PrintNat(|cmd|), |cmd|);
        assert data[1 + |line|..] < EncodeItems(cmd);
        ParseItemsCut(data, 1 + |line|, cmd);
      }
    }
  }
}
