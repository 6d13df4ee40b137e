/** The hash value type: a short list of pairs that is promoted, once, to a chained table. */
module Hashes {
  import opened Ordering
  import opened ProbeSequence
  import opened OpenAddressing
  import opened Chaining
  import Utf8

  const COMPACT_MAX_ENTRIES := 32
  const COMPACT_MAX_BYTES := 64

  /** The length of a text in UTF-8. */
  function ByteLength(s: Text): nat {
    if s == [] then 0
    else (if s[0] < 0x80 then 1 else if s[0] < 0x800 then 2 else if s[0] < 0x10000 then 3 else 4) + ByteLength(s[1..])
  }

  /** The number of bytes that encoding it gives. */
  lemma {:induction false} ByteLengthIs(s: Text)
    requires forall i :: 0 <= i < |s| ==> !(0xD800 <= s[i] < 0xE000)
    ensures Utf8.Encode(s).Some? && |Utf8.Encode(s).value| == ByteLength(s)
  {
    if s != [] {
      ByteLengthIs(s[1..]);
    }
  }

  predicate TooLong(s: Text) {
    ByteLength(s) > COMPACT_MAX_BYTES
  }

  /** The first pair with the key, or the length of the list when there is none. */
  function IndexOf(entries: seq<(Text, Text)>, key: Text): (i: nat)
    ensures i <= |entries|
    ensures i < |entries| ==> entries[i].0 == key
    ensures forall j :: 0 <= j < i ==> entries[j].0 != key
  {
    if entries == [] || entries[0].0 == key then 0 else 1 + IndexOf(entries[1..], key)
  }

  lemma ListedAtIndex(entries: seq<(Text, Text)>, m: map<Text, Text>, key: Text)
    requires ListsMap(entries, m)
    ensures key in m <==> IndexOf(entries, key) < |entries|
  {
    ListsKeys(entries, m);
    var i := IndexOf(entries, key);
    if key in m {
      var j :| 0 <= j < |entries| && entries[j].0 == key;
    }
  }

  /** A listing mentions every key. */
  lemma {:induction false} ListsKeys(entries: seq<(Text, Text)>, m: map<Text, Text>)
    requires ListsMap(entries, m)
    ensures forall k :: k in m ==> exists j :: 0 <= j < |entries| && entries[j].0 == k
  {
    if entries == [] {
      assert m == map[];
    } else {
      var last := entries[|entries| - 1];
      var rest, n := entries[..|entries| - 1], m - {last.0};
      assert m.Keys == n.Keys + {last.0};
      ListsKeys(rest, n);
      forall k | k in m ensures exists j :: 0 <= j < |entries| && entries[j].0 == k {
        if k == last.0 {
          assert entries[|entries| - 1].0 == k;
        } else {
          var j :| 0 <= j < |rest| && rest[j].0 == k;
          assert entries[j].0 == k;
        }
      }
    }
  }

  lemma ListsReplaced(entries: seq<(Text, Text)>, m: map<Text, Text>, i: nat, value: Text)
    requires ListsMap(entries, m) && i < |entries|
    ensures ListsMap(entries[i := (entries[i].0, value)], m[entries[i].0 := value])
  {
    assert m[entries[i].0 := value].Keys == m.Keys;
  }

  lemma ListsRemoved(entries: seq<(Text, Text)>, m: map<Text, Text>, i: nat)
    requires ListsMap(entries, m) && i < |entries|
    ensures ListsMap(Without(entries, i), m - {entries[i].0}) && |Without(entries, i)| == |entries| - 1
    ensures forall j :: 0 <= j < |Without(entries, i)| ==> Without(entries, i)[j] == entries[if j < i then j else j + 1]
  {
    var after := Without(entries, i);
    assert m.Keys == (m - {entries[i].0}).Keys + {entries[i].0};
    forall j | 0 <= j < |after| ensures after[j] == entries[if j < i then j else j + 1] {
    }
  }

  class Hash {
    const hasher: Hasher
    var compactEntries: seq<(Text, Text)>
    var table: ChainedHashTable?
    ghost var contents: map<Text, Text>
    ghost var Repr: set<object>

    ghost predicate Valid()
      reads this, Repr
      ensures Valid() ==> this in Repr
    {
      && this in Repr
      && (table == null ==> Compact())
      && (table != null ==>
        && table in Repr && table.Repr <= Repr && this !in table.Repr
        && table.Valid() && table.Tight() && table.hasher == hasher
        && compactEntries == [] && table.contents == contents)
    }

    /** A compact hash is short, and so are its keys and values. */
    ghost predicate Compact()
      reads this
    {
      && ListsMap(compactEntries, contents) && |compactEntries| <= COMPACT_MAX_ENTRIES
      && forall i :: 0 <= i < |compactEntries| ==> !TooLong(compactEntries[i].0) && !TooLong(compactEntries[i].1)
    }

    constructor (hasher: Hasher)
      ensures Valid() && fresh(Repr) && contents == map[] && table == null && this.hasher == hasher
    {
      this.hasher := hasher;
      compactEntries, table, contents := [], null, map[];
      Repr := {this};
    }

    /** The scan of the compact list. */
    method FindCompact(key: Text) returns (i: nat)
      ensures i == IndexOf(compactEntries, key)
    {
      i := 0;
      while i < |compactEntries| && compactEntries[i].0 != key
        invariant i <= |compactEntries| && IndexOf(compactEntries, key) == i + IndexOf(compactEntries[i..], key)
      {
        i := i + 1;
      }
    }

    predicate ShouldPromote(key: Text, value: Text, existing: bool)
      reads this
    {
      TooLong(key) || TooLong(value) || |compactEntries| + (if existing then 0 else 1) > COMPACT_MAX_ENTRIES
    }

    method Promote()
      requires Valid() && table == null
      modifies this
      ensures Valid() && table != null && fresh(table) && fresh(Repr - old(Repr)) && contents == old(contents)
    {
      hide ListsMap, PrefixMap, ChainedHashTable.Consistent, ChainedHashTable.Tight, NeedsGrow, NeedsShrink;
      PrefixMapWhole(compactEntries, contents);
      table := TableOf(hasher, compactEntries);
      compactEntries := [];
      Repr := Repr + table.Repr;
    }

    /** Stores a value; true when the key is new. A hash leaves the compact form exactly when
    a field or value is too long for it, or one field too many arrives, and never returns. */
    method Set(key: Text, value: Text) returns (added: bool)
      requires Valid()
      modifies Repr
      ensures Valid() && fresh(Repr - old(Repr))
      ensures contents == old(contents)[key := value] && added == (key !in old(contents))
      ensures table != null <==>
        old(table) != null || ByteLength(key) > 64 || ByteLength(value) > 64 || |contents| > 32
    {
      hide ChainedHashTable.Consistent, NeedsGrow, NeedsShrink, ByteLength;
      if table != null {
        added := SetInTable(key, value);
        return;
      }
      var existing := FindCompact(key);
      ListedAtIndex(compactEntries, contents, key);
      assert key in contents ==> contents[key := value].Keys == contents.Keys;
      if ShouldPromote(key, value, existing < |compactEntries|) {
        Promote();
        added := SetInTable(key, value);
        return;
      }
      if existing < |compactEntries| {
        ListsReplaced(compactEntries, contents, existing, value);
        compactEntries := compactEntries[existing := (key, value)];
        contents := contents[key := value];
        return false;
      }
      ListsOneMore(compactEntries, contents, key, value);
      compactEntries := compactEntries + [(key, value)];
      contents := contents[key := value];
      added := true;
    }

    method SetInTable(key: Text, value: Text) returns (added: bool)
      requires Valid() && table != null
      modifies Repr
      ensures Valid() && fresh(Repr - old(Repr)) && table == old(table)
      ensures contents == old(contents)[key := value] && added == (key !in old(contents))
    {
      added := table.Set(key, value);
      contents := contents[key := value];
      Repr := Repr + table.Repr;
    }

    method Get(key: Text) returns (value: Option<Text>)
      requires Valid()
      ensures value == if key in contents then Some(contents[key]) else None
    {
      if table != null {
        value := table.Get(key);
        return;
      }
      var i := FindCompact(key);
      ListedAtIndex(compactEntries, contents, key);
      value := if i < |compactEntries| then Some(compactEntries[i].1) else None;
    }

    /** Removes a field; true when it was there. The form does not change. */
    method Delete(key: Text) returns (removed: bool)
      requires Valid()
      modifies Repr
      ensures Valid() && fresh(Repr - old(Repr)) && table == old(table)
      ensures contents == old(contents) - {key} && removed == (key in old(contents))
    {
      hide ChainedHashTable.Consistent, NeedsGrow, NeedsShrink, Compact;
      if table != null {
        removed := table.Delete(key);
        contents := contents - {key};
        Repr := Repr + table.Repr;
        return;
      }
      removed := DeleteCompact(key);
    }

    method DeleteCompact(key: Text) returns (removed: bool)
      requires Compact()
      modifies `compactEntries, `contents
      ensures Compact() && contents == old(contents) - {key} && removed == (key in old(contents))
    {
      hide ListsMap, TooLong, Without;
      var i := FindCompact(key);
      ListedAtIndex(compactEntries, contents, key);
      if i == |compactEntries| {
        assert contents - {key} == contents;
        return false;
      }
      ListsRemoved(compactEntries, contents, i);
      compactEntries := Without(compactEntries, i);
      contents := contents - {key};
      removed := true;
    }

    method Items() returns (result: seq<(Text, Text)>)
      requires Valid()
      ensures ListsMap(result, contents)
    {
      if table != null {
        result := table.Items();
      } else {
        result := compactEntries;
      }
    }

    method Len() returns (n: nat)
      requires Valid()
      ensures n == |contents|
    {
      if table != null {
        n := table.Len();
      } else {
        n := |compactEntries|;
      }
    }
  }

  /** The map that storing the pairs one after another builds. */
  ghost function PrefixMap(entries: seq<(Text, Text)>): map<Text, Text> {
    if entries == [] then map[]
    else PrefixMap(entries[..|entries| - 1])[entries[|entries| - 1].0 := entries[|entries| - 1].1]
  }

  /** A new table with the pairs of a list stored one after another. */
  method TableOf(hasher: Hasher, entries: seq<(Text, Text)>) returns (promoted: ChainedHashTable)
    ensures promoted.Valid() && promoted.Tight() && promoted.hasher == hasher
    ensures fresh(promoted) && fresh(promoted.Repr) && promoted.contents == PrefixMap(entries)
  {
    hide ChainedHashTable.Consistent, ChainedHashTable.Tight, NeedsGrow, NeedsShrink;
    promoted := new ChainedHashTable(hasher);
    for i := 0 to |entries|
      invariant promoted.Valid() && promoted.Tight() && fresh(promoted.Repr) && promoted.hasher == hasher
      invariant fresh(promoted) && promoted.contents == PrefixMap(entries[..i])
    {
      var (key, value) := entries[i];
      assert entries[..i + 1][..i] == entries[..i];
      var _ := promoted.Set(key, value);
    }
    assert entries[..|entries|] == entries;
  }

  lemma {:induction false} PrefixMapWhole(entries: seq<(Text, Text)>, m: map<Text, Text>)
    requires ListsMap(entries, m)
    ensures PrefixMap(entries) == m
  {
    if entries == [] {
      assert m == map[];
    } else {
      var last := entries[|entries| - 1];
      assert m.Keys == (m - {last.0}).Keys + {last.0};
      PrefixMapWhole(entries[..|entries| - 1], m - {last.0});
      assert m == (m - {last.0})[last.0 := last.1];
    }
  }
}
