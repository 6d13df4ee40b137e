/** Sorted sets: a member-to-score dictionary beside the skiplist that orders it. */
module ZSets {
  import opened Ordering
  import opened Ranges
  import opened SkipLists

  /** `es` is the dictionary `m` sorted by score, then member. */
  ghost predicate Lists(es: seq<Entry>, m: map<Text, Score>) {
    Sorted(es) && Holds(es, m)
  }

  ghost predicate Holds(es: seq<Entry>, m: map<Text, Score>) {
    forall e :: e in es <==> e.member in m && m[e.member] == e.score
  }

  /** Sorting a dictionary has one outcome. */
  lemma ListingUnique(es: seq<Entry>, fs: seq<Entry>, m: map<Text, Score>)
    requires Lists(es, m) && Lists(fs, m)
    ensures es == fs
  {
    assert forall e :: e in es <==> e.member in m && m[e.member] == e.score;
    assert forall e :: e in fs <==> e.member in m && m[e.member] == e.score;
    SortedListingUnique(es, fs);
  }

  lemma HoldsWithout(es: seq<Entry>, m: map<Text, Score>, p: nat)
    requires Lists(es, m) && p < |es|
    ensures Lists(Without(es, p), m - {es[p].member})
  {
    WithoutSorted(es, p);
    var fs, n := Without(es, p), m - {es[p].member};
    assert es == es[..p] + [es[p]] + es[p + 1..] && es[p] in es;
    forall x ensures x in fs <==> x.member in n && n[x.member] == x.score {
      assert x in fs <==> x in es && x != es[p];
    }
  }

  /** ... and every member once. */
  lemma {:induction false} ListingSize(es: seq<Entry>, m: map<Text, Score>)
    requires Lists(es, m)
    ensures |es| == |m|
  {
    hide Sorted, Less;
    if es == [] {
      NothingListed(m);
    } else {
      var e, fs := es[|es| - 1], es[..|es| - 1];
      HoldsWithout(es, m, |es| - 1);
      assert Without(es, |es| - 1) == fs;
      ListingSize(fs, m - {e.member});
      assert e in es;
      assert m.Keys == (m - {e.member}).Keys + {e.member};
    }
  }

  lemma NothingListed(m: map<Text, Score>)
    requires Lists([], m)
    ensures m == map[]
  {
    assert forall k :: k in m ==> Entry(m[k], k) in [];
  }

  lemma HoldsInserted(es: seq<Entry>, m: map<Text, Score>, e: Entry)
    requires Lists(es, m) && e.member !in m
    ensures e !in es && Lists(Inserted(es, e), m[e.member := e.score])
  {
    assert e !in es;
    InsertedSorted(es, e);
    hide Inserted, LowerBound, Less, Sorted;
    var fs, n := Inserted(es, e), m[e.member := e.score];
    forall x ensures x in fs <==> x.member in n && n[x.member] == x.score {
      InInserted(es, e, x);
    }
  }

  lemma ListedAt(es: seq<Entry>, m: map<Text, Score>, e: Entry) returns (p: nat)
    requires Lists(es, m) && e.member in m && m[e.member] == e.score
    ensures e in es && p == LowerBound(es, e) && p < |es| && es[p] == e
  {
    assert e in es;
    PresentAtLowerBound(es, e);
    p := LowerBound(es, e);
  }

  /** The sorted listing, said of numbers and letters. */
  lemma ListsRises(es: seq<Entry>, m: map<Text, Score>)
    ensures Lists(es, m) <==> Rises(es) && Holds(es, m)
  {
    hide Sorted, Rises, Holds;
    SortedRises(es);
  }

  lemma FallsIsReversed(es: seq<Entry>, fs: seq<Entry>, m: map<Text, Score>)
    requires Falls(es) && Holds(es, m) && Lists(fs, m)
    ensures es == Reversed(fs)
  {
    hide EntryBefore, Sorted;
    var up := Reversed(es);
    forall i, j | 0 <= i < j < |up| ensures EntryBefore(up[i], up[j]) {
      assert up[i] == es[|es| - 1 - i] && up[j] == es[|es| - 1 - j];
    }
    forall e ensures e in up <==> e in es {
      if e in es {
        var i :| 0 <= i < |es| && es[i] == e;
        assert up[|es| - 1 - i] == e;
      }
    }
    ListsRises(up, m);
    ListingUnique(up, fs, m);
    assert es == Reversed(up);
  }

  lemma FallingCut(fs: seq<Entry>, m: map<Text, Score>, start: int, stop: int)
    requires Lists(fs, m)
    ensures forall es :: Falls(es) && Holds(es, m) ==> Cut(Selected(Reversed(fs), start, stop), es, start, stop)
  {
    hide Lists, Falls, Holds, Cut, Selected, Reversed;
    forall es | Falls(es) && Holds(es, m) ensures Cut(Selected(Reversed(fs), start, stop), es, start, stop) {
      FallsIsReversed(es, fs, m);
      SelectedIsCut(es, start, stop);
    }
  }

  ghost predicate Within(ns: seq<SkipListNode>, footprint: set<object>) {
    forall i :: 0 <= i < |ns| ==> ns[i] in footprint
  }

  lemma WithWithin(ns: seq<SkipListNode>, footprint: set<object>, p: nat, node: SkipListNode)
    requires Within(ns, footprint) && p <= |ns|
    ensures Within(With(ns, p, node), footprint + {node})
  {
  }

  lemma WithoutWithin(ns: seq<SkipListNode>, footprint: set<object>, p: nat)
    requires Within(ns, footprint)
    ensures p < |ns| ==> Within(Without(ns, p), footprint)
  {
  }

  class ZSet {
    var scores: map<Text, Score>
    const index: SkipList
    ghost var Repr: set<object>

    /** The index is sound, lies within the footprint, and lists the dictionary `m`. */
    ghost predicate Indexes(m: map<Text, Score>)
      reads this, Repr
    {
      this in Repr && index in Repr && Within(index.nodes, Repr) && index.Valid() && Lists(index.entries, m)
    }

    ghost predicate Valid()
      reads this, Repr
      ensures Valid() ==> this in Repr
    {
      Indexes(scores)
    }

    constructor ()
      ensures Valid() && fresh(Repr) && scores == map[]
    {
      scores := map[];
      index := new SkipList();
      new;
      Repr := {this, index} + set n | n in index.nodes;
    }

    /** Stores a member's score; 1 when the member is new. */
    method Set(member: Text, score: Score) returns (added: nat)
      requires Valid()
      modifies Repr
      ensures Valid() && fresh(Repr - old(Repr))
      ensures scores == old(scores)[member := score]
      ensures added == if member in old(scores) then 0 else 1
    {
      hide SkipList.Valid, Holds, Sorted, Within;
      added := if member in scores then 0 else 1;
      assert scores[member := score] - {member} == scores - {member};
      if member in scores {
        var existing := scores[member];
        if existing == score {
          assert scores == scores[member := score];
          return;
        }
        Unindex(member, existing);
        scores := scores[member := score];
        Index(member, score);
      } else {
        assert scores - {member} == scores;
        scores := scores[member := score];
        Index(member, score);
      }
    }

    /** Puts a pair the dictionary already holds into the index. */
    method Index(member: Text, score: Score)
      requires Indexes(scores - {member}) && member in scores && scores[member] == score
      modifies Repr
      ensures Valid() && fresh(Repr - old(Repr)) && scores == old(scores)
    {
      hide SkipList.Valid, Holds, Sorted, With, Inserted, Less, LowerBound;
      index.Sizes();
      HoldsInserted(index.entries, scores - {member}, Entry(score, member));
      assert (scores - {member})[member := score] == scores;
      ghost var p := LowerBound(index.entries, Entry(score, member)) + 1;
      ghost var node := index.Insert(score, member);
      WithWithin(old(index.nodes), Repr, p, node);
      Repr := Repr + {node};
    }

    /** Takes a pair out of the index alone. */
    method Unindex(member: Text, score: Score)
      requires Valid() && member in scores && scores[member] == score
      modifies Repr
      ensures Indexes(scores - {member}) && scores == old(scores) && Repr == old(Repr)
    {
      hide SkipList.Valid, Holds, Sorted, Without, Inserted, Less, LowerBound;
      index.Sizes();
      ghost var p := ListedAt(index.entries, scores, Entry(score, member));
      HoldsWithout(index.entries, scores, p);
      WithoutWithin(index.nodes, Repr, p + 1);
      var _ := index.Delete(score, member);
    }

    /** Forgets a member; 1 when it was there. */
    method Remove(member: Text) returns (removed: nat)
      requires Valid()
      modifies Repr
      ensures Valid() && fresh(Repr - old(Repr))
      ensures scores == old(scores) - {member}
      ensures removed == if member in old(scores) then 1 else 0
    {
      hide SkipList.Valid, Holds, Sorted, Within;
      if member !in scores {
        assert scores - {member} == scores;
        return 0;
      }
      Unindex(member, scores[member]);
      scores := scores - {member};
      removed := 1;
    }

    /** The number of members, which is the number of indexed entries. */
    method Len() returns (n: nat)
      requires Valid()
      ensures n == |scores| == |index.entries|
    {
      hide SkipList.Valid, Holds, Sorted;
      ListingSize(index.entries, scores);
      n := |scores|;
    }

    /** The member's place in the sorted dictionary, and None for a stranger. */
    method Rank(member: Text) returns (r: Option<nat>)
      requires Valid()
      ensures r.Some? <==> member in scores
      ensures forall es :: r.Some? && Lists(es, scores) ==>
        r.value < |es| && es[r.value] == Entry(scores[member], member)
      ensures forall es :: r.Some? && Rises(es) && Holds(es, scores) ==>
        r.value < |es| && es[r.value] == Entry(scores[member], member)
    {
      hide SkipList.Valid, Sorted, Rises;
      forall es ensures Lists(es, scores) <==> Rises(es) && Holds(es, scores) {
        ListsRises(es, scores);
      }
      if member !in scores {
        return None;
      }
      assert Entry(scores[member], member) in index.entries;
      r := index.Rank(scores[member], member);
      forall es | Lists(es, scores) ensures es == index.entries {
        ListingUnique(es, index.entries, scores);
      }
    }

    method Items() returns (result: seq<Entry>)
      requires Valid()
      ensures Lists(result, scores)
      ensures Rises(result) && forall e :: e in result <==> e.member in scores && scores[e.member] == e.score
    {
      hide SkipList.Valid, Sorted, Rises;
      result := index.Items();
      ListsRises(result, scores);
    }

    method RangeEntries(start: int, stop: int) returns (result: seq<Entry>)
      requires Valid()
      ensures forall es :: Lists(es, scores) ==> result == Selected(es, start, stop)
      ensures forall es :: Rises(es) && Holds(es, scores) ==> Cut(result, es, start, stop)
    {
      hide SkipList.Valid, Sorted, Holds, Selected, Rises, Cut;
      forall es ensures Lists(es, scores) <==> Rises(es) && Holds(es, scores) {
        ListsRises(es, scores);
      }
      result := index.RangeEntries(start, stop);
      forall es | Lists(es, scores) ensures es == index.entries {
        ListingUnique(es, index.entries, scores);
      }
    }

    /** The same range of the dictionary sorted the other way. */
    method RevrangeEntries(start: int, stop: int) returns (result: seq<Entry>)
      requires Valid()
      ensures forall es :: Lists(es, scores) ==> result == Selected(Reversed(es), start, stop)
      ensures forall es :: Falls(es) && Holds(es, scores) ==> Cut(result, es, start, stop)
    {
      hide SkipList.Valid, Sorted, Holds, Selected, Reversed, Falls, Cut, Within;
      result := Descending(start, stop);
      forall es | Lists(es, scores) ensures es == index.entries {
        ListingUnique(es, index.entries, scores);
      }
      FallingCut(index.entries, scores, start, stop);
    }

    /** The ascending range that the descending one is, turned around. */
    method Descending(start: int, stop: int) returns (result: seq<Entry>)
      requires Valid()
      ensures result == Selected(Reversed(index.entries), start, stop)
    {
      hide SkipList.Valid, Sorted, Holds, Selected, NormalizeRange, Reversed, Lists, Rises, Cut, Within;
      var n := Len();
      SelectedReversed(index.entries, start, stop);
      NormalizeRangeSteps(n, start, stop);
      if n == 0 {
        return [];
      }
      var first := if start < 0 then start + n else start;
      var last := if stop < 0 then stop + n else stop;
      first := if first < 0 then 0 else first;
      last := if last >= n then n - 1 else last;
      if first > last || first >= n {
        return [];
      }
      var ascending := index.RangeEntries(n - 1 - last, n - 1 - first);
      SelectedWithin(index.entries, n - 1 - last, n - 1 - first);
      result := Reversed(ascending);
    }

    method RangeByScore(minimum: Score, maximum: Score) returns (result: seq<Entry>)
      requires Valid()
      ensures forall es :: Lists(es, scores) ==> result == WithScores(es, minimum, maximum)
      ensures Rises(result) && forall e :: e in result <==>
        e.member in scores && scores[e.member] == e.score && UpTo(minimum, e.score) && UpTo(e.score, maximum)
    {
      hide SkipList.Valid, Sorted, WithScores, Rises, UpTo;
      result := index.RangeByScore(minimum, maximum);
      forall es | Lists(es, scores) ensures es == index.entries {
        ListingUnique(es, index.entries, scores);
      }
    }
  }
}
