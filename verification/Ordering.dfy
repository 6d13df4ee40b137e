/** Text, scores, and the order the sorted set sorts by.

A Python `str` is a sequence of code points, lone surrogates included, compared
code point by code point; a score is a float without NaN, infinities included. */
module Ordering {

  type CodePoint = c: nat | c < 0x110000
  type Text = seq<CodePoint>

  datatype Option<+T> = None | Some(value: T)

  datatype Score = NegInf | Finite(value: real) | PosInf

  datatype Entry = Entry(score: Score, member: Text)

  predicate TextLess(a: Text, b: Text) {
    b != [] && (a == [] || a[0] < b[0] || (a[0] == b[0] && TextLess(a[1..], b[1..])))
  }

  predicate ScoreLess(a: Score, b: Score) {
    match (a, b)
    case (NegInf, _) => b != NegInf
    case (Finite(x), Finite(y)) => x < y
    case (Finite(_), PosInf) => true
    case _ => false
  }

  /** Python's tuple comparison `(a.score, a.member) < (b.score, b.member)`. */
  predicate Less(a: Entry, b: Entry) {
    ScoreLess(a.score, b.score) || (a.score == b.score && TextLess(a.member, b.member))
  }

  predicate AtMost(a: Entry, b: Entry) {
    a == b || Less(a, b)
  }

  ghost predicate Sorted(s: seq<Entry>) {
    forall i, j :: 0 <= i < j < |s| ==> Less(s[i], s[j])
  }

  lemma {:induction false} TextIrreflexive(a: Text)
    ensures !TextLess(a, a)
  {
    if a != [] {
      TextIrreflexive(a[1..]);
    }
  }

  lemma {:induction false} TextTransitive(a: Text, b: Text, c: Text)
    requires TextLess(a, b) && TextLess(b, c)
    ensures TextLess(a, c)
  {
    if a != [] && a[0] == b[0] == c[0] {
      TextTransitive(a[1..], b[1..], c[1..]);
    }
  }

  lemma {:induction false} TextTotal(a: Text, b: Text)
    ensures TextLess(a, b) || a == b || TextLess(b, a)
  {
    if a != [] && b != [] && a[0] == b[0] {
      TextTotal(a[1..], b[1..]);
      assert a == [a[0]] + a[1..] && b == [b[0]] + b[1..];
    }
  }

  lemma LessIrreflexive(a: Entry)
    ensures !Less(a, a)
  {
    TextIrreflexive(a.member);
  }

  lemma LessTransitive(a: Entry, b: Entry, c: Entry)
    requires Less(a, b) && Less(b, c)
    ensures Less(a, c)
  {
    if a.score == b.score == c.score {
      TextTransitive(a.member, b.member, c.member);
    }
  }

  lemma LessTotal(a: Entry, b: Entry)
    ensures Less(a, b) || a == b || Less(b, a)
  {
    TextTotal(a.member, b.member);
  }

  lemma LessAsymmetric(a: Entry, b: Entry)
    requires Less(a, b)
    ensures !Less(b, a) && a != b
  {
    LessIrreflexive(a);
    if Less(b, a) {
      LessTransitive(a, b, a);
    }
  }

  /** Sorted entries are distinct. */
  lemma OnlyAt(s: seq<Entry>, k: nat)
    requires Sorted(s) && k < |s|
    ensures forall i :: 0 <= i < |s| ==> (s[i] == s[k] <==> i == k)
  {
    forall i | 0 <= i < |s| && i != k ensures s[i] != s[k] {
      LessAsymmetric(s[if i < k then i else k], s[if i < k then k else i]);
    }
  }

  /** How many entries of a sorted sequence come before `e`. */
  ghost function LowerBound(s: seq<Entry>, e: Entry): (p: nat)
    requires Sorted(s)
    ensures p <= |s|
    ensures forall i :: 0 <= i < p ==> Less(s[i], e)
    ensures forall i :: p <= i < |s| ==> !Less(s[i], e)
  {
    if s == [] then 0
    else if Less(s[|s| - 1], e) then
      assert forall i :: 0 <= i < |s| ==> Less(s[i], e) by {
        forall i | 0 <= i < |s| - 1 ensures Less(s[i], e) {
          LessTransitive(s[i], s[|s| - 1], e);
        }
      }
      |s|
    else LowerBound(s[..|s| - 1], e)
  }

  /** `e` is present exactly when it stands at its own lower bound. */
  lemma PresentAtLowerBound(s: seq<Entry>, e: Entry)
    requires Sorted(s)
    ensures e in s <==> LowerBound(s, e) < |s| && s[LowerBound(s, e)] == e
  {
    var p := LowerBound(s, e);
    LessIrreflexive(e);
    if e in s {
      var k :| 0 <= k < |s| && s[k] == e;
      assert k >= p;
      assert !Less(s[p], e);
      assert k <= p;
    }
  }

  ghost function Inserted(s: seq<Entry>, e: Entry): seq<Entry>
    requires Sorted(s)
  {
    s[..LowerBound(s, e)] + [e] + s[LowerBound(s, e)..]
  }

  lemma InInserted(s: seq<Entry>, e: Entry, x: Entry)
    requires Sorted(s)
    ensures x in Inserted(s, e) <==> x in s || x == e
  {
    var p := LowerBound(s, e);
    hide Sorted, LowerBound, Less;
    assert s == s[..p] + s[p..];
  }

  lemma InsertedSorted(s: seq<Entry>, e: Entry)
    requires Sorted(s) && e !in s
    ensures Sorted(Inserted(s, e))
  {
    var p := LowerBound(s, e);
    forall i | p <= i < |s| ensures Less(e, s[i]) {
      LessTotal(e, s[i]);
    }
  }

  function Without<T>(s: seq<T>, p: nat): seq<T>
    requires p < |s|
  {
    s[..p] + s[p + 1..]
  }

  lemma WithoutSorted(s: seq<Entry>, p: nat)
    requires Sorted(s) && p < |s|
    ensures Sorted(Without(s, p)) && s[p] !in Without(s, p)
  {
    forall i | 0 <= i < |s| && i != p ensures s[i] != s[p] {
      LessAsymmetric(s[if i < p then i else p], s[if i < p then p else i]);
    }
  }

  /** A set of entries has one sorted listing: two sorted sequences with the
  same elements are equal. */
  lemma {:induction false} SortedListingUnique(s: seq<Entry>, t: seq<Entry>)
    requires Sorted(s) && Sorted(t)
    requires forall e :: e in s <==> e in t
    ensures s == t
  {
    assert s != [] ==> s[0] in t;
    assert t != [] ==> t[0] in s;
    if s != [] && t != [] {
      var x, y := s[0], t[0];
      assert x in t && y in s;
      if x != y {
        assert Less(y, x) && Less(x, y);
        LessAsymmetric(x, y);
      }
      WithoutSorted(s, 0);
      WithoutSorted(t, 0);
      assert Without(s, 0) == s[1..] && Without(t, 0) == t[1..];
      assert s == [x] + s[1..] && t == [x] + t[1..];
      forall e ensures e in s[1..] <==> e in t[1..] {
        assert e in s[1..] <==> e in s && e != x;
        assert e in t[1..] <==> e in t && e != x;
      }
      SortedListingUnique(s[1..], t[1..]);
    }
  }

  /** An entry cannot hide between a smaller entry and a larger one next to it. */
  lemma NotBetween(s: seq<Entry>, e: Entry, p: nat)
    requires Sorted(s) && p <= |s|
    requires p > 0 ==> Less(s[p - 1], e)
    requires p < |s| ==> !AtMost(s[p], e)
    ensures e !in s
  {
    LessIrreflexive(e);
    if e in s {
      var k :| 0 <= k < |s| && s[k] == e;
      if k < p {
        assert k == p - 1 || Less(e, s[p - 1]);
        LessAsymmetric(s[p - 1], e);
      }
    }
  }

  predicate Between(e: Entry, minimum: Score, maximum: Score) {
    !ScoreLess(e.score, minimum) && !ScoreLess(maximum, e.score)
  }

  /** The entries whose score lies between the bounds, both included, in order. */
  function WithScores(s: seq<Entry>, minimum: Score, maximum: Score): seq<Entry> {
    if s == [] then []
    else (if Between(s[0], minimum, maximum) then [s[0]] else []) + WithScores(s[1..], minimum, maximum)
  }

  lemma SliceOfTail<T>(s: seq<T>, first: nat, last: nat)
    requires 1 <= first <= last <= |s|
    ensures s[first..last] == s[1..][first - 1..last - 1]
  {
    var t := s[1..];
    assert forall k :: first <= k < last ==> s[k] == t[k - 1];
  }

  lemma {:induction false} WithScoresOfSlice(s: seq<Entry>, minimum: Score, maximum: Score, first: nat, last: nat)
    requires first <= last <= |s|
    requires forall i :: 0 <= i < |s| ==> (Between(s[i], minimum, maximum) <==> first <= i < last)
    ensures WithScores(s, minimum, maximum) == s[first..last]
  {
    if s != [] {
      var first', last' := if first == 0 then 0 else first - 1, if last == 0 then 0 else last - 1;
      WithScoresOfSlice(s[1..], minimum, maximum, first', last');
      if first == 0 < last {
        assert s[..last] == [s[0]] + s[1..][..last'];
      } else if first > 0 {
        SliceOfTail(s, first, last);
      }
    }
  }

  /** In a sorted sequence the entries between two scores are contiguous, and their
  ends can be found by looking at the neighbours alone. */
  lemma WithScoresIsSlice(s: seq<Entry>, minimum: Score, maximum: Score, first: nat, last: nat)
    requires Sorted(s) && first <= last <= |s|
    requires first > 0 ==> ScoreLess(s[first - 1].score, minimum)
    requires first < |s| ==> !ScoreLess(s[first].score, minimum)
    requires last > first ==> !ScoreLess(maximum, s[last - 1].score)
    requires last < |s| ==> ScoreLess(maximum, s[last].score)
    ensures WithScores(s, minimum, maximum) == s[first..last]
  {
    forall i | 0 <= i < |s| ensures Between(s[i], minimum, maximum) <==> first <= i < last {
      BetweenAt(s, minimum, maximum, first, last, i);
    }
    WithScoresOfSlice(s, minimum, maximum, first, last);
  }

  lemma ScoresAscend(s: seq<Entry>, i: nat, j: nat)
    requires Sorted(s) && i <= j < |s|
    ensures !ScoreLess(s[j].score, s[i].score)
  {
    assert i < j ==> Less(s[i], s[j]);
  }

  lemma BetweenAt(s: seq<Entry>, minimum: Score, maximum: Score, first: nat, last: nat, i: nat)
    requires Sorted(s) && first <= last <= |s| && i < |s|
    requires first > 0 ==> ScoreLess(s[first - 1].score, minimum)
    requires first < |s| ==> !ScoreLess(s[first].score, minimum)
    requires last > first ==> !ScoreLess(maximum, s[last - 1].score)
    requires last < |s| ==> ScoreLess(maximum, s[last].score)
    ensures Between(s[i], minimum, maximum) <==> first <= i < last
  {
    if i < first {
      ScoresAscend(s, i, first - 1);
    } else if i < last {
      ScoresAscend(s, first, i);
      ScoresAscend(s, i, last - 1);
    } else {
      ScoresAscend(s, last, i);
    }
  }

  // ----- the order, said of numbers and of letters -----

  /** At most: minus infinity before all, plus infinity after all, the others as numbers. */
  predicate UpTo(a: Score, b: Score) {
    a.NegInf? || b.PosInf? || (a.Finite? && b.Finite? && a.value <= b.value)
  }

  /** Where the two first differ, the first has the smaller letter, or it ends there. */
  ghost predicate MemberBefore(a: Text, b: Text) {
    exists n: nat :: DiffersAt(a, b, n)
  }

  predicate DiffersAt(a: Text, b: Text, n: nat) {
    n <= |a| && n < |b| && a[..n] == b[..n] && (n == |a| || a[n] < b[n])
  }

  /** By score, and where scores are equal by member. */
  ghost predicate EntryBefore(a: Entry, b: Entry) {
    UpTo(a.score, b.score) && (a.score == b.score ==> MemberBefore(a.member, b.member))
  }

  ghost predicate Rises(s: seq<Entry>) {
    forall i, j :: 0 <= i < j < |s| ==> EntryBefore(s[i], s[j])
  }

  ghost predicate Falls(s: seq<Entry>) {
    forall i, j :: 0 <= i < j < |s| ==> EntryBefore(s[j], s[i])
  }

  lemma {:induction false} TextLessIs(a: Text, b: Text)
    ensures TextLess(a, b) <==> MemberBefore(a, b)
  {
    if b == [] {
      assert !MemberBefore(a, b);
    } else if a == [] || a[0] != b[0] {
      assert DiffersAt(a, b, 0) <==> a == [] || a[0] < b[0];
      assert forall n: nat :: n > 0 && DiffersAt(a, b, n) ==> a[..n][0] == b[..n][0];
    } else {
      TextLessIs(a[1..], b[1..]);
      assert !DiffersAt(a, b, 0);
      forall n: nat ensures DiffersAt(a, b, n + 1) <==> DiffersAt(a[1..], b[1..], n) {
        DiffersLater(a, b, n);
      }
      if MemberBefore(a, b) {
        var n: nat :| DiffersAt(a, b, n);
        assert DiffersAt(a[1..], b[1..], n - 1);
      }
    }
  }

  lemma DiffersLater(a: Text, b: Text, n: nat)
    requires a != [] && b != [] && a[0] == b[0]
    ensures DiffersAt(a, b, n + 1) <==> DiffersAt(a[1..], b[1..], n)
  {
    if n < |a| && n < |b| {
      assert a[..n + 1] == [a[0]] + a[1..][..n] && b[..n + 1] == [b[0]] + b[1..][..n];
      assert a[1..][..n] == a[..n + 1][1..] && b[1..][..n] == b[..n + 1][1..];
    }
  }

  lemma LessIs(a: Entry, b: Entry)
    ensures Less(a, b) <==> EntryBefore(a, b)
  {
    hide TextLess, MemberBefore;
    TextLessIs(a.member, b.member);
  }

  lemma SortedRises(s: seq<Entry>)
    ensures Sorted(s) <==> Rises(s)
  {
    hide Less, EntryBefore;
    forall i, j | 0 <= i < j < |s| ensures Less(s[i], s[j]) <==> EntryBefore(s[i], s[j]) {
      LessIs(s[i], s[j]);
    }
  }

  /** Between the bounds, both included. */
  lemma BetweenIs(e: Entry, minimum: Score, maximum: Score)
    ensures Between(e, minimum, maximum) <==> UpTo(minimum, e.score) && UpTo(e.score, maximum)
  {
  }

  lemma {:induction false} WithScoresRises(s: seq<Entry>, minimum: Score, maximum: Score)
    requires Sorted(s)
    ensures Rises(WithScores(s, minimum, maximum))
    ensures forall e :: e in WithScores(s, minimum, maximum) <==> e in s && UpTo(minimum, e.score) && UpTo(e.score, maximum)
    decreases |s|
  {
    hide Between, UpTo, Less;
    if s != [] {
      var rest := WithScores(s[1..], minimum, maximum);
      WithScoresRises(s[1..], minimum, maximum);
      SortedRises(rest);
      BetweenIs(s[0], minimum, maximum);
      assert s == [s[0]] + s[1..];
      forall e | e in rest ensures Less(s[0], e) {
        assert e in s[1..];
      }
      SortedRises(WithScores(s, minimum, maximum));
    }
  }
}
