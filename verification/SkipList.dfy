/** The span-indexed skiplist behind sorted sets.

`nodes` lists the header and then every node in order, so a node's position is
its rank plus one; `entries` is the sorted sequence the list represents. */
module SkipLists {
  import opened Ordering
  import opened SkipListShape
  import opened Ranges

  const SKIPLIST_MAX_LEVEL := 16

  class SkipListNode {
    const score: Score
    const member: Option<Text>  // None in the header only
    var forward: seq<SkipListNode?>
    var span: seq<int>
    var backward: SkipListNode?

    constructor (level: nat, score: Score, member: Option<Text>)
      ensures this.score == score && this.member == member && backward == null
      ensures |forward| == |span| == level
      ensures forall l :: 0 <= l < level ==> forward[l] == null && span[l] == 0
    {
      this.score, this.member := score, member;
      forward := seq(level, _ => null);
      span := seq(level, _ => 0);
      backward := null;
    }

    function Key(): (e: Entry)
      requires member.Some?
    {
      Entry(score, member.value)
    }
  }

  /** The node at a position, and null past the end. */
  ghost function At(ns: seq<SkipListNode>, j: nat): SkipListNode? {
    if j < |ns| then ns[j] else null
  }

  /** What a span must hold: the distance to the next node of the level, and to the
  last node of the list when there is none. */
  ghost function Distance(hs: seq<nat>, i: nat, l: nat): int
    requires i < |hs|
  {
    var j := Next(hs, i, l);
    if j < |hs| then j - i else |hs| - 1 - i
  }

  ghost predicate Linked(ns: seq<SkipListNode>, hs: seq<nat>, level: nat, i: nat, l: nat)
    requires i < |ns| == |hs|
    reads ns
  {
    && l < |ns[i].forward| == |ns[i].span|
    && ns[i].forward[l] == At(ns, Next(hs, i, l))
    && (l < level ==> ns[i].span[l] == Distance(hs, i, l))
  }

  ghost predicate AllLinked(ns: seq<SkipListNode>, hs: seq<nat>, level: nat)
    reads ns
  {
    && |ns| == |hs|
    && Heighted(ns, hs)
    && forall i, l :: 0 <= i < |ns| && 0 <= l < hs[i] && l < SKIPLIST_MAX_LEVEL ==> Linked(ns, hs, level, i, l)
  }

  lemma LinkedLower(ns: seq<SkipListNode>, hs: seq<nat>, top: nat, level: nat)
    requires AllLinked(ns, hs, top) && level <= top
    ensures AllLinked(ns, hs, level)
  {
    forall i, l | 0 <= i < |ns| && 0 <= l < hs[i] && l < SKIPLIST_MAX_LEVEL ensures Linked(ns, hs, level, i, l) {
      assert Linked(ns, hs, top, i, l);
    }
  }

  /** Back links do not matter to the chains. */
  twostate lemma LinksKept(ns: seq<SkipListNode>, new hs: seq<nat>, new level: nat)
    requires old(AllLinked(ns, hs, level))
    requires forall i :: 0 <= i < |ns| ==> ns[i].forward == old(ns[i].forward) && ns[i].span == old(ns[i].span)
    ensures AllLinked(ns, hs, level)
  {
    forall i, l | 0 <= i < |ns| && 0 <= l < hs[i] && l < SKIPLIST_MAX_LEVEL ensures Linked(ns, hs, level, i, l) {
      assert old(Linked(ns, hs, level, i, l));
    }
  }

  ghost predicate Heighted(ns: seq<SkipListNode>, hs: seq<nat>)
    requires |ns| == |hs|
    reads ns
  {
    forall i :: 0 <= i < |ns| ==> |ns[i].forward| == |ns[i].span| == hs[i]
  }

  /** `node`, at position `r`, is the last node before position `p` on level `l`. */
  ghost predicate Precedes(ns: seq<SkipListNode>, hs: seq<nat>, p: nat, l: nat, node: SkipListNode?, r: nat) {
    |ns| == |hs| && Predecessor(hs, p, l, r) && node == At(ns, r)
  }

  ghost predicate Predecessors(ns: seq<SkipListNode>, hs: seq<nat>, p: nat, top: nat,
                               update: seq<SkipListNode?>, rank: seq<nat>)
  {
    && |update| == |rank| == SKIPLIST_MAX_LEVEL && top <= SKIPLIST_MAX_LEVEL
    && forall l :: 0 <= l < top ==> Precedes(ns, hs, p, l, update[l], rank[l])
  }

  lemma PredecessorsAtGround(ns: seq<SkipListNode>, hs: seq<nat>, p: nat, top: nat,
                             update: seq<SkipListNode?>, rank: seq<nat>)
    requires Predecessors(ns, hs, p, top, update, rank) && top > 0
    requires forall i :: 0 <= i < |hs| ==> hs[i] > 0
    ensures |ns| == |hs| && 0 < p <= |ns| && |update| == |rank| == SKIPLIST_MAX_LEVEL
    ensures rank[0] == p - 1 && update[0] == ns[p - 1] && Next(hs, p - 1, 0) == p
  {
    assert Precedes(ns, hs, p, 0, update[0], rank[0]);
    GroundPredecessor(hs, p, rank[0]);
    NextIs(hs, p - 1, 0, p);
  }

  ghost predicate Distinct<T>(s: seq<T>) {
    forall i, j :: 0 <= i < j < |s| ==> s[i] != s[j]
  }

  /** The immutable parts of a list: the header, then the entries in order, each node on
  at least one level. */
  ghost predicate Listing(ns: seq<SkipListNode>, hs: seq<nat>, es: seq<Entry>, level: nat) {
    && |ns| == |hs| == |es| + 1
    && Distinct(ns) && Sorted(es) && ns[0].member.None?
    && (forall i :: 1 <= i < |ns| ==> ns[i].member.Some? && ns[i].Key() == es[i - 1])
    && 1 <= level <= SKIPLIST_MAX_LEVEL == hs[0]
    && (forall i :: 1 <= i < |hs| ==> 1 <= hs[i] <= level)
  }

  /** The node before position `i`, where neither the header nor anything before it counts. */
  ghost function Before(ns: seq<SkipListNode>, i: int): SkipListNode?
    requires i <= |ns|
  {
    if i <= 1 then null else ns[i - 1]
  }

  /** Back links mirror level 0; the first node's and the header's are null. */
  ghost predicate BackLinks(ns: seq<SkipListNode>)
    reads ns
  {
    forall i :: 0 <= i < |ns| ==> ns[i].backward == Before(ns, i)
  }

  ghost predicate IsTail(ns: seq<SkipListNode>, tail: SkipListNode?) {
    |ns| > 0 && tail == if |ns| == 1 then null else ns[|ns| - 1]
  }

  twostate lemma BackLinksKept(ns: seq<SkipListNode>)
    requires old(BackLinks(ns))
    requires forall i :: 0 <= i < |ns| ==> ns[i].backward == old(ns[i].backward)
    ensures BackLinks(ns)
  {
  }

  ghost function With(ns: seq<SkipListNode>, p: nat, node: SkipListNode): seq<SkipListNode>
    requires p <= |ns|
  {
    ns[..p] + [node] + ns[p..]
  }

  ghost predicate Reached(hs: seq<nat>, level: nat) {
    level == 1 || exists i :: 1 <= i < |hs| && hs[i] == level
  }

  lemma ReachedGrown(hs: seq<nat>, p: nat, height: nat, level: nat)
    requires 1 <= p <= |hs| && (Reached(hs, level) || height == level)
    ensures Reached(Grown(hs, p, height), level)
  {
    if Reached(hs, level) && level != 1 {
      var i :| 1 <= i < |hs| && hs[i] == level;
      assert Grown(hs, p, height)[if i < p then i else i + 1] == level;
    } else {
      assert Grown(hs, p, height)[p] == height;
    }
  }

  /** An insertion in progress: the listed nodes with their heights, the list's level,
  and the new node with its height, its position-to-be and its predecessors' positions. */
  datatype Insertion = Insertion(ns: seq<SkipListNode>, hs: seq<nat>, level: nat,
                                 node: SkipListNode, height: nat, p: nat, rank: seq<nat>)
  {
    ghost predicate Shaped() {
      |ns| == |hs| && |rank| == SKIPLIST_MAX_LEVEL
    }

    /** The search has found every predecessor, and the node is new. */
    ghost predicate Planned(update: seq<SkipListNode?>) {
      && Shaped() && Distinct(ns) && node !in ns
      && 1 <= p <= |ns| && 1 <= height <= level <= SKIPLIST_MAX_LEVEL
      && Predecessors(ns, hs, p, level, update, rank) && rank[0] == p - 1
    }

    /** Links of position `i` on level `l` when the levels below `k` have been handled. */
    ghost predicate Threaded(k: nat, i: nat, l: nat)
      requires Shaped() && i < |ns| && l < |rank|
      reads ns
    {
      && l < |ns[i].forward| == |ns[i].span|
      && ns[i].forward[l] == (if l < k && i == rank[l] && l < height then node else At(ns, Next(hs, i, l)))
      && (l < level ==>
        ns[i].span[l] ==
          if l < k && i == rank[l] then (if l < height then p - i else Distance(hs, i, l) + 1) else Distance(hs, i, l))
    }

    ghost predicate ThreadedUpTo(k: nat)
      reads ns
    {
      && Shaped() && Heighted(ns, hs)
      && forall i, l :: 0 <= i < |ns| && 0 <= l < hs[i] && l < SKIPLIST_MAX_LEVEL ==> Threaded(k, i, l)
    }

    /** The new node's own links below level `k`: it takes over from its predecessors. */
    ghost predicate Filled(k: nat)
      reads node
    {
      && Shaped()
      && |node.forward| == |node.span| == height <= SKIPLIST_MAX_LEVEL && k <= height
      && forall l :: 0 <= l < k ==>
        && rank[l] < |hs|
        && node.forward[l] == At(ns, Next(hs, rank[l], l))
        && node.span[l] == Distance(hs, rank[l], l) - (p - 1 - rank[l])
    }

    ghost function NewNodes(): seq<SkipListNode>
      requires p <= |ns|
    {
      With(ns, p, node)
    }

    ghost function NewHeights(): seq<nat>
      requires p <= |hs|
    {
      Grown(hs, p, height)
    }
  }

  /** Threading one level changes one link of one node. */
  twostate lemma OneLevelThreaded(ins: Insertion, new index: nat, new forward: seq<SkipListNode?>, new span: seq<int>)
    requires old(ins.ThreadedUpTo(index)) && index < SKIPLIST_MAX_LEVEL && ins.rank[index] < |ins.ns|
    requires forall i :: 0 <= i < |ins.ns| && i != ins.rank[index] ==>
      ins.ns[i].forward == old(ins.ns[i].forward) && ins.ns[i].span == old(ins.ns[i].span)
    requires forward == ins.ns[ins.rank[index]].forward && span == ins.ns[ins.rank[index]].span
    requires index < ins.hs[ins.rank[index]]
    requires forward ==
      if index < ins.height then old(ins.ns[ins.rank[index]].forward)[index := ins.node]
      else old(ins.ns[ins.rank[index]].forward)
    requires span ==
      old(ins.ns[ins.rank[index]].span)
        [index := if index < ins.height then ins.p - ins.rank[index] else Distance(ins.hs, ins.rank[index], index) + 1]
    ensures ins.ThreadedUpTo(index + 1)
  {
    var k := index + 1;
    forall i, l | 0 <= i < |ins.ns| && 0 <= l < ins.hs[i] && l < SKIPLIST_MAX_LEVEL ensures ins.Threaded(k, i, l) {
      assert old(ins.Threaded(index, i, l));
      if i == ins.rank[index] {
      } else {
        assert ins.ns[i].forward == old(ins.ns[i].forward);
      }
    }
  }

  lemma LinkedBefore(ins: Insertion, i: nat, l: nat)
    requires ins.Shaped() && i < ins.p <= |ins.ns| && l < ins.hs[i] && l < SKIPLIST_MAX_LEVEL
    requires l < ins.level && Predecessor(ins.hs, ins.p, l, ins.rank[l])
    requires ins.Threaded(ins.level, i, l)
    ensures Linked(ins.NewNodes(), ins.NewHeights(), ins.level, i, l)
  {
    NextBeforeGrown(ins.hs, ins.p, ins.height, i, l, ins.rank[l]);
  }

  /** Above the list's level only the header has links, and they are null. */
  lemma LinkedAbove(ins: Insertion, l: nat)
    requires ins.Shaped() && 1 <= ins.p <= |ins.ns| && ins.height <= ins.level <= l < SKIPLIST_MAX_LEVEL
    requires forall j :: 1 <= j < |ins.hs| ==> ins.hs[j] <= ins.level
    requires ins.Threaded(ins.level, 0, l)
    ensures Linked(ins.NewNodes(), ins.NewHeights(), ins.level, 0, l)
  {
    NextIs(ins.hs, 0, l, |ins.hs|);
    NextIs(ins.NewHeights(), 0, l, |ins.hs| + 1);
  }

  lemma LinkedAfter(ins: Insertion, i: nat, l: nat)
    requires ins.Shaped() && ins.p <= i < |ins.ns| && l < ins.level && l < SKIPLIST_MAX_LEVEL
    requires ins.rank[l] < ins.p
    requires ins.Threaded(ins.level, i, l)
    ensures Linked(ins.NewNodes(), ins.NewHeights(), ins.level, i + 1, l)
  {
    NextAfterGrown(ins.hs, ins.p, ins.height, i, l);
  }

  lemma LinkedNew(ins: Insertion, l: nat)
    requires ins.Filled(ins.height) && ins.p <= |ins.ns| && l < ins.height
    requires Predecessor(ins.hs, ins.p, l, ins.rank[l])
    ensures Linked(ins.NewNodes(), ins.NewHeights(), ins.level, ins.p, l)
  {
    NextOfGrown(ins.hs, ins.p, ins.height, l, ins.rank[l]);
  }

  lemma LinkedAnywhere(ins: Insertion, update: seq<SkipListNode?>, i: nat, l: nat)
    requires ins.ThreadedUpTo(ins.level) && ins.Filled(ins.height) && ins.Planned(update)
    requires forall j :: 1 <= j < |ins.hs| ==> ins.hs[j] <= ins.level
    requires i < |ins.NewHeights()| && l < ins.NewHeights()[i] && l < SKIPLIST_MAX_LEVEL
    ensures Linked(ins.NewNodes(), ins.NewHeights(), ins.level, i, l)
  {
    hide Linked, Next, Distance;
    if l < ins.level {
      assert Precedes(ins.ns, ins.hs, ins.p, l, update[l], ins.rank[l]);
      if i < ins.p {
        assert ins.Threaded(ins.level, i, l);
        LinkedBefore(ins, i, l);
      } else if i == ins.p {
        LinkedNew(ins, l);
      } else {
        assert ins.Threaded(ins.level, i - 1, l);
        LinkedAfter(ins, i - 1, l);
      }
    } else {
      assert i == 0 && ins.Threaded(ins.level, 0, l);
      LinkedAbove(ins, l);
    }
  }

  /** Once threaded, the node can be listed at its position: every link and span is
  again the one the heights call for. */
  lemma ThreadedIsLinked(ins: Insertion, update: seq<SkipListNode?>)
    requires ins.ThreadedUpTo(ins.level) && ins.Filled(ins.height) && ins.Planned(update)
    requires forall j :: 1 <= j < |ins.hs| ==> ins.hs[j] <= ins.level
    ensures AllLinked(ins.NewNodes(), ins.NewHeights(), ins.level)
  {
    var ns, hs := ins.NewNodes(), ins.NewHeights();
    forall i, l | 0 <= i < |ns| && 0 <= l < hs[i] && l < SKIPLIST_MAX_LEVEL ensures Linked(ns, hs, ins.level, i, l) {
      LinkedAnywhere(ins, update, i, l);
    }
  }

  lemma ListingGrown(ins: Insertion, es: seq<Entry>, e: Entry)
    requires Listing(ins.ns, ins.hs, es, ins.level) && e !in es && ins.p == LowerBound(es, e) + 1
    requires ins.node !in ins.ns && ins.node.member.Some? && ins.node.Key() == e && 1 <= ins.height <= ins.level
    ensures Listing(ins.NewNodes(), ins.NewHeights(), Inserted(es, e), ins.level)
    ensures ins.NewNodes()[0] == ins.ns[0] && |Inserted(es, e)| == |es| + 1
  {
    InsertedSorted(es, e);
    var ns, fs := ins.NewNodes(), Inserted(es, e);
    forall i | 1 <= i < |ns| ensures ns[i].member.Some? && ns[i].Key() == fs[i - 1] {
      if i > ins.p {
        assert ns[i] == ins.ns[i - 1];
      }
    }
  }

  /** A removal in progress: position `p` leaves a list with these nodes and heights. */
  datatype Removal = Removal(ns: seq<SkipListNode>, hs: seq<nat>, level: nat, p: nat, rank: seq<nat>)
  {
    ghost predicate Shaped() {
      |ns| == |hs| && |rank| == SKIPLIST_MAX_LEVEL && 1 <= p < |ns| && level <= SKIPLIST_MAX_LEVEL
    }

    /** The link to `p` is gone from level `l`, or was never there. */
    ghost predicate Cut(k: nat, i: nat, l: nat)
      requires Shaped() && i < |ns| && l < |rank|
    {
      l < k && i == rank[l]
    }

    /** Links of position `i` on level `l` when the levels below `k` have been handled. */
    ghost predicate Unthreaded(k: nat, i: nat, l: nat)
      requires Shaped() && i < |ns| && l < |rank|
      reads ns
    {
      var j := Next(hs, i, l);
      && l < |ns[i].forward| == |ns[i].span|
      && ns[i].forward[l] == At(ns, if Cut(k, i, l) && j == p then Next(hs, p, l) else j)
      && (l < level ==>
        ns[i].span[l] ==
          if !Cut(k, i, l) then Distance(hs, i, l)
          else if j == p then Distance(hs, i, l) + Distance(hs, p, l) - 1
          else Distance(hs, i, l) - 1)
    }

    ghost predicate UnthreadedUpTo(k: nat)
      reads ns
    {
      && Shaped() && Heighted(ns, hs)
      && forall i, l :: 0 <= i < |ns| && 0 <= l < hs[i] && l < SKIPLIST_MAX_LEVEL ==> Unthreaded(k, i, l)
    }
  }

  twostate lemma OneLevelUnthreaded(rem: Removal, new index: nat, new forward: seq<SkipListNode?>, new span: seq<int>)
    requires old(rem.UnthreadedUpTo(index)) && index < SKIPLIST_MAX_LEVEL && rem.rank[index] < |rem.ns|
    requires forall i :: 0 <= i < |rem.ns| && i != rem.rank[index] ==>
      rem.ns[i].forward == old(rem.ns[i].forward) && rem.ns[i].span == old(rem.ns[i].span)
    requires forward == rem.ns[rem.rank[index]].forward && span == rem.ns[rem.rank[index]].span
    requires index < rem.hs[rem.rank[index]] && index < rem.level
    requires forward ==
      if Next(rem.hs, rem.rank[index], index) == rem.p
      then old(rem.ns[rem.rank[index]].forward)[index := At(rem.ns, Next(rem.hs, rem.p, index))]
      else old(rem.ns[rem.rank[index]].forward)
    requires span ==
      old(rem.ns[rem.rank[index]].span)
        [index := Distance(rem.hs, rem.rank[index], index) - 1 +
          if Next(rem.hs, rem.rank[index], index) == rem.p then Distance(rem.hs, rem.p, index) else 0]
    ensures rem.UnthreadedUpTo(index + 1)
  {
    var k := index + 1;
    forall i, l | 0 <= i < |rem.ns| && 0 <= l < rem.hs[i] && l < SKIPLIST_MAX_LEVEL ensures rem.Unthreaded(k, i, l) {
      assert old(rem.Unthreaded(index, i, l));
      if i == rem.rank[index] {
      } else {
        assert rem.ns[i].forward == old(rem.ns[i].forward);
      }
    }
  }

  lemma UnlinkedBefore(rem: Removal, i: nat, l: nat)
    requires rem.Shaped() && i < rem.p && l < rem.hs[i] && l < rem.level
    requires Predecessor(rem.hs, rem.p, l, rem.rank[l]) && rem.Unthreaded(rem.level, i, l)
    ensures Linked(Without(rem.ns, rem.p), Shrunk(rem.hs, rem.p), rem.level, i, l)
  {
    hide Next, Without, Shrunk;
    NextBeforeShrunk(rem.hs, rem.p, i, l, rem.rank[l]);
    var j := Next(rem.hs, i, l);
    AtWithout(rem.ns, rem.p, i);
    AtWithout(rem.ns, rem.p, if i == rem.rank[l] && j == rem.p then Next(rem.hs, rem.p, l) else j);
  }

  lemma AtWithout(ns: seq<SkipListNode>, p: nat, j: nat)
    requires p < |ns|
    ensures |Without(ns, p)| == |ns| - 1
    ensures j < p ==> At(Without(ns, p), j) == At(ns, j)
    ensures j > p ==> At(Without(ns, p), j - 1) == At(ns, j)
  {
  }

  /** The tail is as it was, unless it is the tail that goes. */
  lemma TailWithout(ns: seq<SkipListNode>, p: nat, tail: SkipListNode?)
    requires 1 <= p < |ns| && IsTail(ns, tail)
    ensures IsTail(Without(ns, p), if p + 1 < |ns| then tail else Before(ns, p))
  {
  }

  lemma UnlinkedAbove(rem: Removal, l: nat)
    requires rem.Shaped() && rem.level <= l < SKIPLIST_MAX_LEVEL
    requires forall j :: 1 <= j < |rem.hs| ==> rem.hs[j] <= rem.level
    requires rem.Unthreaded(rem.level, 0, l)
    ensures Linked(Without(rem.ns, rem.p), Shrunk(rem.hs, rem.p), rem.level, 0, l)
  {
    NextIs(rem.hs, 0, l, |rem.hs|);
    NextIs(Shrunk(rem.hs, rem.p), 0, l, |rem.hs| - 1);
  }

  lemma UnlinkedAfter(rem: Removal, i: nat, l: nat)
    requires rem.Shaped() && rem.p < i < |rem.ns| && l < rem.level && rem.rank[l] < rem.p
    requires rem.Unthreaded(rem.level, i, l)
    ensures Linked(Without(rem.ns, rem.p), Shrunk(rem.hs, rem.p), rem.level, i - 1, l)
  {
    NextAfterShrunk(rem.hs, rem.p, i, l);
  }

  /** Once unthreaded, position `p` can be struck off: the links are again those the
  remaining heights call for. */
  lemma UnthreadedIsLinked(rem: Removal, update: seq<SkipListNode?>)
    requires rem.UnthreadedUpTo(rem.level) && Predecessors(rem.ns, rem.hs, rem.p, rem.level, update, rem.rank)
    requires forall j :: 1 <= j < |rem.hs| ==> rem.hs[j] <= rem.level
    ensures AllLinked(Without(rem.ns, rem.p), Shrunk(rem.hs, rem.p), rem.level)
  {
    hide Next, Linked, Distance;
    var ns, hs := Without(rem.ns, rem.p), Shrunk(rem.hs, rem.p);
    forall i, l | 0 <= i < |ns| && 0 <= l < hs[i] && l < SKIPLIST_MAX_LEVEL ensures Linked(ns, hs, rem.level, i, l) {
      var m := if i < rem.p then i else i + 1;
      assert rem.Unthreaded(rem.level, m, l);
      if l >= rem.level {
        assert m == i == 0;
        UnlinkedAbove(rem, l);
      } else {
        assert Precedes(rem.ns, rem.hs, rem.p, l, update[l], rem.rank[l]);
        if i < rem.p { UnlinkedBefore(rem, i, l); } else { UnlinkedAfter(rem, m, l); }
      }
    }
  }

  lemma ListingShrunk(ns: seq<SkipListNode>, hs: seq<nat>, es: seq<Entry>, level: nat, p: nat)
    requires Listing(ns, hs, es, level) && 1 <= p < |ns|
    ensures Listing(Without(ns, p), Shrunk(hs, p), Without(es, p - 1), level)
    ensures Without(ns, p)[0] == ns[0] && |Without(es, p - 1)| == |es| - 1
  {
    WithoutSorted(es, p - 1);
    var ns', es' := Without(ns, p), Without(es, p - 1);
    forall i | 1 <= i < |ns'| ensures ns'[i].member.Some? && ns'[i].Key() == es'[i - 1] {
      assert ns'[i] == ns[if i < p then i else i + 1];
    }
  }

  /** The loop of `delete`. */
  method UnthreadLevels(target: SkipListNode, level: nat, update: seq<SkipListNode?>, ghost rem: Removal)
    requires rem.UnthreadedUpTo(0) && rem.level == level && Distinct(rem.ns) && target == rem.ns[rem.p]
    requires Predecessors(rem.ns, rem.hs, rem.p, level, update, rem.rank)
    modifies rem.ns`forward, rem.ns`span
    ensures rem.UnthreadedUpTo(level)
  {
    hide Distinct, Distance, Next, Heighted;
    var index := 0;
    while index < level
      invariant 0 <= index <= level && rem.UnthreadedUpTo(index)
    {
      assert Precedes(rem.ns, rem.hs, rem.p, index, update[index], rem.rank[index]);
      Unthread(target, update[index], index, rem);
      index := index + 1;
    }
  }

  /** The target taken out of one level: its predecessor gets its link and its span. */
  method Unthread(target: SkipListNode, previous: SkipListNode, index: nat, ghost rem: Removal)
    requires rem.UnthreadedUpTo(index) && index < rem.level && Distinct(rem.ns) && target == rem.ns[rem.p]
    requires Precedes(rem.ns, rem.hs, rem.p, index, previous, rem.rank[index])
    modifies previous`forward, previous`span
    ensures rem.UnthreadedUpTo(index + 1)
  {
    assert rem.Unthreaded(index, rem.rank[index], index);
    if previous.forward[index] == target {
      assert Next(rem.hs, rem.rank[index], index) == rem.p;
      assert rem.Unthreaded(index, rem.p, index);
      previous.span := previous.span[index := previous.span[index] + target.span[index] - 1];
      previous.forward := previous.forward[index := target.forward[index]];
    } else {
      assert Next(rem.hs, rem.rank[index], index) != rem.p;
      previous.span := previous.span[index := previous.span[index] - 1];
    }
    OneLevelUnthreaded(rem, index, previous.forward, previous.span);
  }

  /** The back link past the target, and the tail that results. */
  method UnlinkBack(target: SkipListNode, tail: SkipListNode?, ghost ns: seq<SkipListNode>, ghost p: nat)
    returns (tail': SkipListNode?)
    requires 1 <= p < |ns| && ns[p] == target && Distinct(ns) && BackLinks(ns) && IsTail(ns, tail)
    requires |target.forward| > 0 && target.forward[0] == At(ns, p + 1)
    modifies ns`backward
    ensures BackLinks(Without(ns, p)) && IsTail(Without(ns, p), tail')
  {
    hide IsTail;
    TailWithout(ns, p, tail);
    tail' := tail;
    assert target.backward == Before(ns, p);
    if target.forward[0] != null {
      target.forward[0].backward := target.backward;
    } else {
      tail' := target.backward;
    }
    ghost var ns' := Without(ns, p);
    forall i | 0 <= i < |ns'| ensures ns'[i].backward == Before(ns', i) {
      if i < p {
        assert ns'[i] == ns[i];
      } else {
        assert ns'[i] == ns[i + 1];
      }
    }
  }

  /** The loop of `insert` that threads the new node through its own levels. */
  method ThreadThroughLevels(node: SkipListNode, height: nat, length: nat, update: seq<SkipListNode?>, rank: seq<nat>,
                             ghost ins: Insertion)
    requires ins.Planned(update) && ins.node == node && ins.height == height && ins.rank == rank && |ins.ns| == length + 1
    requires ins.ThreadedUpTo(0) && ins.Filled(0)
    modifies node`forward, node`span, ins.ns`forward, ins.ns`span
    ensures ins.ThreadedUpTo(height) && ins.Filled(height)
  {
    hide Distance, Next, Heighted, Distinct;
    var index := 0;
    while index < height
      invariant 0 <= index <= height
      invariant ins.ThreadedUpTo(index) && ins.Filled(index)
    {
      assert Precedes(ins.ns, ins.hs, ins.p, index, update[index], ins.rank[index]);
      Fill(node, length, update[index], rank, index, ins);
      ThreadThrough(node, update[index], rank, index, ins);
      index := index + 1;
    }
  }

  /** The loop of `insert` that lengthens the spans passing over the new node. */
  method ThreadOverLevels(height: nat, level: nat, update: seq<SkipListNode?>, ghost ins: Insertion)
    requires ins.Planned(update) && ins.height == height && ins.level == level
    requires ins.ThreadedUpTo(height)
    modifies ins.ns`span
    ensures ins.ThreadedUpTo(level)
  {
    hide Distance, Next, Heighted, Distinct;
    var index := height;
    while index < level
      invariant height <= index <= level
      invariant ins.ThreadedUpTo(index)
    {
      assert Precedes(ins.ns, ins.hs, ins.p, index, update[index], ins.rank[index]);
      ThreadOver(update[index], index, ins);
      index := index + 1;
    }
  }

  /** The new node's own link and span at one level. A span of zero stands for "nothing
  follows". */
  method Fill(node: SkipListNode, length: nat, previous: SkipListNode, rank: seq<nat>, index: nat, ghost ins: Insertion)
    requires ins.node == node && ins.rank == rank && node !in ins.ns && |ins.ns| == length + 1
    requires index < ins.height <= ins.level <= SKIPLIST_MAX_LEVEL && ins.ThreadedUpTo(index) && ins.Filled(index)
    requires Precedes(ins.ns, ins.hs, ins.p, index, previous, rank[index]) && rank[0] == ins.p - 1
    modifies node`forward, node`span
    ensures ins.Filled(index + 1)
  {
    assert ins.Threaded(index, rank[index], index);
    node.forward := node.forward[index := previous.forward[index]];
    var updateSpan := previous.span[index];
    var distance := rank[0] - rank[index];
    node.span := node.span[index := if updateSpan != 0 then updateSpan - distance else length - rank[0]];
  }

  /** The link and the span of its predecessor at one level. */
  method ThreadThrough(node: SkipListNode, previous: SkipListNode, rank: seq<nat>, index: nat, ghost ins: Insertion)
    requires ins.node == node && ins.rank == rank && Distinct(ins.ns)
    requires index < ins.height <= ins.level <= SKIPLIST_MAX_LEVEL && ins.ThreadedUpTo(index)
    requires Precedes(ins.ns, ins.hs, ins.p, index, previous, rank[index]) && rank[0] == ins.p - 1
    modifies previous`forward, previous`span
    ensures ins.ThreadedUpTo(index + 1)
  {
    assert ins.Threaded(index, rank[index], index);
    previous.forward := previous.forward[index := node];
    previous.span := previous.span[index := rank[0] - rank[index] + 1];
    OneLevelThreaded(ins, index, previous.forward, previous.span);
  }

  /** The span of a link that passes over the new node. */
  method ThreadOver(previous: SkipListNode, index: nat, ghost ins: Insertion)
    requires Distinct(ins.ns) && ins.ThreadedUpTo(index) && ins.height <= index < ins.level <= SKIPLIST_MAX_LEVEL
    requires Precedes(ins.ns, ins.hs, ins.p, index, previous, ins.rank[index])
    modifies previous`span
    ensures ins.ThreadedUpTo(index + 1)
  {
    assert ins.Threaded(index, ins.rank[index], index);
    previous.span := previous.span[index := previous.span[index] + 1];
    OneLevelThreaded(ins, index, previous.forward, previous.span);
  }

  /** The back links around the new node, and the tail that results. */
  method LinkBack(node: SkipListNode, previous: SkipListNode, header: SkipListNode, tail: SkipListNode?, ghost ins: Insertion)
    returns (tail': SkipListNode?)
    requires ins.node == node && node !in ins.ns && 1 <= ins.p <= |ins.ns| && Distinct(ins.ns)
    requires BackLinks(ins.ns) && IsTail(ins.ns, tail) && ins.ns[0] == header && ins.ns[ins.p - 1] == previous
    requires |node.forward| > 0 && node.forward[0] == At(ins.ns, ins.p)
    modifies node`backward, ins.ns`backward
    ensures BackLinks(ins.NewNodes()) && IsTail(ins.NewNodes(), tail')
  {
    tail' := tail;
    assert previous == header <==> ins.p == 1;
    node.backward := if previous == header then null else previous;
    if node.forward[0] != null {
      node.forward[0].backward := node;
    } else {
      tail' := node;
    }
    forall i | 0 <= i <= |ins.ns| ensures ins.NewNodes()[i].backward == Before(ins.NewNodes(), i) {
      GrownBefore(ins.ns, ins.p, node, i);
      assert i < ins.p ==> old(ins.ns[i].backward) == Before(ins.ns, i);
      assert i > ins.p + 1 ==> old(ins.ns[i - 1].backward) == Before(ins.ns, i - 1);
    }
  }

  /** Who stands where, and before whom, once a node is put in. */
  lemma GrownBefore(ns: seq<SkipListNode>, p: nat, node: SkipListNode, i: nat)
    requires 1 <= p <= |ns| && i <= |ns|
    ensures |With(ns, p, node)| == |ns| + 1
    ensures With(ns, p, node)[i] == if i < p then ns[i] else if i == p then node else ns[i - 1]
    ensures Before(With(ns, p, node), i) ==
      if i < p then Before(ns, i) else if i == p then (if p == 1 then null else ns[p - 1])
      else if i == p + 1 then node else Before(ns, i - 1)
  {
  }

  /** On levels that only the header is on, it is the predecessor of every position. */
  lemma HeaderPrecedes(ns: seq<SkipListNode>, hs: seq<nat>, p: nat, level: nat, height: nat,
      update: seq<SkipListNode?>, rank: seq<nat>, update': seq<SkipListNode?>, rank': seq<nat>)
    requires Predecessors(ns, hs, p, level, update, rank) && level <= height <= SKIPLIST_MAX_LEVEL
    requires 1 <= p <= |ns| == |hs| && hs[0] == SKIPLIST_MAX_LEVEL && forall i :: 1 <= i < |hs| ==> hs[i] <= level
    requires |update'| == |rank'| == SKIPLIST_MAX_LEVEL
    requires forall l :: 0 <= l < level ==> update'[l] == update[l] && rank'[l] == rank[l]
    requires forall l :: level <= l < height ==> update'[l] == ns[0] && rank'[l] == 0
    ensures Predecessors(ns, hs, p, height, update', rank')
  {
    forall l | 0 <= l < height ensures Precedes(ns, hs, p, l, update'[l], rank'[l]) {
      if l < level {
        assert Precedes(ns, hs, p, l, update[l], rank[l]);
      } else {
        NextIs(hs, 0, l, |hs|);
      }
    }
  }

  lemma InsertedRises(s: seq<Entry>, e: Entry)
    requires Sorted(s) && e !in s
    ensures Rises(Inserted(s, e)) && forall x :: x in Inserted(s, e) <==> x in s || x == e
  {
    hide Inserted, LowerBound, Less, Rises;
    InsertedSorted(s, e);
    SortedRises(Inserted(s, e));
    forall x ensures x in Inserted(s, e) <==> x in s || x == e {
      InInserted(s, e, x);
    }
  }

  /** Without the entry, which is where its lower bound is if it is there at all. */
  lemma DeletedRises(s: seq<Entry>, e: Entry)
    requires Sorted(s)
    ensures var p := LowerBound(s, e); e in s ==>
      p < |s| && Rises(Without(s, p)) && forall x :: x in Without(s, p) <==> x in s && x != e
    ensures Rises(s)
  {
    hide LowerBound, Less, Rises;
    SortedRises(s);
    PresentAtLowerBound(s, e);
    if e in s {
      var p := LowerBound(s, e);
      WithoutSorted(s, p);
      SortedRises(Without(s, p));
      assert s == s[..p] + [s[p]] + s[p + 1..];
    }
  }

  class SkipList {
    const header: SkipListNode
    var tail: SkipListNode?
    var level: nat
    var length: nat

    ghost var nodes: seq<SkipListNode>
    ghost var heights: seq<nat>
    ghost var entries: seq<Entry>

    ghost predicate Listed()
      reads this
    {
      Listing(nodes, heights, entries, level) && nodes[0] == header && |entries| == length
    }

    /** Every link is the one the heights call for. */
    ghost predicate Chained()
      reads this, nodes
    {
      AllLinked(nodes, heights, level)
    }

    ghost predicate BackLinked()
      reads this, nodes
    {
      BackLinks(nodes) && IsTail(nodes, tail)
    }

    /** The list's level is that of its tallest node, and 1 when it is empty. */
    ghost predicate Tight()
      reads this
    {
      Reached(heights, level)
    }

    ghost predicate Valid()
      reads this, nodes
    {
      Listed() && Chained() && BackLinked() && Tight()
    }

    lemma Sizes()
      requires Valid()
      ensures |nodes| == |heights| == |entries| + 1 == length + 1 && Sorted(entries)
      ensures nodes[0] == header && header.member.None? && 1 <= level <= heights[0]
    {
    }

    constructor ()
      ensures Valid() && entries == []
      ensures fresh(nodes)
    {
      var head := new SkipListNode(SKIPLIST_MAX_LEVEL, NegInf, None);
      header := head;
      tail := null;
      level := 1;
      length := 0;
      nodes, heights, entries := [head], [SKIPLIST_MAX_LEVEL], [];
    }

    /** Any number of coin flips may succeed, up to the cap. */
    method RandomLevel() returns (height: nat)
      ensures 1 <= height <= 16
    {
      height := 1;
      while height < SKIPLIST_MAX_LEVEL
        invariant 1 <= height <= SKIPLIST_MAX_LEVEL
      {
        var promoted: bool := *;
        if !promoted {
          break;
        }
        height := height + 1;
      }
    }

    /** The inner search loop: along level `index` while the next node is before `e`. */
    method Advance(e: Entry, index: nat, start: SkipListNode, position: nat)
      returns (current: SkipListNode, reached: nat)
      requires Listed() && Chained() && index < level
      requires position <= LowerBound(entries, e) && start == nodes[position] && heights[position] > index
      ensures Precedes(nodes, heights, LowerBound(entries, e) + 1, index, current, reached)
    {
      hide Next, Linked, Heighted, AllLinked, BackLinks, Distinct, Less, Sorted, LowerBound;
      ghost var p := LowerBound(entries, e);
      current, reached := start, position;
      Step(reached, index);
      while current.forward[index] != null && Less(current.forward[index].Key(), e)
        invariant reached <= p && current == nodes[reached] && heights[reached] > index
        invariant index < |current.forward| == |current.span|
        invariant current.forward[index] == At(nodes, Next(heights, reached, index))
        decreases p - reached
      {
        Step(reached, index);
        reached := reached + current.span[index];
        current := current.forward[index];
        Step(reached, index);
      }
      Step(reached, index);
    }

    /** The descending search that `insert` and `delete` open with: on every level,
    the last node before `e` and its position. */
    method FindPredecessors(e: Entry) returns (update: seq<SkipListNode?>, rank: seq<nat>)
      requires Listed() && Chained()
      ensures Predecessors(nodes, heights, LowerBound(entries, e) + 1, level, update, rank)
    {
      hide Next, Linked, Heighted, AllLinked, Distinct, Less, Sorted, LowerBound;
      ghost var p := LowerBound(entries, e) + 1;
      update := seq(SKIPLIST_MAX_LEVEL, _ => null);
      rank := seq(SKIPLIST_MAX_LEVEL, _ => 0);
      var current := header;
      var index := level;
      while index > 0
        invariant 0 <= index <= level && |update| == |rank| == SKIPLIST_MAX_LEVEL
        invariant index == level ==> current == header
        invariant index < level ==> current == update[index]
        invariant forall l :: index <= l < level ==> Precedes(nodes, heights, p, l, update[l], rank[l])
      {
        index := index - 1;
        var position := if index == level - 1 then 0 else rank[index + 1];
        assert index < level - 1 ==> Precedes(nodes, heights, p, index + 1, update[index + 1], rank[index + 1]);
        var reached;
        current, reached := Advance(e, index, current, position);
        rank := rank[index := reached];
        update := update[index := current];
      }
    }

    /** Levels above the current one are empty, so the header precedes everything there. */
    method RaiseLevel(height: nat, ghost p: nat, update: seq<SkipListNode?>, rank: seq<nat>)
      returns (update': seq<SkipListNode?>, rank': seq<nat>)
      requires Listed() && Chained() && BackLinked() && 1 <= p <= |nodes| && level < height <= SKIPLIST_MAX_LEVEL
      requires Predecessors(nodes, heights, p, level, update, rank)
      modifies this`level, header`span
      ensures Listed() && Chained() && BackLinked() && level == height
      ensures Predecessors(nodes, heights, p, height, update', rank')
    {
      hide Linked, BackLinks, Less, Distance, Precedes;
      update', rank' := update, rank;
      assert |header.span| == SKIPLIST_MAX_LEVEL by { assert |nodes[0].span| == heights[0]; }
      var index := level;
      while index < height
        invariant level == old(level) <= index <= height
        invariant |update'| == |rank'| == |header.span| == SKIPLIST_MAX_LEVEL
        invariant forall l :: 0 <= l < level ==> update'[l] == update[l] && rank'[l] == rank[l]
        invariant forall l :: level <= l < index ==> update'[l] == header && rank'[l] == 0
        invariant forall l :: 0 <= l < SKIPLIST_MAX_LEVEL ==>
          header.span[l] == if level <= l < index then length else old(header.span[l])
      {
        rank' := rank'[index := 0];
        update' := update'[index := header];
        header.span := header.span[index := length];
        index := index + 1;
      }
      level := height;
      RaisedChained(height);
      BackLinksKept(nodes);
      HeaderPrecedes(nodes, heights, p, old(level), height, update, rank, update', rank');
    }

    twostate lemma RaisedChained(height: nat)
      requires Listed() && old(Chained()) && old(level) < height == level <= SKIPLIST_MAX_LEVEL
      requires forall i :: 1 <= i < |heights| ==> heights[i] <= old(level)
      requires nodes == old(nodes) && heights == old(heights) && length == old(length)
      requires forall n <- nodes :: unchanged(n`forward) && (n != header ==> unchanged(n`span))
      requires |header.span| == |old(header.span)|
      requires forall l :: 0 <= l < |header.span| ==>
        header.span[l] == if old(level) <= l < height then length else old(header.span[l])
      ensures Chained()
    {
      forall i | 0 <= i < |nodes| ensures |nodes[i].forward| == |nodes[i].span| == heights[i] {
        assert nodes[i] in nodes && (i > 0 ==> nodes[i] != nodes[0]);
      }
      forall i, l | 0 <= i < |nodes| && 0 <= l < heights[i] && l < SKIPLIST_MAX_LEVEL
        ensures Linked(nodes, heights, level, i, l)
      {
        assert nodes[i] in nodes && (i > 0 ==> nodes[i] != nodes[0]);
        assert old(Linked(nodes, heights, level, i, l));
        if i == 0 && old(level) <= l < height {
          NextIs(heights, 0, l, |heights|);
        }
      }
    }

    lemma NothingThreaded(ins: Insertion, update: seq<SkipListNode?>)
      requires Chained() && ins.ns == nodes && ins.hs == heights && ins.level == level && ins.Planned(update)
      ensures ins.ThreadedUpTo(0)
    {
      forall i, l | 0 <= i < |nodes| && 0 <= l < heights[i] && l < SKIPLIST_MAX_LEVEL ensures ins.Threaded(0, i, l) {
        assert Linked(nodes, heights, level, i, l);
      }
    }

    /** Adds an absent entry at its sorted position. */
    method Insert(score: Score, member: Text) returns (ghost added: SkipListNode)
      requires Valid() && Entry(score, member) !in entries
      modifies this, nodes
      ensures Valid() && entries == Inserted(old(entries), Entry(score, member))
      ensures fresh(added) && nodes == With(old(nodes), LowerBound(old(entries), Entry(score, member)) + 1, added)
      ensures Rises(entries) && forall e :: e in entries <==> e in old(entries) || e == Entry(score, member)
    {
      hide With, Grown, BackLinks, Reached, Inserted, Less, LowerBound, Next, Linked, Heighted, AllLinked, Predecessors, Rises;
      InsertedRises(entries, Entry(score, member));
      ghost var p := LowerBound(entries, Entry(score, member)) + 1;
      var update, rank := FindPredecessors(Entry(score, member));
      var height := RandomLevel();
      if height > level {
        update, rank := RaiseLevel(height, p, update, rank);
      }
      added := Splice(score, member, height, update, rank);
    }

    /** `insert` once the level is drawn: create the node and thread it in. */
    method Splice(score: Score, member: Text, height: nat, update: seq<SkipListNode?>, rank: seq<nat>)
      returns (ghost added: SkipListNode)
      requires Listed() && Chained() && BackLinked() && Entry(score, member) !in entries
      requires 1 <= height <= level && (Tight() || height == level)
      requires Predecessors(nodes, heights, LowerBound(entries, Entry(score, member)) + 1, level, update, rank)
      modifies this, nodes
      ensures Valid() && entries == Inserted(old(entries), Entry(score, member))
      ensures fresh(added) && nodes == With(old(nodes), LowerBound(old(entries), Entry(score, member)) + 1, added)
    {
      hide With, Grown, BackLinks, Reached, Inserted, Less, LowerBound, Next, Linked, Heighted, AllLinked, Distinct, Predecessors;
      ghost var p := LowerBound(entries, Entry(score, member)) + 1;
      PredecessorsAtGround(nodes, heights, p, level, update, rank);
      var node := new SkipListNode(height, score, Some(member));
      ghost var ins := Insertion(nodes, heights, level, node, height, p, rank);
      ThreadNode(node, height, update, rank, ins);
      Finish(node, update[0], ins);
      added := node;
    }

    method ThreadNode(node: SkipListNode, height: nat, update: seq<SkipListNode?>, rank: seq<nat>, ghost ins: Insertion)
      requires ins == Insertion(nodes, heights, level, node, height, ins.p, rank)
      requires Listed() && Chained() && BackLinked() && ins.Planned(update) && ins.Filled(0)
      modifies node`forward, node`span, nodes`forward, nodes`span
      ensures AllLinked(ins.NewNodes(), ins.NewHeights(), level) && BackLinked()
      ensures |node.forward| > 0 && node.forward[0] == At(nodes, Next(heights, rank[0], 0))
    {
      hide Next, Linked, Heighted, AllLinked, BackLinks, Less, LowerBound, Predecessors, Distinct;
      NothingThreaded(ins, update);
      ThreadThroughLevels(node, height, length, update, rank, ins);
      ThreadOverLevels(height, level, update, ins);
      ThreadedIsLinked(ins, update);
      BackLinksKept(nodes);
    }

    /** The back links, the tail and the length, after which the new node is part of the list. */
    method Finish(node: SkipListNode, previous: SkipListNode, ghost ins: Insertion)
      requires Listed() && ins.ns == nodes && ins.hs == heights && ins.level == level && ins.node == node
      requires node !in nodes && node.member.Some? && node.Key() !in entries && 1 <= ins.height <= level
      requires ins.p == LowerBound(entries, node.Key()) + 1 && previous == nodes[ins.p - 1]
      requires |node.forward| > 0 && node.forward[0] == At(nodes, ins.p)
      requires AllLinked(ins.NewNodes(), ins.NewHeights(), level) && BackLinked()
      requires Tight() || ins.height == level
      modifies this`tail, this`length, this`nodes, this`heights, this`entries, node`backward, nodes`backward
      ensures Valid() && entries == Inserted(old(entries), node.Key()) && nodes == ins.NewNodes()
    {
      hide With, Grown, BackLinks, Reached, Inserted, Less, LowerBound, Next, Linked, Heighted;
      assert Sorted(entries);
      tail := LinkBack(node, previous, header, tail, ins);
      LinksKept(ins.NewNodes(), ins.NewHeights(), level);
      ListingGrown(ins, entries, node.Key());
      ReachedGrown(heights, ins.p, ins.height, level);
      length := length + 1;
      nodes, heights, entries := ins.NewNodes(), ins.NewHeights(), Inserted(entries, node.Key());
    }

    /** Removes an entry, and says whether it was there. */
    method Delete(score: Score, member: Text) returns (removed: bool)
      requires Valid()
      modifies this, nodes
      ensures Valid() && removed == (Entry(score, member) in old(entries))
      ensures !removed ==> entries == old(entries) && nodes == old(nodes)
      ensures removed ==> var p := LowerBound(old(entries), Entry(score, member));
        p < |old(entries)| && entries == Without(old(entries), p) && nodes == Without(old(nodes), p + 1)
      ensures Rises(entries) && forall e :: e in entries <==> e in old(entries) && e != Entry(score, member)
    {
      hide With, Grown, BackLinks, Reached, Inserted, Less, LowerBound, Next, Linked, Heighted, AllLinked, Distinct, Predecessors, Rises;
      DeletedRises(entries, Entry(score, member));
      ghost var p := LowerBound(entries, Entry(score, member)) + 1;
      var update, rank := FindPredecessors(Entry(score, member));
      PredecessorsAtGround(nodes, heights, p, level, update, rank);
      PresentAtLowerBound(entries, Entry(score, member));
      LinkAt(p - 1, 0);
      var target := update[0].forward[0];
      if target == null || target.Key() != Entry(score, member) {
        return false;
      }
      Unsplice(target, update, rank, p);
      removed := true;
    }

    lemma LinkAt(i: nat, l: nat)
      requires Chained() && i < |nodes| && l < heights[i] && l < SKIPLIST_MAX_LEVEL
      ensures l < |nodes[i].forward| && nodes[i].forward[l] == At(nodes, Next(heights, i, l))
    {
      assert Linked(nodes, heights, level, i, l);
    }

    /** `delete` once the target is found. */
    method Unsplice(target: SkipListNode, update: seq<SkipListNode?>, ghost rank: seq<nat>, ghost p: nat)
      requires Valid() && 1 <= p < |nodes| && target == nodes[p]
      requires Predecessors(nodes, heights, p, level, update, rank)
      modifies this, nodes
      ensures Valid() && entries == Without(old(entries), p - 1) && nodes == Without(old(nodes), p)
    {
      hide Without, Shrunk, BackLinks, Reached, Sorted, Next, Linked, Heighted, AllLinked, Distinct, Predecessors;
      ghost var rem := Removal(nodes, heights, level, p, rank);
      NothingUnthreaded(rem, update);
      UnthreadLevels(target, level, update, rem);
      UnthreadedIsLinked(rem, update);
      BackLinksKept(nodes);
      PredecessorsAtGround(nodes, heights, p, level, update, rank);
      TargetKeepsLink(rem);
      Strike(target, p);
    }

    /** The back link, the level and the length, after which the target is no longer part of the list. */
    method Strike(target: SkipListNode, ghost p: nat)
      requires Listed() && BackLinked() && 1 <= p < |nodes| && target == nodes[p]
      requires |target.forward| > 0 && target.forward[0] == At(nodes, p + 1)
      requires AllLinked(Without(nodes, p), Shrunk(heights, p), level)
      modifies this, nodes`backward
      ensures Valid() && entries == Without(old(entries), p - 1) && nodes == Without(old(nodes), p)
    {
      hide Without, Shrunk, BackLinks, Reached, Less, Next, Linked, Heighted, AllLinked, Distinct, Predecessors;
      tail := UnlinkBack(target, tail, nodes, p);
      LinksKept(Without(nodes, p), Shrunk(heights, p), level);
      ListingShrunk(nodes, heights, entries, level, p);
      length := length - 1;
      nodes, heights, entries := Without(nodes, p), Shrunk(heights, p), Without(entries, p - 1);
      LowerLevel();
    }

    lemma NothingUnthreaded(rem: Removal, update: seq<SkipListNode?>)
      requires Listed() && Chained() && rem.ns == nodes && rem.hs == heights && rem.level == level && 1 <= rem.p < |nodes|
      requires Predecessors(nodes, heights, rem.p, level, update, rem.rank)
      ensures rem.UnthreadedUpTo(0)
    {
      forall i, l | 0 <= i < |nodes| && 0 <= l < heights[i] && l < SKIPLIST_MAX_LEVEL ensures rem.Unthreaded(0, i, l) {
        assert Linked(nodes, heights, level, i, l);
      }
    }

    /** The unlinked node still points where it did. */
    lemma TargetKeepsLink(rem: Removal)
      requires Listed() && rem.ns == nodes && rem.hs == heights && rem.UnthreadedUpTo(rem.level)
      requires rem.rank[0] == rem.p - 1
      ensures |nodes[rem.p].forward| > 0 && nodes[rem.p].forward[0] == At(nodes, rem.p + 1)
    {
      assert rem.Unthreaded(rem.level, rem.p, 0);
      NextIs(heights, rem.p, 0, rem.p + 1);
    }

    /** Levels left empty are given up. */
    method LowerLevel()
      requires Listed() && Chained() && BackLinked()
      modifies this`level
      ensures Valid()
    {
      hide Next, Linked, Heighted, AllLinked, BackLinks, Less, Distinct;
      ghost var top := level;
      LinkAt(0, level - 1);
      while level > 1 && header.forward[level - 1] == null
        invariant 1 <= level <= top && level <= |header.forward|
        invariant header.forward[level - 1] == At(nodes, Next(heights, 0, level - 1))
        invariant forall i :: 1 <= i < |heights| ==> heights[i] <= level
      {
        level := level - 1;
        HeaderLink(top, level - 1);
      }
      LinkedLower(nodes, heights, top, level);
    }

    lemma HeaderLink(top: nat, l: nat)
      requires |nodes| > 0 && nodes[0] == header && AllLinked(nodes, heights, top) && l < heights[0] && l < SKIPLIST_MAX_LEVEL
      ensures l < |header.forward| && header.forward[l] == At(nodes, Next(heights, 0, l))
    {
      assert Linked(nodes, heights, top, 0, l);
    }

    /** What following level `l` from position `i` finds. */
    lemma Step(i: nat, l: nat)
      requires Listed() && Chained() && i < |nodes| && l < heights[i] && l < level
      ensures l < |nodes[i].forward| == |nodes[i].span|
      ensures nodes[i].forward[l] == At(nodes, Next(heights, i, l))
      ensures Next(heights, i, l) < |nodes| ==>
        && nodes[i].span[l] == Next(heights, i, l) - i
        && nodes[Next(heights, i, l)].member.Some?
        && nodes[Next(heights, i, l)].Key() == entries[Next(heights, i, l) - 1]
    {
      assert Linked(nodes, heights, level, i, l);
    }

    lemma GroundNext(i: nat)
      requires Listed() && i < |nodes|
      ensures Next(heights, i, 0) == i + 1
    {
      NextIs(heights, i, 0, i + 1);
    }

    /** The inner loop of `rank`: along level `index` while the next node is not past `e`. */
    method AdvanceUpTo(e: Entry, index: nat, start: SkipListNode, position: nat)
      returns (current: SkipListNode, traversed: nat)
      requires Valid() && index < level && position < |nodes| && start == nodes[position] && heights[position] > index
      requires position > 0 ==> AtMost(entries[position - 1], e)
      ensures traversed < |nodes| && current == nodes[traversed] && heights[traversed] > index
      ensures traversed > 0 ==> AtMost(entries[traversed - 1], e)
      ensures var j := Next(heights, traversed, index); j <= |entries| ==> !AtMost(entries[j - 1], e)
    {
      hide Next, Linked, Heighted, AllLinked, BackLinks, Distinct, Less, Sorted, AtMost;
      current, traversed := start, position;
      Step(traversed, index);
      while current.forward[index] != null && AtMost(current.forward[index].Key(), e)
        invariant traversed < |nodes| && current == nodes[traversed] && heights[traversed] > index
        invariant traversed > 0 ==> AtMost(entries[traversed - 1], e)
        invariant index < |current.forward| == |current.span|
        invariant current.forward[index] == At(nodes, Next(heights, traversed, index))
        decreases |nodes| - traversed
      {
        Step(traversed, index);
        traversed := traversed + current.span[index];
        current := current.forward[index];
        Step(traversed, index);
      }
    }

    /** The entry's index, and None when it is absent. */
    method Rank(score: Score, member: Text) returns (r: Option<nat>)
      requires Valid()
      ensures r.None? <==> Entry(score, member) !in entries
      ensures forall i :: 0 <= i < |entries| ==> (r == Some(i) <==> entries[i] == Entry(score, member))
      ensures r.Some? ==> r.value < |entries|
      ensures Rises(entries)
    {
      hide Next, Linked, Heighted, AllLinked, BackLinks, Distinct, Less, Sorted, Rises;
      Sizes();
      SortedRises(entries);
      var e := Entry(score, member);
      var traversed: nat, current := 0, header;
      var index := level;
      while index > 0
        invariant 0 <= index <= level
        invariant traversed < |nodes| && current == nodes[traversed] && heights[traversed] >= index
        invariant traversed > 0 ==> Less(entries[traversed - 1], e)
        invariant index < level ==> var j := Next(heights, traversed, index); j <= |entries| ==> !AtMost(entries[j - 1], e)
      {
        index := index - 1;
        current, traversed := AdvanceUpTo(e, index, current, traversed);
        if current.member == Some(member) && current.score == score {
          OnlyAt(entries, traversed - 1);
          return Some(traversed - 1);
        }
      }
      GroundNext(traversed);
      NotBetween(entries, e, traversed);
      r := None;
    }

    /** The node of the entry at index `rank`, and null when there is no such entry. */
    method NodeByRank(rank: int) returns (node: SkipListNode?)
      requires Valid()
      ensures node == if 0 <= rank < |entries| then nodes[rank + 1] else null
    {
      hide Next, Linked, Heighted, AllLinked, BackLinks, Distinct, Less, Sorted, Listing;
      Sizes();
      if rank < 0 || rank >= length {
        return null;
      }
      var current, traversed: nat, target := header, 0, rank + 1;
      var index := level;
      while index > 0
        invariant 0 <= index <= level
        invariant traversed < target && current == nodes[traversed] && heights[traversed] >= index
        invariant index < level ==> Next(heights, traversed, index) > target
      {
        index := index - 1;
        Step(traversed, index);
        while current.forward[index] != null && traversed + current.span[index] <= target
          invariant traversed <= target && current == nodes[traversed] && heights[traversed] > index
          invariant index < |current.forward| == |current.span|
          invariant current.forward[index] == At(nodes, Next(heights, traversed, index))
          decreases target - traversed
        {
          Step(traversed, index);
          traversed := traversed + current.span[index];
          current := current.forward[index];
          Step(traversed, index);
        }
        Step(traversed, index);
        if traversed == target {
          return current;
        }
      }
      GroundNext(traversed);
      assert false;
    }

    /** The entries from index `start` to index `stop`, both ends included. */
    method RangeEntries(start: int, stop: int) returns (result: seq<Entry>)
      requires Valid()
      ensures result == Selected(entries, start, stop) && Cut(result, entries, start, stop) && Rises(entries)
    {
      hide Next, Linked, Heighted, AllLinked, BackLinks, Distinct, Less, Sorted, Cut, Rises;
      SortedRises(entries);
      SelectedIsCut(entries, start, stop);
      if length == 0 {
        return [];
      }
      var first := if start < 0 then start + length else start;
      var last := if stop < 0 then stop + length else stop;
      first := if first < 0 then 0 else first;
      last := if last >= length then length - 1 else last;
      if first > last || first >= length {
        return [];
      }
      var node := NodeByRank(first);
      result := Collect(node, first, last);
    }

    /** The walk along level 0 that gathers a range. */
    method Collect(start: SkipListNode?, first: nat, last: nat) returns (result: seq<Entry>)
      requires Valid() && first <= last < |entries| && start == At(nodes, first + 1)
      ensures result == entries[first..last + 1]
    {
      hide Next, Linked, Heighted, AllLinked, BackLinks, Distinct, Less, Sorted;
      var node := start;
      result := [];
      var index := first;
      while node != null && index <= last
        invariant first <= index <= last + 1 && result == entries[first..index]
        invariant node == At(nodes, index + 1)
        decreases |nodes| - index
      {
        assert node.member.Some? && node.Key() == entries[index];
        result := result + [node.Key()];
        Step(index + 1, 0);
        GroundNext(index + 1);
        node := node.forward[0];
        index := index + 1;
      }
    }

    /** Along level `index` while the next node has a score below `minimum`. */
    method AdvanceBelow(minimum: Score, index: nat, start: SkipListNode, ghost from: nat)
      returns (head: SkipListNode, ghost position: nat)
      requires Valid() && index < level
      requires from < |nodes| && start == nodes[from] && heights[from] > index
      requires from > 0 ==> ScoreLess(entries[from - 1].score, minimum)
      ensures position < |nodes| && head == nodes[position] && heights[position] > index
      ensures position > 0 ==> ScoreLess(entries[position - 1].score, minimum)
      ensures var j := Next(heights, position, index); j <= |entries| ==> !ScoreLess(entries[j - 1].score, minimum)
    {
      hide Next, Linked, Heighted, AllLinked, BackLinks, Distinct, Less, Sorted, Listing, ScoreLess;
      Sizes();
      head, position := start, from;
      Step(position, index);
      while head.forward[index] != null && ScoreLess(head.forward[index].score, minimum)
        invariant position < |nodes| && head == nodes[position] && heights[position] > index
        invariant position > 0 ==> ScoreLess(entries[position - 1].score, minimum)
        invariant index < |head.forward| && head.forward[index] == At(nodes, Next(heights, position, index))
        decreases |nodes| - position
      {
        Step(position, index);
        head := head.forward[index];
        position := Next(heights, position, index);
        Step(position, index);
      }
      Step(position, index);
    }

    /** The descending search for the last node with a score below `minimum`. */
    method SeekScore(minimum: Score) returns (head: SkipListNode, ghost position: nat)
      requires Valid()
      ensures position < |nodes| && head == nodes[position]
      ensures position > 0 ==> ScoreLess(entries[position - 1].score, minimum)
      ensures position < |entries| ==> !ScoreLess(entries[position].score, minimum)
    {
      hide Next, Linked, Heighted, AllLinked, BackLinks, Distinct, Less, Sorted, Listing, ScoreLess;
      Sizes();
      head, position := header, 0;
      var index := level;
      while index > 0
        invariant 0 <= index <= level
        invariant position < |nodes| && head == nodes[position] && heights[position] >= index
        invariant position > 0 ==> ScoreLess(entries[position - 1].score, minimum)
        invariant index < level ==>
          var j := Next(heights, position, index); j <= |entries| ==> !ScoreLess(entries[j - 1].score, minimum)
      {
        index := index - 1;
        head, position := AdvanceBelow(minimum, index, head, position);
      }
      GroundNext(position);
    }

    /** The entries with a score between the bounds, in order. */
    method RangeByScore(minimum: Score, maximum: Score) returns (result: seq<Entry>)
      requires Valid()
      ensures result == WithScores(entries, minimum, maximum)
      ensures Rises(result) && forall e :: e in result <==> e in entries && UpTo(minimum, e.score) && UpTo(e.score, maximum)
    {
      hide Rises, UpTo, Next, Linked, Heighted, AllLinked, BackLinks, Distinct, Less, Sorted, WithScores, Distance, ScoreLess;
      ghost var first;
      var current: SkipListNode?;
      current, first := SeekScore(minimum);
      Step(first, 0);
      GroundNext(first);
      current := current.forward[0];
      ghost var position := first;
      result := [];
      while current != null && !ScoreLess(maximum, current.score)
        invariant first <= position <= |entries| && current == At(nodes, position + 1)
        invariant result == entries[first..position]
        invariant position > first ==> !ScoreLess(maximum, entries[position - 1].score)
        decreases |nodes| - position
      {
        assert current.member.Some? && current.Key() == entries[position];
        result := result + [current.Key()];
        assert entries[first..position + 1] == entries[first..position] + [entries[position]];
        position := position + 1;
        Step(position, 0);
        GroundNext(position);
        current := current.forward[0];
      }
      Gathered(minimum, maximum, first, position);
    }

    /** The entries from the first with a score not below `minimum` up to the last not above `maximum`. */
    lemma Gathered(minimum: Score, maximum: Score, first: nat, last: nat)
      requires Listed() && first <= last <= |entries|
      requires first > 0 ==> ScoreLess(entries[first - 1].score, minimum)
      requires first < |entries| ==> !ScoreLess(entries[first].score, minimum)
      requires last > first ==> !ScoreLess(maximum, entries[last - 1].score)
      requires last < |entries| ==> ScoreLess(maximum, entries[last].score)
      ensures entries[first..last] == WithScores(entries, minimum, maximum)
      ensures Rises(entries[first..last])
      ensures forall e :: e in entries[first..last] <==> e in entries && UpTo(minimum, e.score) && UpTo(e.score, maximum)
    {
      hide Rises, UpTo, Heighted, Less, Sorted, WithScores, ScoreLess;
      WithScoresIsSlice(entries, minimum, maximum, first, last);
      WithScoresRises(entries, minimum, maximum);
    }

    method Items() returns (result: seq<Entry>)
      requires Valid()
      ensures result == entries && Rises(result)
    {
      hide Rises;
      result := RangeEntries(0, length - 1);
      SortedRises(entries);
    }
  }
}
