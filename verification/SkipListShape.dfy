/** Which node each forward pointer of a skiplist must reach, as a function of the
heights alone. Position 0 is the header; position `|h|` stands for "no node". */
module SkipListShape {

  /** The first position after `i` whose node is tall enough to be on level `l`. */
  ghost function Next(h: seq<nat>, i: nat, l: nat): (j: nat)
    requires i < |h|
    ensures i < j <= |h|
    ensures j < |h| ==> h[j] > l
    ensures forall k :: i < k < j ==> h[k] <= l
    decreases |h| - i
  {
    if i + 1 == |h| || h[i + 1] > l then i + 1 else Next(h, i + 1, l)
  }

  lemma NextIs(h: seq<nat>, i: nat, l: nat, j: nat)
    requires i < j <= |h|
    requires j < |h| ==> h[j] > l
    requires forall k :: i < k < j ==> h[k] <= l
    ensures Next(h, i, l) == j
  {
  }

  ghost function Grown(h: seq<nat>, p: nat, height: nat): (g: seq<nat>)
    requires p <= |h|
  {
    h[..p] + [height] + h[p..]
  }

  ghost function Shrunk(h: seq<nat>, p: nat): (g: seq<nat>)
    requires p < |h|
    ensures |g| == |h| - 1
  {
    h[..p] + h[p + 1..]
  }

  /** `r` is the last position before `p` on level `l`. */
  ghost predicate Predecessor(h: seq<nat>, p: nat, l: nat, r: nat) {
    r < p <= |h| && h[r] > l && Next(h, r, l) >= p
  }

  /** Every node is on level 0, so there the predecessor is the node just before. */
  lemma GroundPredecessor(h: seq<nat>, p: nat, r: nat)
    requires Predecessor(h, p, 0, r)
    requires forall i :: 0 <= i < |h| ==> h[i] > 0
    ensures r == p - 1
  {
    if r + 1 < |h| {
      NextIs(h, r, 0, r + 1);
    }
  }

  lemma GrownAt(h: seq<nat>, p: nat, height: nat)
    requires p <= |h|
    ensures var g := Grown(h, p, height);
      && |g| == |h| + 1 && g[p] == height
      && (forall k :: 0 <= k < p ==> g[k] == h[k]) && forall k :: p < k < |g| ==> g[k] == h[k - 1]
  {
  }

  lemma BeforePredecessor(h: seq<nat>, p: nat, i: nat, l: nat, r: nat)
    requires Predecessor(h, p, l, r) && i < p && h[i] > l && i != r
    ensures i < r && Next(h, i, l) <= r
  {
  }

  /** Links before the new node: only its predecessor on a level changes target,
  and only on the levels the new node is on; others step past one more node. */
  lemma NextBeforeGrown(h: seq<nat>, p: nat, height: nat, i: nat, l: nat, r: nat)
    requires Predecessor(h, p, l, r) && i < p && h[i] > l
    ensures i < |Grown(h, p, height)|
    ensures Next(Grown(h, p, height), i, l) ==
            if i != r then Next(h, i, l)
            else if l < height then p
            else Next(h, i, l) + 1
    ensures i != r ==> Next(h, i, l) < p
  {
    hide Grown;
    var g := Grown(h, p, height);
    var j := Next(h, i, l);
    GrownAt(h, p, height);
    if i != r {
      BeforePredecessor(h, p, i, l, r);
      NextIs(g, i, l, j);
    } else if l < height {
      NextIs(g, i, l, p);
    } else {
      forall k | i < k < j + 1 ensures g[k] <= l {
        assert k > p ==> g[k] == h[k - 1];
      }
      NextIs(g, i, l, j + 1);
    }
  }

  lemma NextAfterGrown(h: seq<nat>, p: nat, height: nat, i: nat, l: nat)
    requires p <= i < |h|
    ensures Next(Grown(h, p, height), i + 1, l) == Next(h, i, l) + 1
  {
    var g := Grown(h, p, height);
    var j := Next(h, i, l);
    assert j < |h| ==> g[j + 1] == h[j];
    forall k | i + 1 < k < j + 1 ensures g[k] <= l {
      assert g[k] == h[k - 1];
    }
    NextIs(g, i + 1, l, j + 1);
  }

  /** The new node continues where its predecessor pointed before. */
  lemma NextOfGrown(h: seq<nat>, p: nat, height: nat, l: nat, r: nat)
    requires Predecessor(h, p, l, r) && l < height
    ensures Next(Grown(h, p, height), p, l) == Next(h, r, l) + 1
  {
    var g := Grown(h, p, height);
    var j := Next(h, r, l);
    assert j < |h| ==> g[j + 1] == h[j];
    forall k | p < k < j + 1 ensures g[k] <= l {
      assert g[k] == h[k - 1];
    }
    NextIs(g, p, l, j + 1);
  }

  lemma NextBeforeShrunk(h: seq<nat>, p: nat, i: nat, l: nat, r: nat)
    requires Predecessor(h, p, l, r) && p < |h| && i < p && h[i] > l
    ensures Next(Shrunk(h, p), i, l) ==
            if i != r then Next(h, i, l)
            else if Next(h, i, l) == p then Next(h, p, l) - 1
            else Next(h, i, l) - 1
    ensures i != r ==> Next(h, i, l) < p
    ensures Next(h, r, l) == p <==> h[p] > l
  {
    var g := Shrunk(h, p);
    if i != r {
      BeforePredecessor(h, p, i, l, r);
      NextIs(g, i, l, Next(h, i, l));
    } else {
      NextFromPredecessor(h, p, l, r);
    }
  }

  lemma NextFromPredecessor(h: seq<nat>, p: nat, l: nat, r: nat)
    requires Predecessor(h, p, l, r) && p < |h|
    ensures Next(Shrunk(h, p), r, l) == (if Next(h, r, l) == p then Next(h, p, l) else Next(h, r, l)) - 1
  {
    var g := Shrunk(h, p);
    var m := if Next(h, r, l) == p then Next(h, p, l) else Next(h, r, l);
    assert m < |h| ==> g[m - 1] == h[m];
    forall k | r < k < m - 1 ensures g[k] <= l {
      if k < p {
        assert g[k] == h[k];
      } else {
        assert g[k] == h[k + 1];
      }
    }
    NextIs(g, r, l, m - 1);
  }

  lemma NextAfterShrunk(h: seq<nat>, p: nat, i: nat, l: nat)
    requires p < i < |h|
    ensures Next(Shrunk(h, p), i - 1, l) == Next(h, i, l) - 1
  {
    var g := Shrunk(h, p);
    var j := Next(h, i, l);
    assert j < |h| ==> g[j - 1] == h[j];
    forall k | i - 1 < k < j - 1 ensures g[k] <= l {
      assert g[k] == h[k + 1];
    }
    NextIs(g, i - 1, l, j - 1);
  }
}
