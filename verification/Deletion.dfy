/**
  Removing a key (set.c:83-87): its slot is freed, and `__relayout_nodes` re-lays out the cluster
  behind it, which moves the hole towards the end of the cluster. The pass stops at the end of the
  array and does not wrap around, so it restores searchability only on a condition, given here
  exactly.
*/
module Deletion {
  import opened CStrings
  import opened Tables
  import opened Relayouts

  /** No stored node's walk passes over slot `c`. */
  ghost predicate Unpassed(s: Table, c: nat) {
    forall f: nat | f < |s| && s[f].Full? :: !Passes(Home(s[f].node, |s|), f, c)
  }

  /** That is, for the node in slot `f`, `d` steps from slot `hash % n` on, slot `c` is not among the slots before. */
  lemma UnpassedIsWalk(s: Table, c: nat)
    requires c < |s|
    ensures Unpassed(s, c) <==>
            forall f: nat, d: nat | f < |s| && s[f].Full? && d < |s| && Walk(s[f].node.hash, |s|, d)[d] == f ::
              c !in Walk(s[f].node.hash, |s|, d)[..d]
  {
    forall f: nat, d: nat | f < |s| && s[f].Full? && d < |s| && Walk(s[f].node.hash, |s|, d)[d] == f
      ensures c in Walk(s[f].node.hash, |s|, d)[..d] <==> Passes(Home(s[f].node, |s|), f, c)
    {
      var e := Distance(Home(s[f].node, |s|), f, |s|);
      PassesIsWalk(s[f].node, |s|, f);
      SameSteps(s[f].node, |s|, d, e);
    }
    forall f: nat | f < |s| && s[f].Full?
      ensures exists d: nat :: d < |s| && Walk(s[f].node.hash, |s|, d)[d] == f
    {
      PassesIsWalk(s[f].node, |s|, f);
      assert Walk(s[f].node.hash, |s|, Distance(Home(s[f].node, |s|), f, |s|))[Distance(Home(s[f].node, |s|), f, |s|)] == f;
    }
  }

  ghost predicate UnpassedFrom(s: Table, k: nat) {
    exists c: nat :: k <= c < |s| && Unpassed(s, c)
  }

  /**
    Whether the key in slot `k` can be removed safely: some slot from `k` to the end of the array is
    passed over by the walk of no other stored key.
  */
  ghost predicate Removable(s: Table, k: nat)
    requires k < |s|
  {
    UnpassedFrom(s[k := Empty], k)
  }

  ghost function Removed(s: Table, k: nat): (t: Table)
    requires k < |s|
    ensures |t| == |s|
  {
    Relayout(s[k := Empty], k, k, 0, 0)
  }

  /** The pass stops at the first empty slot: one right behind the key, on any table, leaves all else as it was. */
  lemma StopsAtEmpty(s: Table, k: nat)
    requires k + 1 < |s| && s[k + 1].Empty?
    ensures Removed(s, k) == s[k := Empty]
  {
    assert Relayout(s[k := Empty], k + 1, k, 0, 0) == s[k := Empty];
  }

  /** The walk to slot `f` meets no empty slot but, possibly, `hole`. */
  ghost predicate ReachesBut(s: Table, f: nat, hole: nat)
    requires f < |s| && s[f].Full?
  {
    forall c: nat | c < |s| && Passes(Home(s[f].node, |s|), f, c) :: s[c].Full? || c == hole
  }

  /**
    The pass over `s` with slot `k` freed is at slot `i`, and its table is `a`: one hole is all that
    can break a walk, and slots from the hole on are passed over exactly if they were at first.
  */
  ghost predicate OneHole(s: Table, a: Table, k: nat, i: nat, hole: nat) {
    && |a| == |s| && k <= hole < i <= |a| && a[hole].Empty?
    && (forall f: nat | f < |a| && a[f].Full? :: ReachesBut(a, f, hole))
    && (forall f: nat | hole < f < i && a[f].Full? :: !Passes(Home(a[f].node, |a|), f, hole))
    && (forall c: nat | hole <= c < |a| :: Unpassed(a, c) <==> Unpassed(s, c))
    && (forall c: nat | k <= c < hole :: !Unpassed(s, c))
  }

  /** One step of the pass: the node in slot `i` fills the hole if its walk passes over it. */
  lemma OneHoleStep(s: Table, a: Table, k: nat, i: nat, hole: nat, j: nat)
    requires OneHole(s, a, k, i, hole) && i < |a| && a[i].Full? && Distinct(a)
    requires Stops(a, a[i].node, j) && (j == i || a[j].Empty?)
    ensures OneHole(s, Move(a, i, j), k, i + 1, if j == i then hole else i)
  {
  }

  /** Where the pass ends, the table is searchable exactly if some slot from `k` on was unpassed. */
  lemma OneHoleEnds(s: Table, a: Table, k: nat, i: nat, hole: nat)
    requires OneHole(s, a, k, i, hole) && (i == |a| || a[i].Empty?)
    ensures Searchable(a) <==> UnpassedFrom(s, k)
  {
    if c: nat :| k <= c < |s| && Unpassed(s, c) {
      assert hole <= c && Unpassed(a, c);
      forall f: nat | f < |a| && a[f].Full?
        ensures Reaches(a, f)
      {
        assert ReachesBut(a, f, hole);
      }
    } else {
      assert !Unpassed(s, hole);
      var f: nat :| f < |a| && a[f].Full? && Passes(Home(a[f].node, |a|), f, hole);
      assert !Reaches(a, f);
    }
  }

  lemma OneHoleNext(s: Table, a: Table, k: nat, i: nat, hole: nat, index: nat) returns (j: nat, hole': nat)
    requires OneHole(s, a, k, i, hole) && i < |a| && a[i].Full? && Distinct(a) && index < |a|
    ensures j == Landing(a, a[i].node, index)
    ensures OneHole(s, Move(a, i, j), k, i + 1, hole') && Distinct(Move(a, i, j))
  {
    j := Landing(a, a[i].node, index);
    hole' := if j == i then hole else i;
    LandsSafely(a, i, index);
    OneHoleStep(s, a, k, i, hole, j);
    StepConserves(a, i, index);
  }

  /** The pass, from any slot: `i'` is where it stops, and `hole'` where the hole is then. */
  lemma {:induction false} OneHolePass(s: Table, a: Table, k: nat, i: nat, hole: nat, index: nat)
    returns (i': nat, hole': nat)
    requires OneHole(s, a, k, i, hole) && Distinct(a) && index < |a|
    ensures var t := Relayout(a, i, k, 0, index);
            OneHole(s, t, k, i', hole') && (i' == |t| || t[i'].Empty?)
    decreases |a| - i
  {
    if i == |a| || a[i].Empty? {
      i', hole' := i, hole;
    } else {
      var j, next := OneHoleNext(s, a, k, i, hole, index);
      i', hole' := OneHolePass(s, Move(a, i, j), k, i + 1, next, j);
    }
  }

  /**
    What removal leaves. Always: the other nodes, in as many slots. And exactly if the key was
    removable, a good table, in which every other key is still found.
  */
  lemma RemovalIsExact(s: Table, hash: HashFunction, k: nat)
    requires Good(s, hash) && k < |s| && s[k].Full?
    ensures var t := Removed(s, k);
            && NodesOf(t) == NodesOf(s) - {s[k].node} && KeysOf(t) == KeysOf(s) - {s[k].node.key}
            && Distinct(t) && Hashed(t, hash) && |Used(t)| == |Used(s)| - 1
            && (Good(t, hash) <==> Removable(s, k))
  {
    var a := s[k := Empty];
    Freed(s, k);
    assert Hashed(a, hash);
    RelayoutConserves(a, k, k, 0, 0);
    SameKeys(a, Removed(s, k), hash);
    RemovalPass(s, k);
  }

  lemma RemovalPass(s: Table, k: nat)
    requires Searchable(s) && Distinct(s) && k < |s| && s[k].Full?
    ensures Searchable(Removed(s, k)) <==> Removable(s, k)
  {
    var a := s[k := Empty];
    forall f: nat | f < |a| && a[f].Full?
      ensures ReachesBut(a, f, k)
    {
      assert Reaches(s, f);
    }
    assert OneHole(a, a, k, k + 1, k);
    var i, hole := OneHolePass(a, a, k, k + 1, k, 0);
    OneHoleEnds(a, Removed(s, k), k, i, hole);
  }

  lemma Freed(s: Table, k: nat)
    requires k < |s| && s[k].Full? && Distinct(s)
    ensures var a := s[k := Empty];
            && Distinct(a) && |Used(a)| == |Used(s)| - 1
            && NodesOf(a) == NodesOf(s) - {s[k].node} && KeysOf(a) == KeysOf(s) - {s[k].node.key}
  {
    var a := s[k := Empty];
    assert Used(a) == Used(s) - {k};
    forall x
      ensures x in NodesOf(a) <==> x in NodesOf(s) - {s[k].node}
    {
      if x in NodesOf(s) - {s[k].node} {
        var i: nat :| i < |s| && s[i].Full? && s[i].node == x;
        assert a[i] == s[i];
      }
    }
    forall key
      ensures key in KeysOf(a) <==> key in KeysOf(s) - {s[k].node.key}
    {
      if key in KeysOf(s) - {s[k].node.key} {
        var i: nat :| i < |s| && s[i].Full? && s[i].node.key == key;
        assert a[i] == s[i];
      }
    }
  }

  /** An empty slot behind the key, or an empty slot 0, is enough. */
  lemma RoomBehind(s: Table, k: nat)
    requires Searchable(s) && k < |s| && s[k].Full?
    requires s[0].Empty? || exists c: nat :: k < c < |s| && s[c].Empty?
    ensures Removable(s, k)
  {
    var c: nat := |s| - 1;
    if d: nat :| k < d < |s| && s[d].Empty? {
      c := d;
    }
    forall f: nat | f < |s| && s[k := Empty][f].Full?
      ensures !Passes(Home(s[f].node, |s|), f, c)
    {
      assert Reaches(s, f);
      assert Passes(Home(s[f].node, |s|), f, |s| - 1) ==> f == 0 || Passes(Home(s[f].node, |s|), f, 0);
    }
    assert Unpassed(s[k := Empty], c);
  }

  /** Two nodes whose home is the last slot: the first one is there, the second one in slot 0. */
  ghost function CollidingPair(n: nat, x: Node, y: Node): Table {
    seq(n, (i: nat) => if i == 0 then Full(y) else if i == n - 1 then Full(x) else Empty)
  }

  /** The condition matters: removing the first of a colliding pair leaves the second stored but not found. */
  lemma RemovalCanLoseAKey(n: nat, x: Node, y: Node, hash: HashFunction)
    requires n >= 2 && x.key != y.key && x.hash == hash(x.key) && y.hash == hash(y.key)
    requires Home(x, n) == Home(y, n) == n - 1
    ensures var s := CollidingPair(n, x, y);
            && Good(s, hash) && NodesOf(s) == {x, y}
            && y.key in KeysOf(Removed(s, n - 1))
            && Probe(Removed(s, n - 1), y) == Vacant(n - 1)
  {
    var s := CollidingPair(n, x, y);
    assert s[0] == Full(y) && s[n - 1] == Full(x);
    var freed := s[n - 1 := Empty];
    assert Relayout(freed, n, n - 1, 0, 0) == freed;
    var t := Removed(s, n - 1);
    assert t == freed;
    assert Stops(t, y, n - 1);
    ProbeAt(t, y, n - 1);
    assert t[0] == Full(y);
  }
}
