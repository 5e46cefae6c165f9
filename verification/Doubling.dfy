/**
  Growing the set (set.c:249-264): the array gets as many empty slots again, and one pass of
  `__relayout_nodes` over it, in place, makes it searchable under the new, doubled modulus.

  While the pass is in the lower half, a node whose old walk wrapped may be spilled into the upper
  half; slots on its new walk may then be emptied. The pass over the upper half repairs that. No
  node that settled in the lower half is orphaned by the repair, because its walk can only pass
  over a run of upper slots that stay put.
*/
module Doubling {
  import opened CStrings
  import opened Tables
  import opened Relayouts

  ghost function Empties(n: nat): Table {
    seq(n, _ => Empty)
  }

  /** Under the doubled modulus a home stays, or moves up by the old size. */
  lemma DoubledHome(x: Node, n: nat)
    requires n > 0
    ensures Home(x, 2 * n) == Home(x, n) || Home(x, 2 * n) == Home(x, n) + n
  {
    var q, r := Quotient(x.hash, 2 * n);
    Twice(n, q);
    if r < n {
      ModIs(x.hash, n, 2 * q, r);
    } else {
      ModIs(x.hash, n, 2 * q + 1, r - n);
    }
  }

  lemma Quotient(a: nat, n: nat) returns (q: nat, r: nat)
    requires n > 0
    ensures a == n * q + r && r == a % n < n
  {
    q, r := a / n, a % n;
  }

  lemma Twice(n: nat, q: nat)
    ensures (2 * n) * q == n * (2 * q) && n * (2 * q + 1) == n * (2 * q) + n
  {
  }

  lemma ModIs(a: nat, n: nat, q: nat, r: nat)
    requires n > 0 && r < n && a == n * q + r
    ensures a % n == r
  {
    var q', r' := Quotient(a, n);
    Apart(n, q, q');
    Apart(n, q', q);
  }

  /** A greater multiple of `n` is greater by at least `n`. */
  lemma {:induction false} Apart(n: nat, q: nat, q': nat)
    ensures q < q' ==> n * q + n <= n * q'
    decreases q'
  {
    if q + 1 < q' {
      Apart(n, q, q' - 1);
      Successor(n, q' - 1);
    } else if q + 1 == q' {
      Successor(n, q);
    }
  }

  lemma Successor(n: nat, q: nat)
    ensures n * (q + 1) == n * q + n
  {
  }

  /** The home of the node in slot `f` of a doubled table. */
  ghost function HomeAt(a: Table, f: nat): (h: nat)
    requires f < |a| && a[f].Full?
    ensures h < |a|
  {
    Home(a[f].node, |a|)
  }

  ghost function Max(a: nat, b: nat): nat { if a < b then b else a }

  /** The part of an upper node's walk that lies in slots `from` and up is full. */
  ghost predicate UpperWalk(a: Table, from: nat, f: nat)
    requires f < |a| && a[f].Full?
  {
    && HomeAt(a, f) <= f
    && forall c: nat | Max(HomeAt(a, f), from) <= c < f :: a[c].Full?
  }

  /** The pass is at slot `i` of the lower half of `a`, which began as the table `s`. */
  ghost predicate Lower(s: Table, a: Table, i: nat) {
    && i <= |s| && |a| == 2 * |s|
    && (forall f: nat | i <= f < |s| :: a[f] == s[f])
    && (forall f: nat | f < i && a[f].Full? :: Reaches(a, f) && (HomeAt(a, f) <= f || |s| <= HomeAt(a, f)))
    && (forall f: nat | |s| <= f < |a| && a[f].Full? :: UpperWalk(a, |s|, f))
  }

  /** The pass is at slot `i` of the upper half; slots `[r, 2n)` are full and will not move. */
  ghost predicate Upper(a: Table, n: nat, i: nat, r: nat) {
    && |a| == 2 * n && n <= i <= |a| && n < r <= |a|
    && (forall f: nat | f < n && a[f].Full? :: Reaches(a, f) && (HomeAt(a, f) <= f || r <= HomeAt(a, f)))
    && (forall f: nat | r <= f < |a| :: a[f].Full? && r <= HomeAt(a, f))
    && (forall f: nat | n <= f < i && a[f].Full? :: UpperWalk(a, 0, f))
    && (forall f: nat | i <= f < |a| && a[f].Full? :: UpperWalk(a, i, f))
  }

  /** If the upper half of a doubled table is full, the lower half is empty. */
  lemma HalfIsEnough(a: Table, n: nat, f: nat)
    requires |a| == 2 * n && |Used(a)| <= n && f < n && a[f].Full?
    ensures exists c: nat :: n <= c < 2 * n && a[c].Empty?
  {
    if forall c: nat | n <= c < 2 * n :: a[c].Full? {
      var u := Below(2 * n) - Below(n) + {f};
      assert Below(n) <= Below(2 * n);
      assert u <= Used(a);
      CardinalityOfSubset(u, Used(a));
    }
  }

  /** One step in the lower half. */
  lemma LowerStep(s: Table, a: Table, i: nat, j: nat)
    requires Lower(s, a, i) && i < |s| && a[i].Full?
    requires Searchable(s) && Distinct(a) && |Used(a)| <= |s|
    requires Stops(a, a[i].node, j) && (j == i || a[j].Empty?)
    ensures Lower(s, Move(a, i, j), i + 1)
  {
    var n, x, h := |s|, a[i].node, HomeAt(a, i);
    DoubledHome(x, n);
    assert Reaches(s, i);
    HalfIsEnough(a, n, i);
    assert !Passes(h, j, i);
    if i < h < n {
      // The old walk wrapped; it is still full up to the end of the lower half: the node spills.
      assert forall c: nat | h <= c < n :: s[c].Full? && a[c] == s[c];
      assert n <= j;
    }
    LowerMove(s, a, i, j);
  }

  lemma LowerMove(s: Table, a: Table, i: nat, j: nat)
    requires Lower(s, a, i) && i < |s| && a[i].Full?
    requires Stops(a, a[i].node, j) && (j == i || a[j].Empty?)
    requires j <= i ==> HomeAt(a, i) <= j || |s| <= HomeAt(a, i)
    requires j > i ==> |s| <= j && HomeAt(a, i) <= j
    ensures Lower(s, Move(a, i, j), i + 1)
  {
  }

  /** The full run that ends at the last slot begins at `r`, or is the whole upper half. */
  lemma {:induction false} LastRun(a: Table, n: nat, m: nat) returns (r: nat)
    requires n <= m <= |a| && forall c: nat | m <= c < |a| :: a[c].Full?
    ensures n <= r <= m && forall c: nat | r <= c < |a| :: a[c].Full?
    ensures r == n || a[r - 1].Empty?
    decreases m
  {
    if m == n || a[m - 1].Empty? {
      r := m;
    } else {
      r := LastRun(a, n, m - 1);
    }
  }

  /** Between the halves: what the lower half leaves is what the upper half needs. */
  lemma HalfWay(s: Table, a: Table) returns (r: nat)
    requires |s| > 0 && Lower(s, a, |s|) && |Used(a)| <= |s|
    ensures Upper(a, |s|, |s|, r)
  {
    var n := |s|;
    r := LastRun(a, n, |a|);
    if r == n {
      r := |a|;
      forall f: nat | f < n && a[f].Full?
        ensures false
      {
        HalfIsEnough(a, n, f);
      }
    } else {
      forall f: nat | r <= f < |a|
        ensures r <= HomeAt(a, f)
      {
        assert UpperWalk(a, n, f);
      }
      forall f: nat | f < n && a[f].Full?
        ensures Reaches(a, f) && (HomeAt(a, f) <= f || r <= HomeAt(a, f))
      {
        assert Reaches(a, f);
      }
    }
  }

  /** One step in the upper half: the node stays in `[r, 2n)`, and else moves back on its walk or stays. */
  lemma UpperStep(a: Table, n: nat, i: nat, r: nat, j: nat)
    requires Upper(a, n, i, r) && i < |a| && a[i].Full? && Distinct(a)
    requires Stops(a, a[i].node, j) && (j == i || a[j].Empty?)
    ensures Upper(Move(a, i, j), n, i + 1, r)
  {
    assert UpperWalk(a, i, i);
    assert !Passes(HomeAt(a, i), j, i);
    assert HomeAt(a, i) <= j <= i;
    if j == i {
      assert UpperWalk(a, 0, i);
      forall f: nat | i + 1 <= f < |a| && a[f].Full?
        ensures UpperWalk(a, i + 1, f)
      {
        assert UpperWalk(a, i, f);
      }
    } else {
      assert i < r;
      UpperMove(a, n, i, r, j);
    }
  }

  lemma UpperMove(a: Table, n: nat, i: nat, r: nat, j: nat)
    requires Upper(a, n, i, r) && i < r && i < |a| && a[i].Full?
    requires Stops(a, a[i].node, j) && a[j].Empty? && HomeAt(a, i) <= j < i
    ensures Upper(Move(a, i, j), n, i + 1, r)
  {
    var b := Move(a, i, j);
    forall f: nat | f < n && b[f].Full?
      ensures Reaches(b, f) && (HomeAt(b, f) <= f || r <= HomeAt(b, f))
    {
      if f != j {
        assert Reaches(a, f);
      }
    }
    forall f: nat | n <= f < i + 1 && b[f].Full?
      ensures UpperWalk(b, 0, f)
    {
      if f != j {
        assert UpperWalk(a, 0, f);
      }
    }
    forall f: nat | i + 1 <= f < |b| && b[f].Full?
      ensures UpperWalk(b, i + 1, f)
    {
      assert UpperWalk(a, i, f);
    }
  }

  lemma UpperEnds(a: Table, n: nat, r: nat)
    requires Upper(a, n, |a|, r)
    ensures Searchable(a)
  {
  }

  lemma UpperSkips(a: Table, n: nat, i: nat, r: nat)
    requires Upper(a, n, i, r) && i < |a| && a[i].Empty?
    ensures Upper(a, n, i + 1, r)
  {
  }

  lemma UpperNext(a: Table, n: nat, i: nat, r: nat, index: nat) returns (j: nat)
    requires Upper(a, n, i, r) && i < |a| && a[i].Full? && Distinct(a) && index < |a|
    ensures j == Landing(a, a[i].node, index)
    ensures Upper(Move(a, i, j), n, i + 1, r) && Distinct(Move(a, i, j))
  {
    j := Landing(a, a[i].node, index);
    LandsSafely(a, i, index);
    UpperStep(a, n, i, r, j);
    StepConserves(a, i, index);
  }

  lemma LowerNext(s: Table, a: Table, i: nat, index: nat) returns (j: nat)
    requires Lower(s, a, i) && i < |s| && a[i].Full? && Searchable(s)
    requires Distinct(a) && |Used(a)| <= |s| && index < |a|
    ensures j == Landing(a, a[i].node, index)
    ensures Lower(s, Move(a, i, j), i + 1) && Distinct(Move(a, i, j)) && |Used(Move(a, i, j))| <= |s|
  {
    j := Landing(a, a[i].node, index);
    LandsSafely(a, i, index);
    LowerStep(s, a, i, j);
    StepConserves(a, i, index);
  }

  /** From the middle on, the pass keeps to the upper half. */
  lemma {:induction false} UpperPass(a: Table, n: nat, i: nat, r: nat, index: nat)
    requires Upper(a, n, i, r) && Distinct(a) && index < |a|
    ensures Upper(Relayout(a, i, 0, 1, index), n, |a|, r)
    decreases |a| - i
  {
    if i < |a| {
      if a[i].Full? {
        var j := UpperNext(a, n, i, r, index);
        UpperPass(Move(a, i, j), n, i + 1, r, j);
      } else {
        UpperSkips(a, n, i, r);
        UpperPass(a, n, i + 1, r, index);
      }
    }
  }

  /** The whole pass, from any slot of the lower half. */
  lemma {:induction false} LowerPass(s: Table, a: Table, i: nat, index: nat)
    requires |s| > 0 && Searchable(s) && Lower(s, a, i)
    requires Distinct(a) && |Used(a)| <= |s| && index < |a|
    ensures Searchable(Relayout(a, i, 0, 1, index))
    decreases |s| - i
  {
    if i == |s| {
      var r := HalfWay(s, a);
      UpperPass(a, |s|, i, r, index);
      UpperEnds(Relayout(a, i, 0, 1, index), |s|, r);
    } else if a[i].Full? {
      var j := LowerNext(s, a, i, index);
      LowerPass(s, Move(a, i, j), i + 1, j);
    } else {
      LowerPass(s, a, i + 1, index);
    }
  }

  ghost function Doubled(s: Table): (t: Table)
    requires |s| > 0
    ensures |t| == 2 * |s|
  {
    Relayout(s + Empties(|s|), 0, 0, 1, 0)
  }

  /**
    Doubling in place is correct for every good table, however full it is and however its keys
    collide: the result is good for twice the slots and holds the same nodes.
  */
  lemma DoublingKeepsGood(s: Table, hash: HashFunction)
    requires Good(s, hash)
    ensures Good(Doubled(s), hash)
    ensures NodesOf(Doubled(s)) == NodesOf(s) && KeysOf(Doubled(s)) == KeysOf(s)
    ensures |Used(Doubled(s))| == |Used(s)| <= |s|
  {
    var a := s + Empties(|s|);
    Appended(s);
    RoomOrFull(s);
    SameKeys(s, a, hash);
    LowerPass(s, a, 0, 0);
    RelayoutConserves(a, 0, 0, 1, 0);
    SameKeys(a, Doubled(s), hash);
  }

  lemma Appended(s: Table)
    ensures var a := s + Empties(|s|);
      Used(a) == Used(s) && NodesOf(a) == NodesOf(s) && (Distinct(s) ==> Distinct(a))
  {
    var a := s + Empties(|s|);
    assert forall i: nat | i < |a| :: a[i] == if i < |s| then s[i] else Empty;
    forall x
      ensures x in NodesOf(s) <==> x in NodesOf(a)
    {
      if x in NodesOf(s) {
        var k: nat :| k < |s| && s[k].Full? && s[k].node == x;
        assert a[k].node == x;
      }
    }
  }
}
