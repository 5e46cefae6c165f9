/**
  `__relayout_nodes` (set.c:311-324) as a function of the slot array, and what every run of it
  conserves, whatever the table looks like.
*/
module Relayouts {
  import opened CStrings
  import opened Tables

  /** What `__get_index` leaves in `*index`: untouched when it goes all the way around. */
  ghost function Landing(s: Table, x: Node, index: nat): (j: nat)
    requires index < |s|
    ensures j < |s|
  {
    match Probe(s, x)
    case Found(f) => f
    case Vacant(f) => f
    case Circular => index
  }

  /** The node in slot `i` is copied to slot `j`, then slot `i` is freed. */
  function Move(s: Table, i: nat, j: nat): (t: Table)
    requires i < |s| && j < |s|
    ensures |t| == |s|
    ensures forall f: nat | f < |s| :: t[f] == if i == j then s[f] else if f == i then Empty else if f == j then s[i] else s[f]
  {
    if i == j then s else s[j := s[i]][i := Empty]
  }

  /** The loop of `__relayout_nodes` from slot `i` on. */
  ghost function Relayout(s: Table, i: nat, start: nat, endOnNull: int, index: nat): (t: Table)
    requires index < |s| && i <= |s|
    ensures |t| == |s|
    decreases |s| - i
  {
    if i == |s| then s
    else if s[i].Full? then
      var j := Landing(s, s[i].node, index);
      Relayout(Move(s, i, j), i + 1, start, endOnNull, j)
    else if endOnNull == 0 && i != start then s
    else Relayout(s, i + 1, start, endOnNull, index)
  }

  /** The same nodes in as many slots, and still no key twice. */
  ghost predicate SameNodes(s: Table, t: Table) {
    |s| == |t| && NodesOf(s) == NodesOf(t) && |Used(s)| == |Used(t)| && (Distinct(s) ==> Distinct(t))
  }

  /**
    On any table, even one with a key twice, the probe for a stored node does not go all the way
    around, so `index` is never stale: it is the node's own slot, an empty one, or one with the same node.
  */
  lemma NeverStale(s: Table, i: nat, index: nat)
    requires index < |s| && i < |s| && s[i].Full?
    ensures !Probe(s, s[i].node).Circular?
    ensures var j := Landing(s, s[i].node, index);
            Stops(s, s[i].node, j) && (j == i || s[j].Empty? || s[j] == s[i])
  {
    var f := FirstStop(s, s[i].node, i);
    ProbeAt(s, s[i].node, f);
  }

  /** With distinct keys the node stays, or moves to an empty slot on its walk. */
  lemma LandsSafely(s: Table, i: nat, index: nat)
    requires index < |s| && i < |s| && s[i].Full? && Distinct(s)
    ensures !Probe(s, s[i].node).Circular?
    ensures var j := Landing(s, s[i].node, index); Stops(s, s[i].node, j) && (j == i || s[j].Empty?)
  {
    NeverStale(s, i, index);
  }

  /** Swapping a node with an empty slot conserves everything stored. */
  lemma MoveConserves(s: Table, i: nat, j: nat)
    requires i < |s| && j < |s| && s[i].Full? && (j == i || s[j].Empty?)
    ensures SameNodes(s, Move(s, i, j))
  {
    var t := Move(s, i, j);
    if i != j {
      assert Used(t) == Used(s) - {i} + {j};
      forall x
        ensures x in NodesOf(s) <==> x in NodesOf(t)
      {
        if x in NodesOf(s) {
          var k: nat :| k < |s| && s[k].Full? && s[k].node == x;
          assert t[if k == i then j else k].node == x;
        }
        if x in NodesOf(t) {
          var k: nat :| k < |t| && t[k].Full? && t[k].node == x;
          assert s[if k == j then i else k].node == x;
        }
      }
    }
  }

  /** One step of the loop conserves everything stored. */
  lemma StepConserves(s: Table, i: nat, index: nat)
    requires index < |s| && i < |s| && s[i].Full? && Distinct(s)
    ensures SameNodes(s, Move(s, i, Landing(s, s[i].node, index)))
  {
    LandsSafely(s, i, index);
    MoveConserves(s, i, Landing(s, s[i].node, index));
  }

  /** Conservation, for every table of distinct keys, reachable or not, and every way to run the loop. */
  lemma {:induction false} RelayoutConserves(s: Table, i: nat, start: nat, endOnNull: int, index: nat)
    requires index < |s| && i <= |s| && Distinct(s)
    ensures SameNodes(s, Relayout(s, i, start, endOnNull, index))
    decreases |s| - i
  {
    if i < |s| {
      if s[i].Full? {
        StepConserves(s, i, index);
        var j := Landing(s, s[i].node, index);
        RelayoutConserves(Move(s, i, j), i + 1, start, endOnNull, j);
      } else {
        RelayoutConserves(s, i + 1, start, endOnNull, index);
      }
    }
  }

  lemma MoveNeverAdds(s: Table, i: nat, j: nat)
    requires i < |s| && j < |s| && s[i].Full?
    ensures |Used(Move(s, i, j))| <= |Used(s)|
  {
    var rest := Used(s) - {i};
    assert |rest| == |Used(s)| - 1;
    if i != j {
      assert Used(Move(s, i, j)) == rest + {j};
    }
  }

  /** On any table re-layout uses no more slots than before; fewer, if it drops a duplicate. */
  lemma {:induction false} RelayoutNeverAdds(s: Table, i: nat, start: nat, endOnNull: int, index: nat)
    requires index < |s| && i <= |s|
    ensures |Used(Relayout(s, i, start, endOnNull, index))| <= |Used(s)|
    decreases |s| - i
  {
    if i < |s| {
      if s[i].Full? {
        var j := Landing(s, s[i].node, index);
        MoveNeverAdds(s, i, j);
        RelayoutNeverAdds(Move(s, i, j), i + 1, start, endOnNull, j);
      } else {
        RelayoutNeverAdds(s, i + 1, start, endOnNull, index);
      }
    }
  }

  /** The same nodes carry the same keys, with the same hashes. */
  lemma SameKeys(s: Table, t: Table, hash: HashFunction)
    requires NodesOf(s) == NodesOf(t)
    ensures KeysOf(s) == KeysOf(t)
    ensures Hashed(s, hash) ==> Hashed(t, hash)
  {
    KeysOfNodes(s);
    KeysOfNodes(t);
    forall i: nat | Hashed(s, hash) && i < |t| && t[i].Full?
      ensures t[i].node.hash == hash(t[i].node.key)
    {
      assert t[i].node in NodesOf(s);
    }
  }

  lemma KeysOfNodes(s: Table)
    ensures KeysOf(s) == set x | x in NodesOf(s) :: x.key
  {
  }
}
