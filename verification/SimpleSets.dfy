/**
  The mutable set of set.c and set.h. Every method is proved to do to the slot array what the
  function of the same purpose in `SetModel` says, in any state, and, from a valid state, to do what
  set.h promises.
*/
module SimpleSets {
  import opened Options
  import opened CStrings
  import opened Tables
  import opened Relayouts
  import opened Doubling
  import opened SetModel
  import opened Growth
  import opened DefaultHashes

  /** The hash function of a set that is given `hash`, or a null pointer. */
  function Chosen(hash: Option<HashFunction>): HashFunction {
    if hash.None? then DefaultHash else hash.value
  }

  class SimpleSet {
    var nodes: array<Slot>
    var numberNodes: nat
    var usedNodes: int
    const hashFunction: HashFunction

    /** `nodes` has `number_nodes` entries, and at least one. */
    ghost predicate Allocated()
      reads this
    {
      nodes.Length == numberNodes > 0
    }

    ghost function Model(): State
      reads this, nodes
    {
      State(nodes[..], usedNodes)
    }

    ghost predicate Valid()
      reads this, nodes
    {
      Allocated() && SetModel.Valid(Model(), hashFunction)
    }

    ghost function Keys(): set<CString>
      reads this, nodes
    {
      SetModel.Keys(Model())
    }

    /** `Gathers`, of this set. */
    ghost predicate Holds(n: nat, list: seq<CString>, realloc: Allocator)
      reads this, nodes
    {
      Allocated() && Gathers(Model(), hashFunction, n, list, realloc)
    }

    /** `set_init_alt`, the memory for `numEls` pointers having been given; no hash function means the default one. */
    constructor (numEls: nat, hash: Option<HashFunction>)
      requires 0 < numEls && 8 * numEls < TWO_64
      ensures Valid() && fresh(nodes) && hashFunction == Chosen(hash)
      ensures Model() == Init(numEls) && Keys() == {}
    {
      nodes := new Slot[numEls];
      numberNodes := numEls;
      usedNodes := 0;
      hashFunction := Chosen(hash);
      new;
      for i := 0 to numEls
        invariant Allocated() && fresh(nodes) && numberNodes == numEls && usedNodes == 0
        invariant forall j: nat | j < i :: nodes[j] == Empty
      {
        nodes[i] := Empty;
      }
      assert nodes[..] == Empties(numEls);
      InitIsEmpty(numEls, hashFunction);
    }

    /** `set_clear`. */
    method Clear() returns (code: int)
      requires Allocated()
      modifies this, nodes
      ensures Allocated() && nodes == old(nodes) && code == SET_TRUE
      ensures Model() == SetModel.Clear(old(Model()))
      ensures Valid() && Keys() == {}
    {
      for i := 0 to numberNodes
        invariant Allocated() && nodes == old(nodes) && numberNodes == old(numberNodes)
        invariant forall j: nat | j < i :: nodes[j] == Empty
      {
        if nodes[i].Full? {
          nodes[i] := Empty;
        }
      }
      usedNodes := 0;
      assert nodes[..] == Empties(numberNodes);
      InitIsEmpty(numberNodes, hashFunction);
      return SET_TRUE;
    }

    /** `__get_index`: the probe loop. `index` is what the caller's variable holds before the call. */
    method GetIndex(key: CString, hash: Hash, index: nat) returns (code: int, at: nat)
      requires Allocated() && index < numberNodes
      ensures code == CodeOf(Probe(nodes[..], Node(key, hash)))
      ensures at == Landing(nodes[..], Node(key, hash), index)
      ensures code == SET_TRUE || code == SET_FALSE ==>
                exists d: nat :: d < numberNodes && at == (hash % numberNodes + d) % numberNodes && StopsAfter(nodes[..], Node(key, hash), d)
      ensures code == SET_TRUE ==> at < numberNodes && nodes[at] == Full(Node(key, hash))
      ensures code == SET_FALSE ==> at < numberNodes && nodes[at] == Empty
      ensures code == SET_CIRCULAR_ERROR ==> at == index && forall c: nat | c < numberNodes :: nodes[c].Full? && nodes[c].node != Node(key, hash)
    {
      ghost var s, x := nodes[..], Node(key, hash);
      var idx := hash % numberNodes;
      var i: nat := idx;
      while true
        invariant i < numberNodes
        invariant forall c: nat | c < |s| && Passes(idx, i, c) :: s[c].Full? && s[c].node != x
        decreases numberNodes - Distance(idx, i, numberNodes)
      {
        if nodes[i].Empty? {
          ProbeAt(s, x, i);
          StopsIsWalk(s, x, i);
          return SET_FALSE, i;
        } else if hash == nodes[i].node.hash && key == nodes[i].node.key {
          ProbeAt(s, x, i);
          StopsIsWalk(s, x, i);
          return SET_TRUE, i;
        }
        i := i + 1;
        if i == numberNodes {
          i := 0;
        }
        if i == idx {
          assert forall c: nat | c < |s| :: s[c].Full? && s[c].node != x;
          return SET_CIRCULAR_ERROR, index;
        }
      }
    }

    /** `__relayout_nodes`. */
    method RelayoutNodes(start: nat, endOnNull: int)
      requires Allocated() && start <= numberNodes
      modifies nodes
      ensures nodes[..] == Relayout(old(nodes[..]), start, start, endOnNull, 0)
    {
      var index: nat, i: nat := 0, start;
      while i < numberNodes
        invariant start <= i <= numberNodes && index < numberNodes
        invariant Relayout(nodes[..], i, start, endOnNull, index) == Relayout(old(nodes[..]), start, start, endOnNull, 0)
      {
        ghost var s := nodes[..];
        if nodes[i].Full? {
          var _, at := GetIndex(nodes[i].node.key, nodes[i].node.hash, index);
          index := at;
          if i != index {
            nodes[index] := nodes[i];
            nodes[i] := Empty;
          }
          assert nodes[..] == Move(s, i, index);
        } else if endOnNull == 0 && i != start {
          break;
        }
        i := i + 1;
      }
    }

    /** `set_contains`. */
    method Contains(key: CString) returns (code: int)
      requires Allocated()
      ensures code == CodeOf(Probe(nodes[..], Node(key, hashFunction(key))))
      ensures Valid() ==> (code == SET_TRUE <==> key in Keys())
      ensures Valid() ==> (code == SET_FALSE <==> key !in Keys() && usedNodes < numberNodes)
      ensures Valid() ==> (code == SET_CIRCULAR_ERROR <==> key !in Keys() && usedNodes == numberNodes)
    {
      code := ContainsHashed(key, hashFunction(key));
    }

    /** `__set_contains`. */
    method ContainsHashed(key: CString, hash: Hash) returns (code: int)
      requires Allocated()
      ensures code == CodeOf(Probe(nodes[..], Node(key, hash)))
      ensures Valid() && hash == hashFunction(key) ==> (code == SET_TRUE <==> key in Keys())
      ensures Valid() && hash == hashFunction(key) ==> (code == SET_FALSE <==> key !in Keys() && usedNodes < numberNodes)
      ensures Valid() && hash == hashFunction(key) ==> (code == SET_CIRCULAR_ERROR <==> key !in Keys() && usedNodes == numberNodes)
    {
      var index;
      code, index := GetIndex(key, hash, 0);
      if Valid() && hash == hashFunction(key) {
        ContainsIsMembership(Model(), hashFunction, key);
      }
    }

    /** The growing of `nodes` in `__set_add`: twice the slots, laid out anew in place. */
    method Grow()
      requires Allocated() && 8 * (2 * numberNodes) < TWO_64
      modifies this, nodes
      ensures Allocated() && fresh(nodes) && usedNodes == old(usedNodes)
      ensures nodes[..] == Doubled(old(nodes[..]))
    {
      var numEls := numberNodes * 2;
      var tmp := new Slot[numEls];
      forall i | 0 <= i < numberNodes {
        tmp[i] := nodes[i];
      }
      var origNumEls := numberNodes;
      nodes := tmp;
      for i := origNumEls to numEls
        invariant nodes == tmp && numberNodes == origNumEls && usedNodes == old(usedNodes)
        invariant forall j: nat | j < origNumEls :: nodes[j] == old(nodes[..])[j]
        invariant forall j: nat | origNumEls <= j < i :: nodes[j] == Empty
      {
        nodes[i] := Empty;
      }
      assert nodes[..] == old(nodes[..]) + Empties(origNumEls);
      numberNodes := numEls;
      RelayoutNodes(0, 1);
    }

    /** The last part of `__set_add`: the key goes to the first empty slot on its walk. */
    method PutNode(key: CString, hash: Hash) returns (code: int)
      requires Allocated()
      modifies this, nodes
      ensures Allocated() && nodes == old(nodes)
      ensures var p, t := old(Probe(nodes[..], Node(key, hash))), old(Model());
              && code == (if p.Vacant? then SET_TRUE else CodeOf(p))
              && Model() == if p.Vacant? then State(t.slots[p.at := Full(Node(key, hash))], t.used + 1) else t
    {
      var res, index := GetIndex(key, hash, 0);
      if res == SET_FALSE {
        nodes[index] := Full(Node(key, hash));
        usedNodes := usedNodes + 1;
        return SET_TRUE;
      }
      return res;
    }

    /** `__set_add`. */
    method AddHashed(key: CString, hash: Hash, realloc: Allocator) returns (code: int)
      requires Allocated()
      modifies this, nodes
      ensures Allocated() && (nodes == old(nodes) || fresh(nodes))
      ensures code == SET_ALREADY_PRESENT ==> nodes == old(nodes)
      ensures (Model(), code) == Add(old(Model()), Node(key, hash), realloc(2 * old(numberNodes)))
    {
      var present := ContainsHashed(key, hash);
      if present == SET_TRUE {
        return SET_ALREADY_PRESENT;
      }
      if Crowded(usedNodes, numberNodes) {
        if !realloc(numberNodes * 2) {
          return SET_MALLOC_ERROR;
        }
        Grow();
      }
      code := PutNode(key, hash);
    }

    /** `set_add`. */
    method AddKey(key: CString, realloc: Allocator) returns (code: int)
      requires Allocated()
      modifies this, nodes
      ensures Allocated() && (nodes == old(nodes) || fresh(nodes))
      ensures (Model(), code) == Step(old(Model()), OpAdd(key, realloc(2 * old(numberNodes))), hashFunction)
      ensures old(Valid()) ==>
                && Valid()
                && (code == SET_ALREADY_PRESENT <==> key in old(Keys()))
                && (code == SET_MALLOC_ERROR <==> key !in old(Keys()) && Crowded(old(usedNodes), old(numberNodes)) && !realloc(2 * old(numberNodes)))
                && (code == SET_ALREADY_PRESENT || code == SET_MALLOC_ERROR || code == SET_TRUE)
                && Keys() == old(Keys()) + (if code == SET_MALLOC_ERROR then {} else {key})
                && usedNodes == old(usedNodes) + (if code == SET_TRUE then 1 else 0)
                && numberNodes == (if code == SET_TRUE && Crowded(old(usedNodes), old(numberNodes)) then 2 else 1) * old(numberNodes)
    {
      if Valid() {
        AddIsInsertion(Model(), hashFunction, key, realloc(2 * numberNodes));
      }
      code := AddHashed(key, hashFunction(key), realloc);
    }

    /** `__set_add` of one more of the keys that the set gathers, by a caller that ignores the code. */
    method Gather(key: CString, hash: Hash, realloc: Allocator, ghost n: nat, ghost list: seq<CString>)
      requires Holds(n, list, realloc) && hash == hashFunction(key)
      modifies this, nodes
      ensures nodes == old(nodes) || fresh(nodes)
      ensures Holds(n, list + [key], realloc)
      ensures key in old(Keys()) ==> nodes == old(nodes) && Model() == old(Model())
    {
      AddGathers(Model(), hashFunction, n, list, realloc, key);
      AddIsInsertion(Model(), hashFunction, key, realloc(2 * numberNodes));
      var _ := AddHashed(key, hash, realloc);
    }

    /** `set_remove`. */
    method RemoveKey(key: CString) returns (code: int)
      requires Allocated()
      modifies this, nodes
      ensures Allocated() && nodes == old(nodes)
      ensures (Model(), code) == Step(old(Model()), OpRemove(key), hashFunction)
      ensures old(Valid()) ==>
                && (code == SET_TRUE <==> key in old(Keys()))
                && Keys() == old(Keys()) - {key} && usedNodes == |Keys()|
                && (Valid() <==> old(SafeToRemove(Model(), Node(key, hashFunction(key)))))
    {
      if Valid() {
        RemoveIsDifference(Model(), hashFunction, key);
        KeyPerSlot(nodes[..]);
      }
      var pos, index := GetIndex(key, hashFunction(key), 0);
      if pos != SET_TRUE {
        return pos;
      }
      ghost var s := nodes[..];
      nodes[index] := Empty;
      assert nodes[..] == s[index := Empty];
      RelayoutNodes(index, 0);
      usedNodes := usedNodes - 1;
      return SET_TRUE;
    }

    /** `set_length`. */
    method Length() returns (n: int)
      ensures n == usedNodes
      ensures Valid() ==> n == |Keys()|
    {
      if Valid() {
        KeyPerSlot(nodes[..]);
      }
      n := usedNodes;
    }

    /** `set_to_array`: the keys in slot order, and a null pointer behind them. */
    method ToArray() returns (results: array<Option<CString>>, size: int)
      requires Valid()
      ensures fresh(results) && size == usedNodes && results.Length == size + 1
      ensures results[size] == None && size == |Listing(nodes[..])|
      ensures forall j: nat | j < size :: results[j] == Some(Listing(nodes[..])[j])
    {
      size := usedNodes;
      results := new Option<CString>[size + 1](_ => None);
      var j := 0;
      ghost var s := nodes[..];
      ListingPerSlot(s);
      for i := 0 to numberNodes
        invariant fresh(results) && j == |Listing(s[..i])|
        invariant Listing(s[..i]) <= Listing(s)
        invariant forall m: nat | m < j :: results[m] == Some(Listing(s)[m])
        invariant forall m: nat | j <= m < results.Length :: results[m] == None
      {
        ListingPrefix(s, i);
        if nodes[i].Full? {
          results[j] := Some(nodes[i].node.key);
          j := j + 1;
        }
      }
      assert s[..numberNodes] == s;
    }
  }

  // ---- Enumeration ----

  /** The stored keys, in slot order. */
  ghost function Listing(s: Table): (keys: seq<CString>)
    decreases |s|
  {
    if s == [] then []
    else
      var m := |s| - 1;
      Listing(s[..m]) + (if s[m].Full? then [s[m].node.key] else [])
  }

  lemma {:induction false} ListingPrefix(s: Table, i: nat, n: nat := |s|)
    requires i < n <= |s|
    ensures Listing(s[..i + 1]) == Listing(s[..i]) + (if s[i].Full? then [s[i].node.key] else [])
    ensures Listing(s[..i + 1]) <= Listing(s[..n])
    ensures s[..|s|] == s
    decreases n
  {
    assert s[..i + 1][..i] == s[..i];
    if i + 1 < n {
      ListingPrefix(s, i, n - 1);
      assert s[..n][..n - 1] == s[..n - 1];
    }
  }

  lemma {:induction false} ListingPerSlot(s: Table)
    ensures |Listing(s)| == |Used(s)|
    ensures forall key :: key in Listing(s) <==> key in KeysOf(s)
    decreases |s|
  {
    if s == [] {
      assert Used(s) == {};
    } else {
      var m := |s| - 1;
      ListingPerSlot(s[..m]);
      OneMore(s, m);
      assert s[..m + 1] == s;
      assert m !in Used(s[..m]);
    }
  }

  /** A stored key is listed behind the keys in the slots before its own. */
  lemma ListingPlace(s: Table, i: nat)
    requires i < |s| && s[i].Full?
    ensures |Used(s[..i])| < |Listing(s)| && Listing(s)[|Used(s[..i])|] == s[i].node.key
  {
    ListingPerSlot(s[..i]);
    ListingPrefix(s, i);
    assert Listing(s[..i + 1])[|Listing(s[..i])|] == s[i].node.key;
  }

  /** The listing has each stored key exactly once. */
  lemma ListingIsKeys(s: Table)
    requires Distinct(s)
    ensures |Listing(s)| == |KeysOf(s)|
    ensures forall key :: key in Listing(s) <==> key in KeysOf(s)
    ensures forall i: nat, j: nat | i < |Listing(s)| && j < |Listing(s)| && Listing(s)[i] == Listing(s)[j] :: i == j
  {
    ListingPerSlot(s);
    KeyPerSlot(s);
    NoRepeats(Listing(s), KeysOf(s));
  }

  /** A list as long as its set of elements repeats none. */
  lemma {:induction false} NoRepeats<T>(list: seq<T>, all: set<T>)
    requires forall x :: x in list <==> x in all
    ensures |all| <= |list|
    ensures |all| == |list| ==> forall i: nat, j: nat | i < |list| && j < |list| && list[i] == list[j] :: i == j
    decreases |list|
  {
    if list == [] {
      assert all == {};
    } else {
      var m := |list| - 1;
      var front, x := list[..m], list[m];
      assert list == front + [x];
      if x in front {
        assert forall y :: y in front <==> y in all;
        NoRepeats(front, all);
      } else {
        assert forall y :: y in front <==> y in all - {x};
        NoRepeats(front, all - {x});
        forall i: nat, j: nat | |all| == |list| && i < |list| && j < |list| && list[i] == list[j]
          ensures i == j
        {
          assert i < m ==> front[i] == list[i];
          assert j < m ==> front[j] == list[j];
        }
      }
    }
  }
}
