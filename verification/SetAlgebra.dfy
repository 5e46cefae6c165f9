/**
  The operations on two sets (set.c:111-222): union, intersection, difference, symmetric
  difference, and the comparisons.
*/
module SetAlgebra {
  import opened CStrings
  import opened Tables
  import opened SetModel
  import opened Growth
  import opened SimpleSets

  const SET_RIGHT_GREATER := 3
  const SET_LEFT_GREATER := 1
  const SET_EQUAL := 0
  const SET_UNEQUAL := 2

  /**
    What the four operations ask of their arguments: all hash alike, and no two sets share an array.
    The result may be one of the inputs.
  */
  ghost predicate Operands(res: SimpleSet, s1: SimpleSet, s2: SimpleSet)
    reads res, s1, s2, res.nodes, s1.nodes, s2.nodes
  {
    && res.Valid() && s1.Valid() && s2.Valid()
    && (res == s1 || res.nodes != s1.nodes) && (res == s2 || res.nodes != s2.nodes)
    && res.hashFunction == s1.hashFunction == s2.hashFunction
  }

  /** What an input gives to the result: nothing, if it is the result, which was empty. */
  ghost function Given(res: SimpleSet, s: SimpleSet): seq<CString>
    reads s, s.nodes
  {
    if s == res then [] else Listing(s.nodes[..])
  }

  /** A set and one that takes keys of it, or the same one. */
  ghost predicate Feeds(s: SimpleSet, res: SimpleSet)
    reads s, res, s.nodes
  {
    s.Valid() && (s == res || s.nodes != res.nodes) && s.hashFunction == res.hashFunction
  }

  /** What the loop below has given to the result when it is at slot `i`; nothing, if it runs over the result. */
  ghost function Added(list: seq<CString>, m: Table, i: nat, own: bool): seq<CString>
    requires i <= |m|
  {
    if own then list else list + Listing(m[..i])
  }

  lemma AddedMore(list: seq<CString>, m: Table, i: nat, own: bool)
    requires i < |m|
    ensures Added(list, m, i + 1, own) ==
            if !own && m[i].Full? then Added(list, m, i, own) + [m[i].node.key] else Added(list, m, i, own)
  {
    ListingPrefix(m, i);
    assert Listing(m[..i]) + [] == Listing(m[..i]);
  }

  /** The loop below is at slot `i` of `s`, whose slots are `m`. */
  ghost predicate Adding(res: SimpleSet, s: SimpleSet, m: Table, i: nat, realloc: Allocator, n: nat, list: seq<CString>)
    reads res, s, res.nodes, s.nodes
  {
    Feeds(s, res) && s.nodes[..] == m && i <= |m| && res.Holds(n, Added(list, m, i, s == res), realloc)
  }

  /** One turn of the loop below. */
  method AddSlot(res: SimpleSet, s: SimpleSet, ghost m: Table, i: nat, realloc: Allocator, ghost n: nat, ghost list: seq<CString>)
    requires i < s.numberNodes && Adding(res, s, m, i, realloc, n, list)
    modifies res, res.nodes
    ensures res.nodes == old(res.nodes) || fresh(res.nodes)
    ensures Adding(res, s, m, i + 1, realloc, n, list)
  {
    AddedMore(list, m, i, s == res);
    if s.nodes[i].Full? {
      assert m[i].node.key in KeysOf(m);
      res.Gather(s.nodes[i].node.key, s.nodes[i].node.hash, realloc, n, Added(list, m, i, s == res));
    }
  }

  /** The loop of union, run for either input: add all that `s` has. */
  method AddAll(res: SimpleSet, s: SimpleSet, realloc: Allocator, ghost n: nat, ghost list: seq<CString>)
    requires Feeds(s, res) && res.Holds(n, list, realloc)
    modifies res, res.nodes
    ensures res.nodes == old(res.nodes) || fresh(res.nodes)
    ensures res.Holds(n, list + Given(res, s), realloc)
  {
    ghost var m := s.nodes[..];
    assert m[..0] == [] && list + [] == list;
    var i := 0;
    while i < s.numberNodes
      invariant res.nodes == old(res.nodes) || fresh(res.nodes)
      invariant Adding(res, s, m, i, realloc, n, list)
      decreases |m| - i
    {
      AddSlot(res, s, m, i, realloc, n, list);
      i := i + 1;
    }
    assert m[..i] == m;
  }

  /** The keys of a list that are in `k`, or are not, in order. */
  ghost function Select(list: seq<CString>, k: set<CString>, common: bool): seq<CString>
    decreases |list|
  {
    if list == [] then []
    else
      var m := |list| - 1;
      Select(list[..m], k, common) + (if common == (list[m] in k) then [list[m]] else [])
  }

  lemma {:induction false} ElementsOfSelect(list: seq<CString>, k: set<CString>, common: bool)
    ensures Elements(Select(list, k, common)) == if common then Elements(list) * k else Elements(list) - k
    decreases |list|
  {
    if list != [] {
      var m := |list| - 1;
      var front := Select(list[..m], k, common);
      ElementsOfSelect(list[..m], k, common);
      assert list == list[..m] + [list[m]];
      OneMoreElement(list[..m], list[m]);
      OneMoreElement(front, list[m]);
      assert front + [] == front;
    }
  }

  lemma SelectMore(list: seq<CString>, front: seq<CString>, key: CString, k: set<CString>, common: bool)
    ensures list + Select(front + [key], k, common) ==
            if common == (key in k) then list + Select(front, k, common) + [key] else list + Select(front, k, common)
  {
    assert (front + [key])[..|front|] == front;
    assert Select(front, k, common) + [] == Select(front, k, common);
  }

  /** A stored key is not among those selected from the slots before it. */
  lemma NotThereYet(m: Table, i: nat, common: bool, keys: set<CString>)
    requires i < |m| && m[i].Full? && Distinct(m)
    requires keys <= Elements([] + Select(Listing(m[..i]), {}, common))
    ensures m[i].node.key !in keys
  {
    KeyIsNew(m, i);
    ListingPerSlot(m[..i]);
    ElementsOfSelect(Listing(m[..i]), {}, common);
    assert [] + Select(Listing(m[..i]), {}, common) == Select(Listing(m[..i]), {}, common);
  }

  /** What the loop below has given to the result when it is at slot `i`; nothing, if it runs over the result. */
  ghost function Taken(list: seq<CString>, m: Table, i: nat, own: bool, k: set<CString>, common: bool): seq<CString>
    requires i <= |m|
  {
    if own then list else list + Select(Listing(m[..i]), k, common)
  }

  lemma TakenMore(list: seq<CString>, m: Table, i: nat, own: bool, k: set<CString>, common: bool)
    requires i < |m|
    ensures Taken(list, m, i + 1, own, k, common) ==
            if !own && m[i].Full? && common == (m[i].node.key in k)
            then Taken(list, m, i, own, k, common) + [m[i].node.key]
            else Taken(list, m, i, own, k, common)
  {
    ListingPrefix(m, i);
    if m[i].Full? {
      SelectMore(list, Listing(m[..i]), m[i].node.key, k, common);
    } else {
      assert Listing(m[..i]) + [] == Listing(m[..i]);
    }
  }

  lemma TakenNone(list: seq<CString>, m: Table, own: bool, k: set<CString>, common: bool)
    ensures Taken(list, m, 0, own, k, common) == list
  {
    assert m[..0] == [] && list + [] == list;
  }

  /** One turn of the loop below: the node in slot `i` of `s`, which is in `k` exactly if `other` has it. */
  method SelectNode(res: SimpleSet, s: SimpleSet, other: SimpleSet, i: nat, common: bool, realloc: Allocator,
                    ghost n: nat, ghost list: seq<CString>, ghost k: set<CString>)
    requires res.Holds(n, list, realloc) && Feeds(s, res) && Feeds(other, res)
    requires i < s.numberNodes && s.nodes[i].Full?
    requires s.nodes[i].node.key in k <==> s.nodes[i].node.key in other.Keys()
    modifies res, res.nodes
    ensures res.nodes == old(res.nodes) || fresh(res.nodes)
    ensures var key := old(s.nodes[i].node.key);
            && res.Holds(n, if common == (key in k) then list + [key] else list, realloc)
            && (common != (key in k) || key in old(res.Keys()) ==> res.nodes == old(res.nodes) && res.Model() == old(res.Model()))
  {
    var present := other.ContainsHashed(s.nodes[i].node.key, s.nodes[i].node.hash);
    if common == (present == SET_TRUE) {
      res.Gather(s.nodes[i].node.key, s.nodes[i].node.hash, realloc, n, list);
    }
  }

  /** Whether what `other` gives to the result is `k`: its keys, or nothing if it is the result, which was empty. */
  ghost predicate Gives(other: SimpleSet, res: SimpleSet, list: seq<CString>, k: set<CString>)
    reads other, other.nodes
  {
    if other == res then list == [] && k == {} else k == other.Keys()
  }

  /** The loop below is at slot `i` of `s`, whose slots are `m`. */
  ghost predicate Running(res: SimpleSet, s: SimpleSet, other: SimpleSet, m: Table, i: nat, common: bool, realloc: Allocator,
                          n: nat, list: seq<CString>, k: set<CString>)
    reads res, s, other, res.nodes, s.nodes, other.nodes
  {
    && Feeds(s, res) && Feeds(other, res) && Gives(other, res, list, k)
    && s.nodes[..] == m && i <= |m|
    && (s == res ==> forall key | key in KeysOf(m) :: common != (key in k))
    && res.Holds(n, Taken(list, m, i, s == res, k, common), realloc)
  }

  /** One turn of the loop below. */
  method SelectSlot(res: SimpleSet, s: SimpleSet, other: SimpleSet, ghost m: Table, i: nat, common: bool, realloc: Allocator,
                    ghost n: nat, ghost list: seq<CString>, ghost k: set<CString>)
    requires i < s.numberNodes && Running(res, s, other, m, i, common, realloc, n, list, k)
    modifies res, res.nodes
    ensures res.nodes == old(res.nodes) || fresh(res.nodes)
    ensures Running(res, s, other, m, i + 1, common, realloc, n, list, k)
  {
    TakenMore(list, m, i, s == res, k, common);
    if s.nodes[i].Full? {
      assert m[i].node.key in KeysOf(m);
      if other == res {
        NotThereYet(m, i, common, res.Keys());
      }
      SelectNode(res, s, other, i, common, realloc, n, Taken(list, m, i, s == res, k, common), k);
    }
  }

  /**
    The loop of the other operations: add what `s` has and `other` has as well, for intersection, or
    has not, for the differences.
  */
  method AddSelected(res: SimpleSet, s: SimpleSet, other: SimpleSet, common: bool, realloc: Allocator,
                     ghost n: nat, ghost list: seq<CString>, ghost k: set<CString>)
    requires Feeds(s, res) && Feeds(other, res) && res.Holds(n, list, realloc)
    requires Gives(other, res, list, k)
    requires s == res ==> forall key | key in res.Keys() :: common != (key in k)
    modifies res, res.nodes
    ensures res.nodes == old(res.nodes) || fresh(res.nodes)
    ensures res.Holds(n, list + Select(Given(res, s), k, common), realloc)
  {
    ghost var m := s.nodes[..];
    TakenNone(list, m, s == res, k, common);
    var i := 0;
    while i < s.numberNodes
      invariant res.nodes == old(res.nodes) || fresh(res.nodes)
      invariant Running(res, s, other, m, i, common, realloc, n, list, k)
      decreases |m| - i
    {
      SelectSlot(res, s, other, m, i, common, realloc, n, list, k);
      i := i + 1;
    }
    assert m[..i] == m && list + [] == list;
  }

  /**
    What every operation promises: the inputs are left alone, but for the result; an occupied result is
    refused, and left alone too; else SET_TRUE, whatever came of giving the keys of `list` to the result.
    Codes as in set.h.
  */
  twostate predicate Performed(res: SimpleSet, s1: SimpleSet, s2: SimpleSet, code: int,
                               wanted: set<CString>, list: seq<CString>, realloc: Allocator)
    reads res, s1, s2, res.nodes, s1.nodes, s2.nodes
  {
    && res.Valid() && (res.nodes == old(res.nodes) || fresh(res.nodes))
    && (s1 != res ==> unchanged(s1) && unchanged(s1.nodes))
    && (s2 != res ==> unchanged(s2) && unchanged(s2.nodes))
    && code == (if old(res.Keys()) != {} then -4 else 0)
    && (code == -4 ==> unchanged(res) && unchanged(res.nodes))
    && (code == 0 ==> Gathered(res.Model(), old(res.numberNodes), list, wanted, realloc))
  }

  /** An empty result can begin; what an input gives to it are the keys of the input. */
  lemma Begins(res: SimpleSet, s1: SimpleSet, s2: SimpleSet, realloc: Allocator)
    requires Operands(res, s1, s2) && res.Keys() == {}
    ensures Feeds(s1, res) && Feeds(s2, res) && res.Holds(res.numberNodes, [], realloc)
    ensures Elements(Given(res, s1)) == s1.Keys() && Elements(Given(res, s2)) == s2.Keys()
    ensures Gives(s1, res, [], s1.Keys()) && Gives(s2, res, [], s2.Keys())
  {
    ListingPerSlot(s1.nodes[..]);
    ListingPerSlot(s2.nodes[..]);
    EmptyGathers(res.Model(), res.hashFunction, realloc);
  }

  /** The two loops of the union. */
  method UnionLoops(res: SimpleSet, s1: SimpleSet, s2: SimpleSet, realloc: Allocator)
    requires Operands(res, s1, s2) && res.Keys() == {}
    modifies res, res.nodes
    ensures res.Valid() && (res.nodes == old(res.nodes) || fresh(res.nodes))
    ensures Gathered(res.Model(), old(res.numberNodes), old(Given(res, s1) + Given(res, s2)), old(s1.Keys()) + old(s2.Keys()), realloc)
  {
    ghost var n, k1, k2, l1, l2 := res.numberNodes, s1.Keys(), s2.Keys(), Given(res, s1), Given(res, s2);
    Begins(res, s1, s2, realloc);
    assert [] + l1 == l1;
    AddAll(res, s1, realloc, n, []);
    AddAll(res, s2, realloc, n, l1);
    ElementsOfTwo(l1, l2);
    GathersExactly(res.Model(), res.hashFunction, n, l1 + l2, realloc);
  }

  /** `set_union`. */
  method Union(res: SimpleSet, s1: SimpleSet, s2: SimpleSet, realloc: Allocator) returns (code: int)
    requires Operands(res, s1, s2)
    modifies res, res.nodes
    ensures Performed(res, s1, s2, code, old(s1.Keys()) + old(s2.Keys()), old(Given(res, s1) + Given(res, s2)), realloc)
  {
    KeyPerSlot(res.nodes[..]);
    if res.usedNodes != 0 {
      return SET_OCCUPIED_ERROR;
    }
    UnionLoops(res, s1, s2, realloc);
    return SET_TRUE;
  }

  /** The one loop of intersection and difference. */
  method OneLoop(res: SimpleSet, s1: SimpleSet, s2: SimpleSet, common: bool, realloc: Allocator)
    requires Operands(res, s1, s2) && res.Keys() == {}
    modifies res, res.nodes
    ensures res.Valid() && (res.nodes == old(res.nodes) || fresh(res.nodes))
    ensures var list := old(Select(Given(res, s1), s2.Keys(), common));
            && (common ==> Gathered(res.Model(), old(res.numberNodes), list, old(s1.Keys()) * old(s2.Keys()), realloc))
            && (!common ==> Gathered(res.Model(), old(res.numberNodes), list, old(s1.Keys()) - old(s2.Keys()), realloc))
  {
    ghost var n, k1, k2, l1, l2 := res.numberNodes, s1.Keys(), s2.Keys(), Given(res, s1), Given(res, s2);
    Begins(res, s1, s2, realloc);
    NothingBefore(l1, k2, common);
    AddSelected(res, s1, s2, common, realloc, n, [], k2);
    SelectGathered(res.Model(), res.hashFunction, n, l1, k1, k2, common, realloc);
  }

  /** `set_intersection`. */
  method Intersection(res: SimpleSet, s1: SimpleSet, s2: SimpleSet, realloc: Allocator) returns (code: int)
    requires Operands(res, s1, s2)
    modifies res, res.nodes
    ensures Performed(res, s1, s2, code, old(s1.Keys()) * old(s2.Keys()), old(Select(Given(res, s1), s2.Keys(), true)), realloc)
  {
    KeyPerSlot(res.nodes[..]);
    if res.usedNodes != 0 {
      return SET_OCCUPIED_ERROR;
    }
    OneLoop(res, s1, s2, true, realloc);
    return SET_TRUE;
  }

  /** `set_difference`. */
  method Difference(res: SimpleSet, s1: SimpleSet, s2: SimpleSet, realloc: Allocator) returns (code: int)
    requires Operands(res, s1, s2)
    modifies res, res.nodes
    ensures Performed(res, s1, s2, code, old(s1.Keys()) - old(s2.Keys()), old(Select(Given(res, s1), s2.Keys(), false)), realloc)
  {
    KeyPerSlot(res.nodes[..]);
    if res.usedNodes != 0 {
      return SET_OCCUPIED_ERROR;
    }
    OneLoop(res, s1, s2, false, realloc);
    return SET_TRUE;
  }

  /** The two loops of the symmetric difference. */
  method EitherWayLoops(res: SimpleSet, s1: SimpleSet, s2: SimpleSet, realloc: Allocator)
    requires Operands(res, s1, s2) && res.Keys() == {}
    modifies res, res.nodes
    ensures res.Valid() && (res.nodes == old(res.nodes) || fresh(res.nodes))
    ensures Gathered(res.Model(), old(res.numberNodes), old(Select(Given(res, s1), s2.Keys(), false) + Select(Given(res, s2), s1.Keys(), false)), (old(s1.Keys()) + old(s2.Keys())) - old(s1.Keys()) * old(s2.Keys()), realloc)
  {
    ghost var n, k1, k2, l1, l2 := res.numberNodes, s1.Keys(), s2.Keys(), Given(res, s1), Given(res, s2);
    Begins(res, s1, s2, realloc);
    FirstOfTwo(res, s1, s2, realloc, n);
    AddSelected(res, s2, s1, false, realloc, n, Select(l1, k2, false), k1);
    EitherWayGathered(res.Model(), res.hashFunction, n, l1, l2, k1, k2, realloc);
  }

  /** The first of them, and that the second can follow. */
  method FirstOfTwo(res: SimpleSet, s1: SimpleSet, s2: SimpleSet, realloc: Allocator, ghost n: nat)
    requires Feeds(s1, res) && Feeds(s2, res) && Gives(s2, res, [], s2.Keys())
    requires res.Keys() == {} && res.Holds(n, [], realloc) && Elements(Given(res, s1)) == s1.Keys()
    modifies res, res.nodes
    ensures res.nodes == old(res.nodes) || fresh(res.nodes)
    ensures Feeds(s1, res) && Feeds(s2, res) && res.Keys() <= old(s1.Keys())
    ensures var list := old(Select(Given(res, s1), s2.Keys(), false));
            res.Holds(n, list, realloc) && Gives(s1, res, list, old(s1.Keys()))
  {
    NothingBefore(Given(res, s1), s2.Keys(), false);
    ElementsOfSelect(Given(res, s1), s2.Keys(), false);
    AddSelected(res, s1, s2, false, realloc, n, [], s2.Keys());
  }

  /** `set_symmetric_difference`. */
  method SymmetricDifference(res: SimpleSet, s1: SimpleSet, s2: SimpleSet, realloc: Allocator) returns (code: int)
    requires Operands(res, s1, s2)
    modifies res, res.nodes
    ensures Performed(res, s1, s2, code, (old(s1.Keys()) + old(s2.Keys())) - old(s1.Keys()) * old(s2.Keys()), old(Select(Given(res, s1), s2.Keys(), false) + Select(Given(res, s2), s1.Keys(), false)), realloc)
  {
    KeyPerSlot(res.nodes[..]);
    if res.usedNodes != 0 {
      return SET_OCCUPIED_ERROR;
    }
    EitherWayLoops(res, s1, s2, realloc);
    return SET_TRUE;
  }

  lemma NothingBefore(list: seq<CString>, k: set<CString>, common: bool)
    ensures [] + Select(list, k, common) == Select(list, k, common)
  {
  }

  lemma ElementsOfTwo(l1: seq<CString>, l2: seq<CString>)
    ensures Elements(l1 + l2) == Elements(l1) + Elements(l2)
  {
  }

  lemma SelectGathered(t: State, hash: HashFunction, n: nat, l1: seq<CString>, k1: set<CString>, k2: set<CString>,
                       common: bool, realloc: Allocator)
    requires Elements(l1) == k1 && Gathers(t, hash, n, Select(l1, k2, common), realloc)
    ensures Gathered(t, n, Select(l1, k2, common), if common then k1 * k2 else k1 - k2, realloc)
  {
    ElementsOfSelect(l1, k2, common);
    GathersExactly(t, hash, n, Select(l1, k2, common), realloc);
  }

  lemma EitherWayGathered(t: State, hash: HashFunction, n: nat, l1: seq<CString>, l2: seq<CString>,
                          k1: set<CString>, k2: set<CString>, realloc: Allocator)
    requires Elements(l1) == k1 && Elements(l2) == k2
    requires Gathers(t, hash, n, Select(l1, k2, false) + Select(l2, k1, false), realloc)
    ensures Gathered(t, n, Select(l1, k2, false) + Select(l2, k1, false), (k1 + k2) - k1 * k2, realloc)
  {
    ElementsOfSelect(l1, k2, false);
    ElementsOfSelect(l2, k1, false);
    ElementsOfTwo(Select(l1, k2, false), Select(l2, k1, false));
    assert (k1 - k2) + (k2 - k1) == (k1 + k2) - k1 * k2;
    GathersExactly(t, hash, n, Select(l1, k2, false) + Select(l2, k1, false), realloc);
  }

  // ---- Comparison ----

  /**
    `set_is_subset` says yes exactly when `test` is a subset or `against` is full: a full set
    answers SET_CIRCULAR_ERROR for an absent key, which the loop does not take for a no. Against a
    set within the load bound it is exact.
  */
  method IsSubset(test: SimpleSet, against: SimpleSet) returns (code: int)
    requires test.Valid() && against.Valid() && test.hashFunction == against.hashFunction
    ensures code == SET_TRUE || code == SET_FALSE
    ensures code == SET_TRUE <==> test.Keys() <= against.Keys() || against.usedNodes == against.numberNodes
    ensures Roomy(against.Model(), against.hashFunction) ==> (code == SET_TRUE <==> test.Keys() <= against.Keys())
  {
    ghost var n := test.nodes[..];
    for i := 0 to test.numberNodes
      invariant KeysOf(n[..i]) <= against.Keys() || against.usedNodes == against.numberNodes
    {
      OneMore(n, i);
      if test.nodes[i].Full? {
        var present := against.ContainsHashed(test.nodes[i].node.key, test.nodes[i].node.hash);
        if present == SET_FALSE {
          assert test.nodes[i].node.key in test.Keys();
          return SET_FALSE;
        }
      }
    }
    assert n[..test.numberNodes] == n;
    return SET_TRUE;
  }

  /** `set_is_superset`. */
  method IsSuperset(test: SimpleSet, against: SimpleSet) returns (code: int)
    requires test.Valid() && against.Valid() && test.hashFunction == against.hashFunction
    ensures code == SET_TRUE || code == SET_FALSE
    ensures code == SET_TRUE <==> against.Keys() <= test.Keys() || test.usedNodes == test.numberNodes
    ensures Roomy(test.Model(), test.hashFunction) ==> (code == SET_TRUE <==> against.Keys() <= test.Keys())
  {
    code := IsSubset(against, test);
  }

  /** `set_is_subset_strict`: sizes decide properness, so the keys are compared one way only. */
  method IsSubsetStrict(test: SimpleSet, against: SimpleSet) returns (code: int)
    requires test.Valid() && against.Valid() && test.hashFunction == against.hashFunction
    ensures code == SET_TRUE || code == SET_FALSE
    ensures code == SET_TRUE <==>
              || test.Keys() < against.Keys()
              || (against.usedNodes == against.numberNodes && |test.Keys()| < |against.Keys()|)
    ensures Roomy(against.Model(), against.hashFunction) ==> (code == SET_TRUE <==> test.Keys() < against.Keys())
  {
    KeyPerSlot(test.nodes[..]);
    KeyPerSlot(against.nodes[..]);
    ProperIsSmaller(test.Keys(), against.Keys());
    if test.usedNodes >= against.usedNodes {
      return SET_FALSE;
    }
    code := IsSubset(test, against);
  }

  /** `set_is_superset_strict`. */
  method IsSupersetStrict(test: SimpleSet, against: SimpleSet) returns (code: int)
    requires test.Valid() && against.Valid() && test.hashFunction == against.hashFunction
    ensures code == SET_TRUE || code == SET_FALSE
    ensures code == SET_TRUE <==>
              || against.Keys() < test.Keys()
              || (test.usedNodes == test.numberNodes && |against.Keys()| < |test.Keys()|)
    ensures Roomy(test.Model(), test.hashFunction) ==> (code == SET_TRUE <==> against.Keys() < test.Keys())
  {
    code := IsSubsetStrict(against, test);
  }

  /** Among subsets, the proper ones are the smaller ones. */
  lemma ProperIsSmaller<T>(a: set<T>, b: set<T>)
    ensures a < b <==> a <= b && |a| < |b|
  {
    if a <= b {
      CardinalityOfSubset(a, b);
      if b <= a {
        assert a == b;
      }
    }
  }

  /** `set_cmp`: exact in all four answers, although it looks up the keys of one side only; codes as in set.h. */
  method Compare(left: SimpleSet, right: SimpleSet) returns (code: int)
    requires left.Valid() && right.Valid()
    ensures code == 0 <==> left.Keys() == right.Keys()
    ensures code == 3 <==> |left.Keys()| < |right.Keys()|
    ensures code == 1 <==> |right.Keys()| < |left.Keys()|
    ensures code == 2 <==> |left.Keys()| == |right.Keys()| && left.Keys() != right.Keys()
  {
    KeyPerSlot(left.nodes[..]);
    KeyPerSlot(right.nodes[..]);
    if left.usedNodes < right.usedNodes {
      return SET_RIGHT_GREATER;
    } else if right.usedNodes < left.usedNodes {
      return SET_LEFT_GREATER;
    }
    ghost var n := left.nodes[..];
    for i := 0 to left.numberNodes
      invariant KeysOf(n[..i]) <= right.Keys()
    {
      OneMore(n, i);
      if left.nodes[i].Full? {
        var present := right.Contains(left.nodes[i].node.key);
        if present != SET_TRUE {
          assert left.nodes[i].node.key in left.Keys();
          return SET_UNEQUAL;
        }
      }
    }
    assert n[..left.numberNodes] == n;
    CardinalityOfSubset(left.Keys(), right.Keys());
    return SET_EQUAL;
  }
}
