/**
  Calls that do not do what set.h says, made on the class: one each for the set operations without
  memory and for the subset tests against a full set.
*/
module Shortfalls {
  import opened Options
  import opened CStrings
  import opened SetModel
  import opened Growth
  import opened SimpleSets
  import opened SetAlgebra

  /** A new set of one key. */
  method SetOfOne(n: nat, k: CString, hash: HashFunction, realloc: Allocator) returns (s: SimpleSet)
    requires 0 < n && 8 * n < TWO_64
    ensures fresh(s) && fresh(s.nodes) && s.hashFunction == hash
    ensures s.Valid() && s.Keys() == {k} && s.usedNodes == 1 && s.numberNodes == n
  {
    s := new SimpleSet(n, Some(hash));
    var _ := s.AddKey(k, realloc);
  }

  /** A new set of two keys; from one slot, it grows to two. */
  method SetOfTwo(n: nat, k1: CString, k2: CString, hash: HashFunction, realloc: Allocator) returns (s: SimpleSet)
    requires 0 < n && 8 * n < TWO_64 && k1 != k2 && (n < 4 ==> realloc(2 * n))
    ensures fresh(s) && fresh(s.nodes) && s.hashFunction == hash
    ensures s.Valid() && s.Keys() == {k1, k2} && s.usedNodes == 2 && s.numberNodes == if n < 4 then 2 * n else n
  {
    s := SetOfOne(n, k1, hash, realloc);
    var _ := s.AddKey(k2, realloc);
  }

  lemma TwoKeys(k1: CString, k2: CString)
    requires k1 != k2
    ensures |{k1, k2}| == 2
  {
  }

  /** Two keys into a set of one slot that cannot grow. */
  method UnionIntoOneSlot(s1: SimpleSet, never: Allocator) returns (code: int, res: SimpleSet)
    requires s1.Valid() && |s1.Keys()| == 2 && forall n: nat :: !never(n)
    ensures code == SET_TRUE && fresh(res) && res.Valid() && res.Keys() < s1.Keys()
  {
    res := new SimpleSet(1, Some(s1.hashFunction));
    EnoughWithoutMemory(1, 2, never);
    assert s1.Keys() + s1.Keys() == s1.Keys();
    code := Union(res, s1, s1, never);
  }

  /** A union answers SET_TRUE with a key missing. */
  method UnionMissesAKey(k1: CString, k2: CString, hash: HashFunction) returns (code: int, res: SimpleSet, s1: SimpleSet)
    requires k1 != k2
    ensures s1.Valid() && s1.Keys() == {k1, k2}
    ensures code == SET_TRUE && res.Valid() && res.Keys() < s1.Keys()
  {
    var never: Allocator := (n: nat) => false;
    s1 := SetOfTwo(4, k1, k2, hash, never);
    TwoKeys(k1, k2);
    code, res := UnionIntoOneSlot(s1, never);
  }

  /** A set passes for a subset of a full set that does not have its key. */
  method SubsetOfAFullSet(k1: CString, k2: CString, hash: HashFunction) returns (code: int, test: SimpleSet, against: SimpleSet)
    requires k1 != k2
    ensures test.Valid() && test.Keys() == {k2} && against.Valid() && against.Keys() == {k1}
    ensures code == SET_TRUE
  {
    var never: Allocator := (n: nat) => false;
    against := SetOfOne(1, k1, hash, never);
    test := SetOfOne(4, k2, hash, never);
    code := IsSubset(test, against);
  }

  /** And for a strict one, if the full set, which grew from one slot to two, has more keys. */
  method StrictSubsetOfAFullSet(k1: CString, k2: CString, k3: CString, hash: HashFunction, realloc: Allocator)
    returns (code: int, test: SimpleSet, against: SimpleSet)
    requires k1 != k2 && k1 != k3 && k2 != k3 && realloc(2)
    ensures test.Valid() && test.Keys() == {k3} && against.Valid() && against.Keys() == {k1, k2}
    ensures code == SET_TRUE
  {
    against := SetOfTwo(1, k1, k2, hash, realloc);
    test := SetOfOne(4, k3, hash, realloc);
    assert |{k3}| == 1 && |{k1, k2}| == 2;
    code := IsSubsetStrict(test, against);
  }
}
