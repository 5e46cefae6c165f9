/**
  How a set that begins empty grows (set.c:249-264), and what memory it asks for on the way.
*/
module Growth {
  import opened CStrings
  import opened Tables
  import opened SetModel

  /** Whether `realloc` would give an array of so many pointers; a size_t counts its bytes. */
  type Allocator = a: nat -> bool | forall n: nat :: a(n) ==> 8 * n < TWO_64 witness (n: nat) => false

  /** The slots of a set begun empty with `n` slots, after `count` keys have been added. */
  function SlotsAfter(n: nat, count: nat): nat {
    if count == 0 then n
    else
      var slots := SlotsAfter(n, count - 1);
      if Crowded(count - 1, slots) then 2 * slots else slots
  }

  /** Every doubling on the way to `count` keys is granted. */
  predicate Enough(n: nat, count: nat, realloc: Allocator) {
    forall used: nat | used < count && Crowded(used, SlotsAfter(n, used)) :: realloc(2 * SlotsAfter(n, used))
  }

  /** Requests of up to eight slots a key are granted. */
  ghost predicate Plenty(realloc: Allocator, count: nat) {
    forall n: nat | n <= 8 * count :: realloc(n)
  }

  /** That is enough, whatever the initial size. */
  lemma PlentyIsEnough(n: nat, count: nat, realloc: Allocator)
    requires Plenty(realloc, count)
    ensures Enough(n, count, realloc)
  {
  }

  /** A set of `used` keys and so many slots has come this far, every doubling granted. */
  ghost predicate OnTrack(n: nat, used: int, slots: nat, realloc: Allocator) {
    0 <= used && slots == SlotsAfter(n, used) && Enough(n, used, realloc)
  }

  /** One key more is on track if the doubling it needs, if any, is granted. */
  lemma OneKeyMore(n: nat, used: int, slots: nat, realloc: Allocator)
    requires OnTrack(n, used, slots, realloc) && (Crowded(used, slots) ==> realloc(2 * slots))
    ensures OnTrack(n, used + 1, if Crowded(used, slots) then 2 * slots else slots, realloc)
  {
  }

  /** The set is over a quarter full, and memory to double it is refused: nothing can be added. */
  ghost predicate Stuck(t: State, realloc: Allocator) {
    Crowded(t.used, |t.slots|) && !realloc(2 * |t.slots|)
  }

  function Elements(list: seq<CString>): set<CString> {
    set key | key in list
  }

  /** There is enough memory for the key at place `i` and all the different keys before it. */
  ghost predicate GetsIn(n: nat, list: seq<CString>, i: nat, realloc: Allocator)
    requires i < |list|
  {
    Enough(n, |Elements(list[..i + 1])|, realloc)
  }

  /** The keys that get in when those of `list` are added in order to an empty set of `n` slots. */
  ghost function Kept(n: nat, list: seq<CString>, realloc: Allocator): set<CString> {
    set i: nat | i < |list| && GetsIn(n, list, i, realloc) :: list[i]
  }

  lemma GetsInAlike(n: nat, list: seq<CString>, key: CString, i: nat, realloc: Allocator)
    requires i < |list|
    ensures GetsIn(n, list + [key], i, realloc) <==> GetsIn(n, list, i, realloc)
  {
    assert (list + [key])[..i + 1] == list[..i + 1];
  }

  lemma KeptMore(n: nat, list: seq<CString>, key: CString, realloc: Allocator)
    ensures Kept(n, list + [key], realloc) ==
            Kept(n, list, realloc) + (if Enough(n, |Elements(list + [key])|, realloc) then {key} else {})
  {
    var more, m := list + [key], |list|;
    assert more[..m + 1] == more;
    forall i: nat | i < m
      ensures more[i] == list[i] && (GetsIn(n, more, i, realloc) <==> GetsIn(n, list, i, realloc))
    {
      GetsInAlike(n, list, key, i, realloc);
    }
    assert more[m] == key && (GetsIn(n, more, m, realloc) <==> Enough(n, |Elements(more)|, realloc));
  }

  /**
    A set that began empty, with `n` slots, and is to hold `target`: it has no other keys, it has
    them all unless it got stuck, and it grew no more than its keys made it.
  */
  ghost predicate Fits(t: State, hash: HashFunction, n: nat, target: set<CString>, realloc: Allocator) {
    && Valid(t, hash)
    && Keys(t) <= target
    && (Keys(t) == target || Stuck(t, realloc))
    && OnTrack(n, t.used, |t.slots|, realloc)
  }

  /** Adding one key more to the target, and trying to add it. */
  lemma AddFits(t: State, hash: HashFunction, n: nat, target: set<CString>, realloc: Allocator, key: CString)
    requires Fits(t, hash, n, target, realloc)
    ensures var t' := Add(t, Node(key, hash(key)), realloc(2 * |t.slots|)).0;
            && Fits(t', hash, n, target + {key}, realloc)
            && Keys(t') == (if Keys(t') == target + {key} then Keys(t) + {key} else Keys(t))
            && (key in Keys(t) ==> t' == t)
  {
    AddIsInsertion(t, hash, key, realloc(2 * |t.slots|));
    if Add(t, Node(key, hash(key)), realloc(2 * |t.slots|)).1 == SET_TRUE {
      OneKeyMore(n, t.used, |t.slots|, realloc);
    }
  }

  /** Such a set is complete exactly if there is enough memory for all its keys, which can be told beforehand. */
  lemma CompleteIffEnough(t: State, hash: HashFunction, n: nat, target: set<CString>, realloc: Allocator)
    requires Fits(t, hash, n, target, realloc)
    ensures Keys(t) == target <==> Enough(n, |target|, realloc)
  {
    KeyPerSlot(t.slots);
    CardinalityOfSubset(Keys(t), target);
  }

  /** The same of a set that was given the keys of `list` in order: those it has are known beforehand. */
  ghost predicate Gathers(t: State, hash: HashFunction, n: nat, list: seq<CString>, realloc: Allocator) {
    Fits(t, hash, n, Elements(list), realloc) && Keys(t) == Kept(n, list, realloc)
  }

  /** Giving it one key more. */
  lemma AddGathers(t: State, hash: HashFunction, n: nat, list: seq<CString>, realloc: Allocator, key: CString)
    requires Gathers(t, hash, n, list, realloc)
    ensures var t' := Add(t, Node(key, hash(key)), realloc(2 * |t.slots|)).0;
            && Gathers(t', hash, n, list + [key], realloc)
            && (key in Keys(t) ==> t' == t)
  {
    AddFits(t, hash, n, Elements(list), realloc, key);
    OneMoreElement(list, key);
    KeptMore(n, list, key, realloc);
    CompleteIffEnough(Add(t, Node(key, hash(key)), realloc(2 * |t.slots|)).0, hash, n, Elements(list) + {key}, realloc);
  }

  lemma EmptyGathers(t: State, hash: HashFunction, realloc: Allocator)
    requires Valid(t, hash) && Keys(t) == {}
    ensures Gathers(t, hash, |t.slots|, [], realloc)
  {
    KeyPerSlot(t.slots);
  }

  /** What comes of giving the keys of `list`, of which `wanted` is the set, to an empty set of `n` slots. */
  ghost predicate Gathered(t: State, n: nat, list: seq<CString>, wanted: set<CString>, realloc: Allocator) {
    && Elements(list) == wanted
    && Keys(t) == Kept(n, list, realloc) <= wanted
    && (Keys(t) == wanted <==> Enough(n, |wanted|, realloc))
  }

  lemma GathersExactly(t: State, hash: HashFunction, n: nat, list: seq<CString>, realloc: Allocator)
    requires Gathers(t, hash, n, list, realloc)
    ensures Gathered(t, n, list, Elements(list), realloc)
  {
    CompleteIffEnough(t, hash, n, Elements(list), realloc);
  }

  lemma OneMoreElement(list: seq<CString>, key: CString)
    ensures Elements(list + [key]) == Elements(list) + {key}
    ensures (list + [key])[..|list|] == list
  {
  }

  /** A set never asks for memory until it is over a quarter full. */
  lemma {:induction false} FirstDoubling(n: nat, count: nat)
    requires count == 0 || 4 * (count - 1) <= n
    ensures SlotsAfter(n, count) == n
    decreases count
  {
    if count > 0 {
      FirstDoubling(n, count - 1);
    }
  }

  /** If no memory is ever granted, there is enough exactly for the keys that fit before the first doubling. */
  lemma EnoughWithoutMemory(n: nat, count: nat, realloc: Allocator)
    requires forall m: nat :: !realloc(m)
    ensures Enough(n, count, realloc) <==> count == 0 || 4 * (count - 1) <= n
  {
    if count > 0 && Crowded(count - 1, n) {
      var used := n / 4 + 1;
      FirstDoubling(n, used);
      assert used < count && Crowded(used, SlotsAfter(n, used));
    } else {
      forall used: nat | used < count
        ensures SlotsAfter(n, used) == n
      {
        FirstDoubling(n, used);
      }
    }
  }
}
