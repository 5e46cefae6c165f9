/**
  The set as a value: one function per operation of set.c, what each means for the set of keys, and
  what whole runs of operations keep.
*/
module SetModel {
  import opened CStrings
  import opened Tables
  import opened Relayouts
  import opened Doubling
  import opened Deletion

  const SET_TRUE := 0
  const SET_FALSE := -1
  const SET_MALLOC_ERROR := -2
  const SET_CIRCULAR_ERROR := -3
  const SET_OCCUPIED_ERROR := -4
  const SET_ALREADY_PRESENT := 1

  /** `nodes` and `used_nodes`; `number_nodes` is the length of `slots`. */
  datatype State = State(slots: Table, used: int)

  ghost predicate Valid(t: State, hash: HashFunction) {
    Good(t.slots, hash) && t.used == |Used(t.slots)|
  }

  ghost function Keys(t: State): set<CString> {
    KeysOf(t.slots)
  }

  /** Fuller than MAX_FULLNESS_PERCENT, a quarter. */
  predicate Crowded(used: int, n: nat) {
    4 * used > n
  }

  ghost function Init(n: nat): State {
    State(Empties(n), 0)
  }

  ghost function CodeOf(p: Probing): int {
    match p
    case Found(_) => SET_TRUE
    case Vacant(_) => SET_FALSE
    case Circular => SET_CIRCULAR_ERROR
  }

  /** `__set_add`; `granted` tells whether `realloc` gives the memory, should it be asked. */
  ghost function Add(t: State, x: Node, granted: bool): (r: (State, int))
    requires |t.slots| > 0
    ensures |r.0.slots| > 0
  {
    if Probe(t.slots, x).Found? then (t, SET_ALREADY_PRESENT)
    else if Crowded(t.used, |t.slots|) && !granted then (t, SET_MALLOC_ERROR)
    else
      var s := if Crowded(t.used, |t.slots|) then Doubled(t.slots) else t.slots;
      var p := Probe(s, x);
      (if p.Vacant? then State(s[p.at := Full(x)], t.used + 1) else State(s, t.used),
       if p.Vacant? then SET_TRUE else CodeOf(p))
  }

  /** `set_remove`. */
  ghost function Remove(t: State, x: Node): (r: (State, int))
    requires |t.slots| > 0
    ensures |r.0.slots| == |t.slots|
  {
    var p := Probe(t.slots, x);
    (if p.Found? then State(Removed(t.slots, p.at), t.used - 1) else t, CodeOf(p))
  }

  /** `set_clear`. */
  ghost function Clear(t: State): (r: State)
    ensures |r.slots| == |t.slots|
  {
    Init(|t.slots|)
  }

  lemma InitIsEmpty(n: nat, hash: HashFunction)
    requires n > 0
    ensures Valid(Init(n), hash) && Keys(Init(n)) == {}
  {
    assert Used(Empties(n)) == {};
  }

  /** Adding is insertion: on every valid set, crowded or full or neither, whatever collides; codes as in set.h. */
  lemma AddIsInsertion(t: State, hash: HashFunction, key: CString, granted: bool)
    requires Valid(t, hash)
    ensures var (t', code) := Add(t, Node(key, hash(key)), granted);
            && Valid(t', hash)
            && (code == 1 <==> key in Keys(t))
            && (code == -2 <==> key !in Keys(t) && Crowded(t.used, |t.slots|) && !granted)
            && (code == 1 || code == -2 || code == 0)
            && (code != 0 ==> t' == t)
            && (code == 0 ==> Keys(t') == Keys(t) + {key} && t'.used == t.used + 1)
            && |t'.slots| == if code == 0 && Crowded(t.used, |t.slots|) then 2 * |t.slots| else |t.slots|
  {
    var x := Node(key, hash(key));
    ProbeIsLookup(t.slots, hash, key);
    DoublingKeepsGood(t.slots, hash);
    var s := if Crowded(t.used, |t.slots|) then Doubled(t.slots) else t.slots;
    ProbeIsLookup(s, hash, key);
    var p := Probe(s, x);
    if key !in Keys(t) {
      assert p.Vacant?;
      Placed(s, hash, x, p.at);
    }
  }

  /** Asking is membership, but for a full set, which cannot say no; codes as in set.h. */
  lemma ContainsIsMembership(t: State, hash: HashFunction, key: CString)
    requires Valid(t, hash)
    ensures var code := CodeOf(Probe(t.slots, Node(key, hash(key))));
            && (code == 0 <==> key in Keys(t))
            && (code == -1 <==> key !in Keys(t) && t.used < |t.slots|)
            && (code == -3 <==> key !in Keys(t) && t.used == |t.slots|)
  {
    ProbeIsLookup(t.slots, hash, key);
  }

  /** A stored key can be removed safely, or the key is not stored. */
  ghost predicate SafeToRemove(t: State, x: Node) {
    var p := Probe(t.slots, x);
    p.Found? ==> Removable(t.slots, p.at)
  }

  /** The answer of `set_contains` is that of a mathematical set. */
  ghost predicate Answers(t: State, hash: HashFunction, keys: set<CString>, key: CString) {
    CodeOf(Probe(t.slots, Node(key, hash(key)))) == if key in keys then SET_TRUE else SET_FALSE
  }

  /**
    Removing is set difference exactly when it is safe: then the set stays valid and answers every
    query rightly; otherwise some key that was to stay is no longer found.
  */
  lemma RemoveIsDifference(t: State, hash: HashFunction, key: CString)
    requires Valid(t, hash)
    ensures var x := Node(key, hash(key));
            var (t', code) := Remove(t, x);
            && (key in Keys(t) <==> code == SET_TRUE)
            && (key !in Keys(t) ==> t' == t && code == if t.used < |t.slots| then SET_FALSE else SET_CIRCULAR_ERROR)
            && Keys(t') == Keys(t) - {key}
            && t'.used == |Used(t'.slots)| == |Keys(t) - {key}|
            && (Valid(t', hash) <==> SafeToRemove(t, x))
            && (key in Keys(t) ==> (SafeToRemove(t, x) <==> forall k :: Answers(t', hash, Keys(t) - {key}, k)))
  {
    ProbeIsLookup(t.slots, hash, key);
    KeyPerSlot(t.slots);
    if key in Keys(t) {
      RemoveStored(t, hash, key);
    }
  }

  lemma RemoveStored(t: State, hash: HashFunction, key: CString)
    requires Valid(t, hash) && key in Keys(t)
    ensures var x := Node(key, hash(key));
            var (t', code) := Remove(t, x);
            && code == SET_TRUE
            && Keys(t') == Keys(t) - {key}
            && t'.used == |Used(t'.slots)| == |Keys(t) - {key}|
            && (Valid(t', hash) <==> SafeToRemove(t, x))
            && (SafeToRemove(t, x) <==> forall k :: Answers(t', hash, Keys(t) - {key}, k))
  {
    var x := Node(key, hash(key));
    ProbeIsLookup(t.slots, hash, key);
    var p := Probe(t.slots, x);
    RemovalIsExact(t.slots, hash, p.at);
    var t' := Remove(t, x).0;
    KeyPerSlot(t'.slots);
    RoomOrFull(t.slots);
    if Good(t'.slots, hash) {
      forall k
        ensures Answers(t', hash, Keys(t'), k)
      {
        ContainsIsMembership(t', hash, k);
      }
    } else {
      var k := LostKey(t'.slots, hash);
      assert !Answers(t', hash, Keys(t'), k);
    }
  }

  /** A table that is not searchable hides one of its keys. */
  lemma LostKey(s: Table, hash: HashFunction) returns (k: CString)
    requires |s| > 0 && Distinct(s) && Hashed(s, hash) && !Good(s, hash)
    ensures k in KeysOf(s) && !Probe(s, Node(k, hash(k))).Found?
  {
    SearchableIffFound(s);
    var f: nat :| f < |s| && s[f].Full? && Probe(s, s[f].node) != Found(f);
    k := s[f].node.key;
    assert s[f].node == Node(k, hash(k)) && k in KeysOf(s);
  }

  // ---- Runs ----

  datatype Op = OpAdd(key: CString, granted: bool) | OpRemove(key: CString) | OpContains(key: CString) | OpLength | OpClear

  ghost function Step(t: State, op: Op, hash: HashFunction): (r: (State, int))
    requires |t.slots| > 0
    ensures |r.0.slots| > 0
  {
    match op
    case OpAdd(key, granted) => Add(t, Node(key, hash(key)), granted)
    case OpRemove(key) => Remove(t, Node(key, hash(key)))
    case OpContains(key) => (t, CodeOf(Probe(t.slots, Node(key, hash(key)))))
    case OpLength => (t, t.used)
    case OpClear => (Clear(t), SET_TRUE)
  }

  /** The results of a run. */
  ghost function Results(t: State, ops: seq<Op>, hash: HashFunction): (codes: seq<int>)
    requires |t.slots| > 0
    ensures |codes| == |ops|
    decreases |ops|
  {
    if ops == [] then []
    else
      var (t', code) := Step(t, ops[0], hash);
      [code] + Results(t', ops[1..], hash)
  }

  /** The set after a run. */
  ghost function After(t: State, ops: seq<Op>, hash: HashFunction): (r: State)
    requires |t.slots| > 0
    ensures |r.slots| > 0
    decreases |ops|
  {
    if ops == [] then t else After(Step(t, ops[0], hash).0, ops[1..], hash)
  }

  /** One operation more: its result is that of a step from where the run ends. */
  lemma {:induction false} OneOpMore(t: State, ops: seq<Op>, op: Op, hash: HashFunction)
    requires |t.slots| > 0
    ensures var (t', code) := Step(After(t, ops, hash), op, hash);
            && Results(t, ops + [op], hash) == Results(t, ops, hash) + [code]
            && After(t, ops + [op], hash) == t'
    decreases |ops|
  {
    if ops == [] {
      assert [op][1..] == [];
      assert [] + [op] == [op];
    } else {
      assert (ops + [op])[1..] == ops[1..] + [op];
      OneOpMore(Step(t, ops[0], hash).0, ops[1..], op, hash);
    }
  }

  /** Every removal in the run is safe where it happens. */
  ghost predicate SafeRun(t: State, ops: seq<Op>, hash: HashFunction)
    requires |t.slots| > 0
    decreases |ops|
  {
    ops != [] ==>
      && (ops[0].OpRemove? ==> SafeToRemove(t, Node(ops[0].key, hash(ops[0].key))))
      && SafeRun(Step(t, ops[0], hash).0, ops[1..], hash)
  }

  /** One step of a mathematical set, which may be refused memory. */
  function IdealStep(keys: set<CString>, op: Op, refused: bool): (set<CString>, int) {
    match op
    case OpAdd(key, _) =>
      if key in keys then (keys, SET_ALREADY_PRESENT)
      else if refused then (keys, SET_MALLOC_ERROR)
      else (keys + {key}, SET_TRUE)
    case OpRemove(key) => (keys - {key}, if key in keys then SET_TRUE else SET_FALSE)
    case OpContains(key) => (keys, if key in keys then SET_TRUE else SET_FALSE)
    case OpLength => (keys, |keys|)
    case OpClear => ({}, SET_TRUE)
  }

  /** What a mathematical set answers; `refused` tells at which steps there was no memory. */
  function IdealResults(keys: set<CString>, ops: seq<Op>, refused: seq<bool>): seq<int>
    requires |refused| == |ops|
    decreases |ops|
  {
    if ops == [] then []
    else
      var (keys', code) := IdealStep(keys, ops[0], refused[0]);
      [code] + IdealResults(keys', ops[1..], refused[1..])
  }

  /** The steps of a run that fail for want of memory. */
  function Refusals(codes: seq<int>): (r: seq<bool>)
    ensures |r| == |codes|
  {
    seq(|codes|, (i: nat) requires i < |codes| => codes[i] == SET_MALLOC_ERROR)
  }

  /** About a quarter full at most, which leaves an empty slot: kept from two slots up. */
  ghost predicate Roomy(t: State, hash: HashFunction) {
    Valid(t, hash) && |t.slots| >= 2 && 4 * t.used <= |t.slots| + 4
  }

  lemma RoomyHasRoom(t: State, hash: HashFunction)
    requires Roomy(t, hash)
    ensures t.used < |t.slots| && exists k: nat :: k < |t.slots| && t.slots[k].Empty?
  {
    RoomOrFull(t.slots);
  }

  lemma StepIsIdeal(t: State, op: Op, hash: HashFunction)
    requires Roomy(t, hash)
    requires op.OpRemove? ==> SafeToRemove(t, Node(op.key, hash(op.key)))
    ensures var (t', code) := Step(t, op, hash);
            && Roomy(t', hash)
            && (Keys(t'), code) == IdealStep(Keys(t), op, code == SET_MALLOC_ERROR)
            && (code == SET_MALLOC_ERROR ==> op.OpAdd? && !op.granted)
            && code != SET_CIRCULAR_ERROR
  {
    match op
    case OpAdd(key, granted) => AddIsInsertion(t, hash, key, granted);
    case OpRemove(key) => RemoveIsDifference(t, hash, key);
    case OpContains(key) => ContainsIsMembership(t, hash, key);
    case OpLength => KeyPerSlot(t.slots);
    case OpClear => InitIsEmpty(|t.slots|, hash);
  }

  /**
    Over whole runs with safe removals the hash table is a mathematical set, result by result;
    SET_CIRCULAR_ERROR never happens, and the load stays bounded.
  */
  lemma {:induction false} RunIsIdeal(t: State, ops: seq<Op>, hash: HashFunction)
    requires Roomy(t, hash) && SafeRun(t, ops, hash)
    ensures var codes := Results(t, ops, hash);
            && codes == IdealResults(Keys(t), ops, Refusals(codes))
            && (forall i: nat | i < |ops| && codes[i] == SET_MALLOC_ERROR :: ops[i].OpAdd? && !ops[i].granted)
            && SET_CIRCULAR_ERROR !in codes
    ensures Roomy(After(t, ops, hash), hash)
    decreases |ops|
  {
    if ops != [] {
      var (t', code) := Step(t, ops[0], hash);
      StepIsIdeal(t, ops[0], hash);
      RunIsIdeal(t', ops[1..], hash);
      var codes := Results(t, ops, hash);
      assert Refusals(codes)[1..] == Refusals(codes[1..]);
      assert codes[1..] == Results(t', ops[1..], hash);
      forall i: nat | i < |ops| && codes[i] == SET_MALLOC_ERROR
        ensures ops[i].OpAdd? && !ops[i].granted
      {
        assert i > 0 ==> codes[1..][i - 1] == codes[i] && ops[1..][i - 1] == ops[i];
      }
    }
  }

  /** Asked at the end of the run whether a key is in, the set answers like a mathematical one all along. */
  ghost predicate IdealTo(t: State, ops: seq<Op>, key: CString, hash: HashFunction)
    requires |t.slots| > 0
  {
    var run := ops + [OpContains(key)];
    var codes := Results(t, run, hash);
    codes == IdealResults(Keys(t), run, Refusals(codes))
  }

  /**
    Safety of the removals is exactly what it takes: a run is safe if and only if, stopped anywhere
    and asked about any key, the hash table answers like a mathematical set.
  */
  lemma {:induction false} SafetyIsExact(t: State, ops: seq<Op>, hash: HashFunction)
    requires Roomy(t, hash)
    ensures SafeRun(t, ops, hash) <==> forall i: nat, key | i <= |ops| :: IdealTo(t, ops[..i], key, hash)
    decreases |ops|
  {
    if SafeRun(t, ops, hash) {
      forall i: nat, key | i <= |ops|
        ensures IdealTo(t, ops[..i], key, hash)
      {
        SafePrefix(t, ops, i, key, hash);
        RunIsIdeal(t, ops[..i] + [OpContains(key)], hash);
      }
    } else if forall i: nat, key | i <= |ops| :: IdealTo(t, ops[..i], key, hash) {
      var op, rest := ops[0], ops[1..];
      HeadIsSafe(t, ops, hash);
      StepIsIdeal(t, op, hash);
      var t' := Step(t, op, hash).0;
      forall i: nat, key | i <= |rest|
        ensures IdealTo(t', rest[..i], key, hash)
      {
        assert ops[..i + 1] == [op] + rest[..i];
        IdealAfter(t, op, rest[..i], key, hash);
      }
      SafetyIsExact(t', rest, hash);
    }
  }

  lemma {:induction false} SafePrefix(t: State, ops: seq<Op>, i: nat, key: CString, hash: HashFunction)
    requires |t.slots| > 0 && i <= |ops| && SafeRun(t, ops, hash)
    ensures SafeRun(t, ops[..i] + [OpContains(key)], hash)
    decreases i
  {
    var run := ops[..i] + [OpContains(key)];
    if i == 0 {
      assert run == [OpContains(key)] && run[1..] == [];
    } else {
      assert run[0] == ops[0] && run[1..] == ops[1..][..i - 1] + [OpContains(key)];
      SafePrefix(Step(t, ops[0], hash).0, ops[1..], i - 1, key, hash);
    }
  }

  lemma IdealAfter(t: State, op: Op, ops: seq<Op>, key: CString, hash: HashFunction)
    requires |t.slots| > 0 && IdealTo(t, [op] + ops, key, hash)
    requires var (t', code) := Step(t, op, hash);
             Keys(t') == IdealStep(Keys(t), op, code == SET_MALLOC_ERROR).0
    ensures IdealTo(Step(t, op, hash).0, ops, key, hash)
  {
    var run, run' := [op] + ops + [OpContains(key)], ops + [OpContains(key)];
    var t' := Step(t, op, hash).0;
    assert run[1..] == run';
    var codes, codes' := Results(t, run, hash), Results(t', run', hash);
    assert codes[1..] == codes';
    assert Refusals(codes)[1..] == Refusals(codes');
    assert IdealResults(Keys(t), run, Refusals(codes))[1..] == IdealResults(Keys(t'), run', Refusals(codes'));
  }

  /** If one query after the first step is always answered rightly, the first step is safe. */
  lemma HeadIsSafe(t: State, ops: seq<Op>, hash: HashFunction)
    requires Roomy(t, hash) && ops != []
    requires forall i: nat, key | i <= |ops| :: IdealTo(t, ops[..i], key, hash)
    ensures ops[0].OpRemove? ==> SafeToRemove(t, Node(ops[0].key, hash(ops[0].key)))
  {
    var op := ops[0];
    if op.OpRemove? {
      RemoveIsDifference(t, hash, op.key);
      var t' := Step(t, op, hash).0;
      forall k
        ensures Answers(t', hash, Keys(t) - {op.key}, k)
      {
        assert IdealTo(t, ops[..1], k, hash);
        assert ops[..1] == [op] + [];
        IdealAfter(t, op, [], k, hash);
        AnswerOfOne(t', k, hash);
      }
    }
  }

  lemma AnswerOfOne(t: State, key: CString, hash: HashFunction)
    requires |t.slots| > 0 && IdealTo(t, [], key, hash)
    ensures Answers(t, hash, Keys(t), key)
  {
    var run := [] + [OpContains(key)];
    assert run == [OpContains(key)] && run[1..] == [];
    var codes := Results(t, run, hash);
    assert codes[0] == IdealResults(Keys(t), run, Refusals(codes))[0];
  }

  /** Capacity, growth points and collisions cannot be observed. */
  lemma ShapeIsHidden(m: nat, n: nat, ops: seq<Op>, hash: HashFunction, hash': HashFunction)
    requires m >= 2 && n >= 2
    requires forall i: nat | i < |ops| && ops[i].OpAdd? :: ops[i].granted
    requires SafeRun(Init(m), ops, hash) && SafeRun(Init(n), ops, hash')
    ensures Results(Init(m), ops, hash) == Results(Init(n), ops, hash')
  {
    InitIsEmpty(m, hash);
    InitIsEmpty(n, hash');
    RunIsIdeal(Init(m), ops, hash);
    RunIsIdeal(Init(n), ops, hash');
    var codes, codes' := Results(Init(m), ops, hash), Results(Init(n), ops, hash');
    assert Refusals(codes) == Refusals(codes');
  }

  /** Adding an absent key to a set that is not crowded puts it where its probe stops. */
  lemma AddPuts(t: State, hash: HashFunction, key: CString, f: nat)
    requires Valid(t, hash) && key !in Keys(t) && !Crowded(t.used, |t.slots|)
    requires Stops(t.slots, Node(key, hash(key)), f)
    ensures t.slots[f].Empty?
    ensures Add(t, Node(key, hash(key)), true) == (State(t.slots[f := Full(Node(key, hash(key)))], t.used + 1), SET_TRUE)
  {
    ProbeAt(t.slots, Node(key, hash(key)), f);
    ProbeIsLookup(t.slots, hash, key);
  }

  lemma OneStep(t: State, op: Op, ops: seq<Op>, hash: HashFunction)
    requires |t.slots| > 0
    ensures var (t', code) := Step(t, op, hash);
            && Results(t, [op] + ops, hash) == [code] + Results(t', ops, hash)
            && (SafeRun(t, [op] + ops, hash) ==> SafeRun(t', ops, hash))
            && (op.OpRemove? && !SafeToRemove(t, Node(op.key, hash(op.key))) ==> !SafeRun(t, [op] + ops, hash))
  {
    assert ([op] + ops)[1..] == ops;
  }

  /** Add two keys, remove the first, ask for the second. */
  function LosingRun(k1: CString, k2: CString): seq<Op> {
    [OpAdd(k1, true)] + ([OpAdd(k2, true)] + ([OpRemove(k1)] + ([OpContains(k2)] + [])))
  }

  /**
    The safety of removals matters: in a fresh set, with two keys whose home is the last slot, the
    second key is lost, where a mathematical set would answer SET_TRUE four times.
  */
  lemma RunCanLoseAKey(n: nat, hash: HashFunction, k1: CString, k2: CString)
    requires n >= 4 && k1 != k2 && hash(k1) % n == hash(k2) % n == n - 1
    ensures !SafeRun(Init(n), LosingRun(k1, k2), hash)
    ensures Results(Init(n), LosingRun(k1, k2), hash) == [SET_TRUE, SET_TRUE, SET_TRUE, SET_FALSE]
  {
    var ask := [OpContains(k2)] + [];
    var remove := [OpRemove(k1)] + ask;
    var t := TwoAtTheEnd(n, hash, k1, k2, remove);
    LosingTail(t, hash, k1, k2, ask);
    OneStep(t, OpRemove(k1), ask, hash);
    OneStep(Remove(t, Node(k1, hash(k1))).0, OpContains(k2), [], hash);
  }

  lemma TwoAtTheEnd(n: nat, hash: HashFunction, k1: CString, k2: CString, ops: seq<Op>) returns (t: State)
    requires n >= 4 && k1 != k2 && hash(k1) % n == hash(k2) % n == n - 1
    ensures Valid(t, hash) && t.slots == CollidingPair(n, Node(k1, hash(k1)), Node(k2, hash(k2)))
    ensures var run := [OpAdd(k1, true)] + ([OpAdd(k2, true)] + ops);
            && Results(Init(n), run, hash) == [SET_TRUE] + ([SET_TRUE] + Results(t, ops, hash))
            && (SafeRun(Init(n), run, hash) ==> SafeRun(t, ops, hash))
  {
    InitIsEmpty(n, hash);
    AddPuts(Init(n), hash, k1, n - 1);
    AddIsInsertion(Init(n), hash, k1, true);
    var t1 := Add(Init(n), Node(k1, hash(k1)), true).0;
    t := SecondAtTheStart(t1, n, hash, k1, k2);
    OneStep(Init(n), OpAdd(k1, true), [OpAdd(k2, true)] + ops, hash);
    OneStep(t1, OpAdd(k2, true), ops, hash);
  }

  lemma SecondAtTheStart(t1: State, n: nat, hash: HashFunction, k1: CString, k2: CString) returns (t: State)
    requires n >= 4 && k1 != k2 && hash(k1) % n == hash(k2) % n == n - 1
    requires t1 == State(Empties(n)[n - 1 := Full(Node(k1, hash(k1)))], 1) && Valid(t1, hash) && Keys(t1) == {k1}
    ensures Add(t1, Node(k2, hash(k2)), true) == (t, SET_TRUE)
    ensures Valid(t, hash) && t.slots == CollidingPair(n, Node(k1, hash(k1)), Node(k2, hash(k2)))
  {
    AddPuts(t1, hash, k2, 0);
    AddIsInsertion(t1, hash, k2, true);
    t := Add(t1, Node(k2, hash(k2)), true).0;
  }

  lemma LosingTail(t: State, hash: HashFunction, k1: CString, k2: CString, ask: seq<Op>)
    requires |t.slots| >= 4 && k1 != k2 && Valid(t, hash)
    requires Home(Node(k1, hash(k1)), |t.slots|) == Home(Node(k2, hash(k2)), |t.slots|) == |t.slots| - 1
    requires t.slots == CollidingPair(|t.slots|, Node(k1, hash(k1)), Node(k2, hash(k2)))
    ensures var (t', code) := Remove(t, Node(k1, hash(k1)));
            code == SET_TRUE && CodeOf(Probe(t'.slots, Node(k2, hash(k2)))) == SET_FALSE
    ensures !SafeToRemove(t, Node(k1, hash(k1)))
  {
    var n, x, y := |t.slots|, Node(k1, hash(k1)), Node(k2, hash(k2));
    RemovalCanLoseAKey(n, x, y, hash);
    ProbeAt(t.slots, x, n - 1);
    ContainsIsMembership(t, hash, k1);
    RemoveStored(t, hash, k1);
    var t' := Remove(t, x).0;
    if Valid(t', hash) {
      ContainsIsMembership(t', hash, k2);
    }
  }

  /** All that is kept in every run, by any operation: no more slots are in use than are counted. */
  ghost predicate Counted(t: State) {
    |t.slots| > 0 && |Used(t.slots)| <= t.used
  }

  /** The load bound, for sets in any condition: about a quarter at most counted, and two slots or more. */
  ghost predicate Light(t: State) {
    Counted(t) && |t.slots| >= 2 && 4 * t.used <= |t.slots| + 4
  }

  /** With an empty slot no probe goes all the way around. */
  lemma ProbeEnds(s: Table, x: Node)
    requires |Used(s)| < |s|
    ensures !Probe(s, x).Circular?
  {
    RoomOrFull(s);
    var k: nat :| k < |s| && s[k].Empty?;
    var f := FirstStop(s, x, k);
    ProbeAt(s, x, f);
  }

  /** Doubling never uses more slots, so that half of them at least are empty. */
  lemma DoublingMakesRoom(s: Table)
    requires |s| > 0
    ensures |Used(Doubled(s))| <= |Used(s)| <= |s|
  {
    RoomOrFull(s);
    Appended(s);
    RelayoutNeverAdds(s + Empties(|s|), 0, 0, 1, 0);
  }

  lemma AddHasRoom(t: State)
    requires Counted(t)
    ensures var s := if Crowded(t.used, |t.slots|) then Doubled(t.slots) else t.slots;
            && |Used(s)| <= t.used && |Used(s)| < |s|
            && (Light(t) ==> Light(State(s, t.used)) && 4 * t.used <= |s|)
  {
    DoublingMakesRoom(t.slots);
  }

  lemma PlacingUsesOne(s: Table, f: nat, x: Node)
    requires f < |s| && s[f].Empty?
    ensures |Used(s[f := Full(x)])| == |Used(s)| + 1
  {
    assert Used(s[f := Full(x)]) == Used(s) + {f};
  }

  /** Adding never goes around, whatever the initial size and whatever was lost: it finds room or makes it. */
  lemma AddFindsRoom(t: State, x: Node, granted: bool)
    requires Counted(t)
    ensures var (t', code) := Add(t, x, granted);
            && Counted(t') && (Light(t) ==> Light(t'))
            && code != SET_CIRCULAR_ERROR
  {
    var s := if Crowded(t.used, |t.slots|) then Doubled(t.slots) else t.slots;
    AddHasRoom(t);
    ProbeEnds(s, x);
    var p := Probe(s, x);
    if p.Vacant? {
      PlacingUsesOne(s, p.at, x);
    }
  }

  lemma RemoveStaysCounted(t: State, x: Node)
    requires Counted(t)
    ensures var (t', code) := Remove(t, x);
            && Counted(t')
            && (Light(t) ==> Light(t') && code != SET_CIRCULAR_ERROR)
  {
    if Light(t) {
      ProbeEnds(t.slots, x);
    }
    var p := Probe(t.slots, x);
    if p.Found? {
      var a := t.slots[p.at := Empty];
      assert Used(a) == Used(t.slots) - {p.at} && p.at in Used(t.slots);
      RelayoutNeverAdds(a, p.at, p.at, 0, 0);
    }
  }

  lemma StepStaysCounted(t: State, op: Op, hash: HashFunction)
    requires Counted(t)
    ensures var (t', code) := Step(t, op, hash);
            && Counted(t') && (Light(t) ==> Light(t'))
            && (Light(t) || op.OpAdd? ==> code != SET_CIRCULAR_ERROR)
  {
    match op
    case OpAdd(key, granted) => AddFindsRoom(t, Node(key, hash(key)), granted);
    case OpRemove(key) => RemoveStaysCounted(t, Node(key, hash(key)));
    case OpContains(key) =>
      if Light(t) {
        ProbeEnds(t.slots, Node(key, hash(key)));
      }
    case OpLength =>
    case OpClear => assert Used(Empties(|t.slots|)) == {};
  }

  /**
    Every run, safe or not, even after removals that lost a key and after that key was added again:
    adding never gives SET_CIRCULAR_ERROR; and within the load bound, which is kept, nothing does.
  */
  lemma {:induction false} RunStaysCounted(t: State, ops: seq<Op>, hash: HashFunction)
    requires Counted(t)
    ensures forall i: nat | i < |ops| && ops[i].OpAdd? :: Results(t, ops, hash)[i] != SET_CIRCULAR_ERROR
    ensures Light(t) ==> SET_CIRCULAR_ERROR !in Results(t, ops, hash) && Light(After(t, ops, hash))
    decreases |ops|
  {
    if ops != [] {
      var t' := Step(t, ops[0], hash).0;
      StepStaysCounted(t, ops[0], hash);
      RunStaysCounted(t', ops[1..], hash);
      assert Results(t, ops, hash)[1..] == Results(t', ops[1..], hash);
      forall i: nat | i < |ops| && ops[i].OpAdd?
        ensures Results(t, ops, hash)[i] != SET_CIRCULAR_ERROR
      {
        assert i > 0 ==> Results(t, ops, hash)[i] == Results(t', ops[1..], hash)[i - 1] && ops[i] == ops[1..][i - 1];
      }
    }
  }

  /** So from a fresh set `set_add` keeps its promise, from every initial size. */
  lemma AddNeverCircular(n: nat, ops: seq<Op>, hash: HashFunction)
    requires n > 0
    ensures forall i: nat | i < |ops| && ops[i].OpAdd? :: Results(Init(n), ops, hash)[i] != SET_CIRCULAR_ERROR
  {
    assert Used(Empties(n)) == {};
    RunStaysCounted(Init(n), ops, hash);
  }

  /** A set of one slot is full once it has a key, and then cannot say that another is absent. */
  lemma OneSlotGoesAround(hash: HashFunction, ask: Op)
    requires ask == OpContains("b") || ask == OpRemove("b")
    ensures Results(Init(1), [OpAdd("a", true), ask], hash)[1] == SET_CIRCULAR_ERROR
  {
    InitIsEmpty(1, hash);
    AddIsInsertion(Init(1), hash, "a", true);
    var t := Step(Init(1), OpAdd("a", true), hash).0;
    ContainsIsMembership(t, hash, "b");
    RemoveIsDifference(t, hash, "b");
    OneStep(t, ask, [], hash);
    OneStep(Init(1), OpAdd("a", true), [ask], hash);
    assert [ask] + [] == [ask];
    assert [OpAdd("a", true)] + [ask] == [OpAdd("a", true), ask];
  }

  /**
    For `set_contains` and `set_remove` the promise fails: in exactly those sets that began with a
    single slot, there is a run in which either answers SET_CIRCULAR_ERROR.
  */
  lemma CircularNeedsOneSlot(n: nat, hash: HashFunction)
    requires n > 0
    ensures (exists ops: seq<Op>, i: nat :: i < |ops| && ops[i].OpContains? && Results(Init(n), ops, hash)[i] == SET_CIRCULAR_ERROR) <==> n == 1
    ensures (exists ops: seq<Op>, i: nat :: i < |ops| && ops[i].OpRemove? && Results(Init(n), ops, hash)[i] == SET_CIRCULAR_ERROR) <==> n == 1
  {
    if n == 1 {
      OneSlotGoesAround(hash, OpContains("b"));
      OneSlotGoesAround(hash, OpRemove("b"));
      var asks, removes := [OpAdd("a", true), OpContains("b")], [OpAdd("a", true), OpRemove("b")];
      assert asks[1].OpContains? && removes[1].OpRemove?;
    } else {
      assert Used(Empties(n)) == {};
      forall ops
        ensures SET_CIRCULAR_ERROR !in Results(Init(n), ops, hash)
      {
        RunStaysCounted(Init(n), ops, hash);
      }
    }
  }
}
