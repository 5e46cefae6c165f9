/**
  The slot array of the open-addressing set, as a value: cyclic probe walks, where a probe
  stops, and what makes a table searchable.
*/
module Tables {
  import opened CStrings

  datatype Node = Node(key: CString, hash: Hash)

  /** One entry of `nodes`: a null pointer or a node. */
  datatype Slot = Empty | Full(node: Node)

  type Table = seq<Slot>

  /** The slot at which the probe for `x` starts in a table of `n` slots. */
  function Home(x: Node, n: nat): (h: nat)
    requires n > 0
    ensures h < n
  {
    x.hash % n
  }

  /** The cyclic walk from `home` to slot `f` passes over slot `c` before it gets to `f`. */
  predicate Passes(home: nat, f: nat, c: nat) {
    if home <= f then home <= c < f else home <= c || c < f
  }

  /** How many steps the walk from `home` to `f` takes in a table of `n` slots. */
  function Distance(home: nat, f: nat, n: nat): nat
    requires home < n && f < n
  {
    if home <= f then f - home else n - home + f
  }

  /** The slots that the walk for a hash comes to in a table of `n` slots, up to the one `d` steps on. */
  function Walk(hash: nat, n: nat, d: nat): (w: seq<nat>)
    requires n > 0
    ensures |w| == d + 1
    ensures forall j: nat | j <= d :: w[j] == (hash % n + j) % n && w[j] < n
  {
    seq(d + 1, (j: nat) => (hash % n + j) % n)
  }

  /** The slots in use. */
  ghost function Used(s: Table): set<nat> {
    set i: nat | i < |s| && s[i].Full?
  }

  ghost function NodesOf(s: Table): set<Node> {
    set i: nat | i < |s| && s[i].Full? :: s[i].node
  }

  ghost function KeysOf(s: Table): set<CString> {
    set i: nat | i < |s| && s[i].Full? :: s[i].node.key
  }

  ghost predicate Distinct(s: Table) {
    forall i: nat, j: nat | i < |s| && j < |s| && s[i].Full? && s[j].Full? && s[i].node.key == s[j].node.key :: i == j
  }

  ghost predicate Hashed(s: Table, hash: HashFunction) {
    forall i: nat | i < |s| && s[i].Full? :: s[i].node.hash == hash(s[i].node.key)
  }

  /** The walk from the home of the node in slot `f` meets no empty slot before `f`. */
  ghost predicate Reaches(s: Table, f: nat)
    requires f < |s| && s[f].Full?
  {
    forall c: nat | c < |s| && Passes(Home(s[f].node, |s|), f, c) :: s[c].Full?
  }

  ghost predicate Searchable(s: Table) {
    forall f: nat | f < |s| && s[f].Full? :: Reaches(s, f)
  }

  /** The representation invariant of the slot array. */
  ghost predicate Good(s: Table, hash: HashFunction) {
    |s| > 0 && Distinct(s) && Hashed(s, hash) && Searchable(s)
  }

  /** `f` is the first slot on the walk for `x` that is empty or holds `x` itself. */
  ghost predicate Stops(s: Table, x: Node, f: nat) {
    && f < |s|
    && (s[f].Empty? || s[f].node == x)
    && forall c: nat | c < |s| && Passes(Home(x, |s|), f, c) :: s[c].Full? && s[c].node != x
  }

  datatype Probing = Found(at: nat) | Vacant(at: nat) | Circular

  /** The outcome of probing for `x`, told without a loop. */
  ghost function Probe(s: Table, x: Node): (p: Probing)
    ensures p.Found? ==> Stops(s, x, p.at) && s[p.at] == Full(x)
    ensures p.Vacant? ==> Stops(s, x, p.at) && s[p.at].Empty?
  {
    if f: nat :| Stops(s, x, f) then (if s[f].Empty? then Vacant(f) else Found(f)) else Circular
  }

  /** After `d` steps from slot `hash % n` on, cyclically, the walk for `x` first comes to an empty slot or to `x`. */
  ghost predicate StopsAfter(s: Table, x: Node, d: nat)
    requires |s| > 0
  {
    var w := Walk(x.hash, |s|, d);
    && d < |s|
    && (s[w[d]].Empty? || s[w[d]].node == x)
    && forall j: nat | j < d :: s[w[j]].Full? && s[w[j]].node != x
  }

  lemma Wraps(a: nat, n: nat)
    requires a < 2 * n
    ensures a % n == if a < n then a else a - n
  {
    if a >= n {
      assert a == n * 1 + (a - n);
    }
  }

  /** `Passes` and `Distance` are about that walk: `f` is so many steps on, and the slots passed over come before it. */
  lemma PassesIsWalk(x: Node, n: nat, f: nat)
    requires n > 0 && f < n
    ensures var d := Distance(Home(x, n), f, n);
            var w := Walk(x.hash, n, d);
            && d < n && w[d] == f
            && (forall j: nat | j < d :: Passes(Home(x, n), f, w[j]))
            && (forall c: nat | c < n && Passes(Home(x, n), f, c) :: exists j: nat :: j < d && w[j] == c)
  {
    var home := Home(x, n);
    var d := Distance(home, f, n);
    var w := Walk(x.hash, n, d);
    forall j: nat | j <= d
      ensures w[j] == if home + j < n then home + j else home + j - n
    {
      Wraps(home + j, n);
    }
    forall c: nat | c < n && Passes(home, f, c)
      ensures exists j: nat :: j < d && w[j] == c
    {
      var j := Distance(home, c, n);
      assert j < d && w[j] == c;
    }
  }

  /** Where a probe stops, told by steps. */
  lemma StopsIsWalk(s: Table, x: Node, f: nat)
    requires f < |s|
    ensures Stops(s, x, f) <==> exists d: nat :: StopsAfter(s, x, d) && Walk(x.hash, |s|, d)[d] == f
  {
    var n := |s|;
    var d := Distance(Home(x, n), f, n);
    PassesIsWalk(x, n, f);
    var w := Walk(x.hash, n, d);
    if Stops(s, x, f) {
      assert StopsAfter(s, x, d);
    }
    if e: nat :| StopsAfter(s, x, e) && Walk(x.hash, n, e)[e] == f {
      SameSteps(x, n, d, e);
      forall c: nat | c < n && Passes(Home(x, n), f, c)
        ensures s[c].Full? && s[c].node != x
      {
        var j: nat :| j < d && w[j] == c;
      }
    }
  }

  /** Less than a round takes to each slot in one way only. */
  lemma SameSteps(x: Node, n: nat, d: nat, e: nat)
    requires d < n && e < n && Walk(x.hash, n, d)[d] == Walk(x.hash, n, e)[e]
    ensures d == e
  {
    Wraps(Home(x, n) + d, n);
    Wraps(Home(x, n) + e, n);
  }

  /** What it means to be reached, told by steps: all slots from `hash % n` up to the node are full. */
  lemma ReachesIsWalk(s: Table, f: nat)
    requires f < |s| && s[f].Full?
    ensures Reaches(s, f) <==>
            exists d: nat :: d < |s| && Walk(s[f].node.hash, |s|, d)[d] == f &&
                             forall j: nat | j < d :: s[Walk(s[f].node.hash, |s|, d)[j]].Full?
  {
    var n, x := |s|, s[f].node;
    var d := Distance(Home(x, n), f, n);
    PassesIsWalk(x, n, f);
    var w := Walk(x.hash, n, d);
    if Reaches(s, f) {
      assert d < n && w[d] == f && forall j: nat | j < d :: s[w[j]].Full?;
    }
    if e: nat :| e < n && Walk(x.hash, n, e)[e] == f && forall j: nat | j < e :: s[Walk(x.hash, n, e)[j]].Full? {
      SameSteps(x, n, d, e);
      forall c: nat | c < n && Passes(Home(x, n), f, c)
        ensures s[c].Full?
      {
        var j: nat :| j < d && w[j] == c;
      }
    }
  }

  lemma OneStop(s: Table, x: Node, f: nat, g: nat)
    requires Stops(s, x, f) && Stops(s, x, g)
    ensures f == g
  {
    var home := Home(x, |s|);
    assert f == g || Passes(home, f, g) || Passes(home, g, f);
  }

  /** Wherever the walk could stop, it stops there or earlier. */
  lemma {:induction false} FirstStop(s: Table, x: Node, k: nat) returns (f: nat)
    requires k < |s| && (s[k].Empty? || s[k].node == x)
    ensures Stops(s, x, f)
    ensures f == k || Passes(Home(x, |s|), k, f)
    decreases Distance(Home(x, |s|), k, |s|)
  {
    var home := Home(x, |s|);
    if c: nat :| c < |s| && Passes(home, k, c) && (s[c].Empty? || s[c].node == x) {
      f := FirstStop(s, x, c);
    } else {
      f := k;
    }
  }

  /** A slot at which the walk stops settles the probe. */
  lemma ProbeAt(s: Table, x: Node, f: nat)
    requires Stops(s, x, f)
    ensures Probe(s, x) == if s[f].Empty? then Vacant(f) else Found(f)
  {
    var p := Probe(s, x);
    OneStop(s, x, f, p.at);
  }

  /**
    What probing means: on a searchable table of distinct, correctly hashed keys it finds a key
    exactly when the key is stored, gives the place for it when it is absent and there is room, and
    goes all the way around exactly when it is absent and there is none. The place is the first
    that is empty or holds the key, from slot `hash % n` on.
  */
  lemma ProbeIsLookup(s: Table, hash: HashFunction, key: CString)
    requires Good(s, hash)
    ensures var p := Probe(s, Node(key, hash(key)));
            && (p.Found? <==> key in KeysOf(s))
            && (p.Vacant? <==> key !in KeysOf(s) && |Used(s)| < |s|)
            && (p.Circular? <==> key !in KeysOf(s) && |Used(s)| == |s|)
            && (!p.Circular? ==> exists d: nat :: p.at == (hash(key) % |s| + d) % |s| && StopsAfter(s, Node(key, hash(key)), d))
  {
    var x := Node(key, hash(key));
    RoomOrFull(s);
    if key in KeysOf(s) {
      var k: nat :| k < |s| && s[k].Full? && s[k].node.key == key;
      var f := FirstStop(s, x, k);
      assert Reaches(s, k);
      ProbeAt(s, x, f);
    } else if k: nat :| k < |s| && s[k].Empty? {
      var f := FirstStop(s, x, k);
      ProbeAt(s, x, f);
    }
    var p := Probe(s, x);
    if !p.Circular? {
      StopsIsWalk(s, x, p.at);
    }
  }

  /** A searchable table is one in which every node is found where it is. */
  lemma SearchableIffFound(s: Table)
    requires |s| > 0 && Distinct(s)
    ensures Searchable(s) <==> forall f: nat | f < |s| && s[f].Full? :: Probe(s, s[f].node) == Found(f)
  {
    forall f: nat | f < |s| && s[f].Full?
      ensures Reaches(s, f) <==> Probe(s, s[f].node) == Found(f)
    {
      var g := FirstStop(s, s[f].node, f);
      ProbeAt(s, s[f].node, g);
      if g == f {
        assert Stops(s, s[f].node, f);
      }
    }
  }

  ghost function Below(n: nat): (b: set<nat>)
    ensures forall i: nat :: i in b <==> i < n
    ensures |b| == n
  {
    if n == 0 then {} else Below(n - 1) + {n - 1}
  }

  /** There is an empty slot exactly when fewer slots are used than there are. */
  lemma RoomOrFull(s: Table)
    ensures |Used(s)| <= |s|
    ensures |Used(s)| < |s| <==> exists k: nat :: k < |s| && s[k].Empty?
  {
    assert Used(s) <= Below(|s|);
    CardinalityOfSubset(Used(s), Below(|s|));
    if k: nat :| k < |s| && s[k].Empty? {
      assert k in Below(|s|) && k !in Used(s);
    } else {
      assert Used(s) == Below(|s|);
    }
  }

  lemma {:induction false} CardinalityOfSubset<T>(a: set<T>, b: set<T>)
    requires a <= b
    ensures |a| <= |b|
    ensures |a| == |b| ==> a == b
    decreases a
  {
    if x :| x in a {
      CardinalityOfSubset(a - {x}, b - {x});
    }
  }

  /** One slot more: what the first `i + 1` slots hold. */
  lemma OneMore(s: Table, i: nat)
    requires i < |s|
    ensures s[i].Empty? ==> KeysOf(s[..i + 1]) == KeysOf(s[..i]) && Used(s[..i + 1]) == Used(s[..i])
    ensures s[i].Full? ==> KeysOf(s[..i + 1]) == KeysOf(s[..i]) + {s[i].node.key}
    ensures s[i].Full? ==> Used(s[..i + 1]) == Used(s[..i]) + {i}
  {
    var t, u := s[..i], s[..i + 1];
    assert u[i] == s[i];
    assert forall j: nat | j < i :: t[j] == u[j] == s[j];
    forall key
      ensures key in KeysOf(u) <==> key in KeysOf(t) || (s[i].Full? && key == s[i].node.key)
    {
      if key in KeysOf(t) {
        var j: nat :| j < i && t[j].Full? && t[j].node.key == key;
        assert u[j].Full?;
      }
    }
  }

  /** The key in a slot is not among those before it. */
  lemma KeyIsNew(s: Table, m: nat)
    requires m < |s| && s[m].Full? && Distinct(s)
    ensures s[m].node.key !in KeysOf(s[..m])
  {
    forall i: nat | i < m && s[..m][i].Full?
      ensures s[..m][i].node.key != s[m].node.key
    {
      assert s[..m][i] == s[i];
    }
  }

  /** One slot more: how many keys and slots in use that adds. */
  lemma OneMoreSize(s: Table, m: nat)
    requires m < |s| && Distinct(s)
    ensures |KeysOf(s[..m + 1])| == |KeysOf(s[..m])| + (if s[m].Full? then 1 else 0)
    ensures |Used(s[..m + 1])| == |Used(s[..m])| + (if s[m].Full? then 1 else 0)
  {
    OneMore(s, m);
    if s[m].Full? {
      KeyIsNew(s, m);
      assert m !in Used(s[..m]);
    }
  }

  /** As many keys as used slots, because the keys are distinct. */
  lemma {:induction false} KeyPerSlot(s: Table, n: nat := |s|)
    requires n <= |s| && Distinct(s)
    ensures |KeysOf(s[..n])| == |Used(s[..n])|
    ensures s[..|s|] == s
  {
    if n == 0 {
      assert Used(s[..n]) == {} && KeysOf(s[..n]) == {};
    } else {
      KeyPerSlot(s, n - 1);
      OneMoreSize(s, n - 1);
    }
  }

  /** Putting an absent node where its probe stops keeps the table good. */
  lemma Placed(s: Table, hash: HashFunction, x: Node, f: nat)
    requires Good(s, hash) && x.hash == hash(x.key) && x.key !in KeysOf(s)
    requires Stops(s, x, f) && s[f].Empty?
    ensures Good(s[f := Full(x)], hash)
    ensures KeysOf(s[f := Full(x)]) == KeysOf(s) + {x.key}
    ensures |Used(s[f := Full(x)])| == |Used(s)| + 1
  {
    var t := s[f := Full(x)];
    assert Used(t) == Used(s) + {f};
    forall key
      ensures key in KeysOf(t) <==> key in KeysOf(s) + {x.key}
    {
      if key in KeysOf(s) {
        var i: nat :| i < |s| && s[i].Full? && s[i].node.key == key;
        assert t[i] == s[i];
      }
      assert t[f] == Full(x);
    }
    forall g: nat | g < |t| && t[g].Full?
      ensures Reaches(t, g)
    {
      assert g != f ==> Reaches(s, g);
    }
  }
}
