/** The search tree of the MCTS auto-tuner, held as an arena: nodes are addressed
    by index, the root is index 0, every node records its parent's index, and an
    expanded node records its children's indices in generator order. */
module MctsTree {
  import opened Outcomes

  /** One transformation step applied to a kernel. */
  datatype Opt = Opt(op: nat, axis: int, amount: int)

  /** The kernel as the search sees it: the identity fields of its search key and
      the optimisations already applied to it. */
  datatype Kernel = Kernel(astKey: string, device: string, suffix: string, appliedOpts: seq<Opt>)

  /** `Unexpanded` is Python's `children = None`; `Expanded([])` is an empty list,
      a node with no legal actions left. */
  datatype Children = Unexpanded | Expanded(kids: seq<nat>)

  /** `t` is the summed reward (negated microseconds) and `n` the visit count. */
  datatype Node = Node(kernel: Kernel, t: real, n: nat, parent: Option<nat>, children: Children)

  type Arena = seq<Node>

  function NewNode(kernel: Kernel, parent: Option<nat>): Node
  {
    Node(kernel, 0.0, 0, parent, Unexpanded)
  }

  /** The children of node `i`, empty when it is not expanded. */
  function Kids(a: Arena, i: nat): seq<nat>
    requires i < |a|
  {
    if a[i].children.Expanded? then a[i].children.kids else []
  }

  predicate Distinct(s: seq<nat>)
  {
    forall j, k :: 0 <= j < k < |s| ==> s[j] != s[k]
  }

  /** Node `i` and all its ancestors up to the root. */
  ghost function Path(a: Arena, i: nat): set<nat>
    requires i < |a|
    decreases i
  {
    if a[i].parent.Some? && a[i].parent.value < i then {i} + Path(a, a[i].parent.value) else {i}
  }

  // ---------------------------------------------------------------------------
  // Well-formedness of the arena

  /** The root has no parent; every other node's parent was created before it
      and has been expanded. */
  ghost predicate ParentsBefore(a: Arena)
  {
    && |a| > 0
    && a[0].parent.None?
    && forall i :: 0 < i < |a| ==>
         a[i].parent.Some? && a[i].parent.value < i && a[a[i].parent.value].children.Expanded?
  }

  /** Every listed child lies after its parent and points back to it. */
  ghost predicate KidsLinked(a: Arena)
  {
    forall i, j :: 0 <= i < |a| && 0 <= j < |Kids(a, i)| ==>
      i < Kids(a, i)[j] < |a| && a[Kids(a, i)[j]].parent == Some(i)
  }

  ghost predicate KidsDistinct(a: Arena)
  {
    forall i :: 0 <= i < |a| ==> Distinct(Kids(a, i))
  }

  /** A node that has not been expanded has never been credited. */
  ghost predicate LeavesFresh(a: Arena)
  {
    forall i :: 0 <= i < |a| && a[i].children.Unexpanded? ==> a[i].n == 0 && a[i].t == 0.0
  }

  ghost predicate Valid(a: Arena)
  {
    ParentsBefore(a) && KidsLinked(a) && KidsDistinct(a) && LeavesFresh(a)
  }

  /** `b` keeps every node of `a` with its kernel, statistics and parent, and
      takes back no expansion; it may append nodes. */
  ghost predicate Kept(a: Arena, b: Arena)
  {
    && |a| <= |b|
    && forall i :: 0 <= i < |a| ==>
         && b[i].kernel == a[i].kernel && b[i].t == a[i].t && b[i].n == a[i].n
         && b[i].parent == a[i].parent
         && (a[i].children.Expanded? ==> b[i].children.Expanded?)
  }

  /** The tree holding only the root, as built at the start of a search. */
  lemma RootOnlyValid(k: Kernel)
    ensures Valid([NewNode(k, None)])
  {
  }

  // ---------------------------------------------------------------------------
  // Paths to the root

  lemma {:induction false} PathBelow(a: Arena, i: nat)
    requires i < |a|
    ensures i in Path(a, i)
    ensures forall j :: j in Path(a, i) ==> j <= i
    decreases i
  {
    if a[i].parent.Some? && a[i].parent.value < i {
      PathBelow(a, a[i].parent.value);
    }
  }

  lemma {:induction false} RootOnPath(a: Arena, i: nat)
    requires ParentsBefore(a) && i < |a|
    ensures 0 in Path(a, i)
    decreases i
  {
    if i != 0 {
      RootOnPath(a, a[i].parent.value);
    }
  }

  /** Every ancestor's own path is contained in the path through it. */
  lemma {:induction false} PathClosed(a: Arena, i: nat, j: nat)
    requires i < |a| && j in Path(a, i)
    ensures j < |a| && Path(a, j) <= Path(a, i)
    decreases i
  {
    PathBelow(a, i);
    if j != i {
      PathClosed(a, a[i].parent.value, j);
    }
  }

  /** The path depends only on the parent fields of the nodes at or below `i`. */
  lemma {:induction false} PathStable(a: Arena, b: Arena, i: nat)
    requires i < |a| <= |b|
    requires forall j :: 0 <= j < |a| ==> b[j].parent == a[j].parent
    ensures Path(b, i) == Path(a, i)
    decreases i
  {
    if a[i].parent.Some? && a[i].parent.value < i {
      PathStable(a, b, a[i].parent.value);
    }
  }

  /** In a well-formed arena, every node on the path of an expanded node is expanded. */
  lemma {:induction false} PathExpanded(a: Arena, i: nat)
    requires ParentsBefore(a) && i < |a| && a[i].children.Expanded?
    ensures forall j :: j in Path(a, i) ==> j < |a| && a[j].children.Expanded?
    decreases i
  {
    PathBelow(a, i);
    if i != 0 {
      PathExpanded(a, a[i].parent.value);
    }
  }

  // ---------------------------------------------------------------------------
  // Expansion

  /** The indices `start, start + 1, ..., start + count - 1`. */
  function Fresh(start: nat, count: nat): (r: seq<nat>)
    ensures |r| == count
    ensures forall k :: 0 <= k < count ==> r[k] == start + k
  {
    seq(count, k requires 0 <= k < count => start + k)
  }

  /** Expanding node `i` with the generated `actions` appends one born, unvisited,
      unexpanded node per action, in generator order, each parented to `i`, and
      makes them `i`'s children; nothing else changes. */
  function Expand(a: Arena, i: nat, actions: seq<Kernel>): (b: Arena)
    requires i < |a|
    ensures |b| == |a| + |actions|
    ensures b[i].children.Expanded? && |b[i].children.kids| == |actions|
    ensures Distinct(b[i].children.kids)
    ensures forall k :: 0 <= k < |actions| ==>
      var c := b[i].children.kids[k];
      |a| <= c < |b| && b[c].kernel == actions[k] && b[c].parent == Some(i)
      && b[c].t == 0.0 && b[c].n == 0 && b[c].children.Unexpanded?
    ensures forall c :: |a| <= c < |b| ==> c in b[i].children.kids
    ensures forall c :: |a| <= c < |b| ==> b[c] == NewNode(actions[c - |a|], Some(i))
    ensures b[i].kernel == a[i].kernel && b[i].t == a[i].t && b[i].n == a[i].n && b[i].parent == a[i].parent
    ensures forall j :: 0 <= j < |a| && j != i ==> b[j] == a[j]
  {
    var kids := Fresh(|a|, |actions|);
    var born := seq(|actions|, k requires 0 <= k < |actions| => NewNode(actions[k], Some(i)));
    var b := a[i := a[i].(children := Expanded(kids))] + born;
    ExpandFacts(a, i, actions, kids, born, b);
    b
  }

  lemma ExpandFacts(a: Arena, i: nat, actions: seq<Kernel>, kids: seq<nat>, born: Arena, b: Arena)
    requires i < |a|
    requires kids == Fresh(|a|, |actions|)
    requires |born| == |actions|
    requires forall k :: 0 <= k < |actions| ==> born[k] == NewNode(actions[k], Some(i))
    requires b == a[i := a[i].(children := Expanded(kids))] + born
    ensures Distinct(kids)
    ensures forall k :: 0 <= k < |actions| ==>
      |a| <= kids[k] < |b| && b[kids[k]] == NewNode(actions[k], Some(i))
    ensures forall c :: |a| <= c < |b| ==> c in kids && b[c] == NewNode(actions[c - |a|], Some(i))
  {
    forall k | 0 <= k < |actions|
      ensures |a| <= kids[k] < |b| && b[kids[k]] == NewNode(actions[k], Some(i))
    {
      assert b[|a| + k] == born[k];
    }
    forall c | |a| <= c < |b|
      ensures c in kids && b[c] == NewNode(actions[c - |a|], Some(i))
    {
      assert kids[c - |a|] == c;
      assert b[c] == born[c - |a|];
    }
  }

  lemma ExpandValid(a: Arena, i: nat, actions: seq<Kernel>)
    requires Valid(a) && i < |a| && a[i].children.Unexpanded?
    ensures Valid(Expand(a, i, actions)) && Kept(a, Expand(a, i, actions))
  {
    var b := Expand(a, i, actions);
    forall j, k | 0 <= j < |b| && 0 <= k < |Kids(b, j)|
      ensures j < Kids(b, j)[k] < |b| && b[Kids(b, j)[k]].parent == Some(j)
    {
      if j != i {
        assert j < |a| && Kids(b, j) == Kids(a, j);
      }
    }
    forall j | 0 <= j < |b|
      ensures Distinct(Kids(b, j))
    {
      if j != i && j < |a| {
        assert Kids(b, j) == Kids(a, j);
      }
    }
  }

  // ---------------------------------------------------------------------------
  // Pruning a node whose compilation failed

  /** The position of the first occurrence of `x` in `s`. */
  function IndexOf(s: seq<nat>, x: nat): (k: nat)
    requires x in s
    ensures k < |s| && s[k] == x && x !in s[..k]
  {
    if s[0] == x then 0 else
      var k := IndexOf(s[1..], x);
      assert s[1..][..k] == s[1..k + 1];
      1 + k
  }

  /** Python's `list.remove(x)`: the first occurrence of `x` is taken out and the
      other elements keep their order. */
  function RemoveFirst(s: seq<nat>, x: nat): (r: seq<nat>)
    requires x in s
    ensures |r| == |s| - 1
    ensures forall j :: 0 <= j < |r| ==> r[j] == (if j < IndexOf(s, x) then s[j] else s[j + 1])
  {
    var k := IndexOf(s, x);
    s[..k] + s[k + 1..]
  }

  /** Removal takes out one occurrence of `x` and keeps every other element. */
  lemma RemoveFirstMultiset(s: seq<nat>, x: nat)
    requires x in s
    ensures multiset(RemoveFirst(s, x)) == multiset(s) - multiset{x}
  {
    var k := IndexOf(s, x);
    assert s == s[..k] + [x] + s[k + 1..];
    assert RemoveFirst(s, x) == s[..k] + s[k + 1..];
  }

  /** In a list without repeats, removal takes out exactly that element. */
  lemma RemoveFirstDistinct(s: seq<nat>, x: nat)
    requires x in s && Distinct(s)
    ensures Distinct(RemoveFirst(s, x))
    ensures x !in RemoveFirst(s, x)
    ensures forall y :: y in RemoveFirst(s, x) <==> y in s && y != x
  {
    var k := IndexOf(s, x);
    var r := RemoveFirst(s, x);
    forall j, l | 0 <= j < l < |r|
      ensures r[j] != r[l]
    {
      var j' := if j < k then j else j + 1;
      var l' := if l < k then l else l + 1;
      assert r[j] == s[j'] && r[l] == s[l'] && j' < l';
    }
    forall j | 0 <= j < |r|
      ensures r[j] != x
    {
      var j' := if j < k then j else j + 1;
      assert r[j] == s[j'] && j' != k;
    }
    forall y | y in s && y != x
      ensures y in r
    {
      var m :| 0 <= m < |s| && s[m] == y;
      assert m != k;
      if m < k { assert r[m] == y; } else { assert r[m - 1] == y; }
    }
  }

  /** After a failed compilation the node is removed from its parent's children;
      the root has no parent and nothing is removed. No statistics change. */
  function Prune(a: Arena, i: nat): (b: Arena)
    requires i < |a|
    requires a[i].parent.Some? ==>
      a[i].parent.value < |a| && a[a[i].parent.value].children.Expanded? && i in a[a[i].parent.value].children.kids
    ensures |b| == |a|
    ensures a[i].parent.None? ==> b == a
    ensures a[i].parent.Some? ==>
      var p := a[i].parent.value;
      && b[p] == a[p].(children := Expanded(RemoveFirst(a[p].children.kids, i)))
      && |Kids(b, p)| == |Kids(a, p)| - 1
      && forall j :: 0 <= j < |a| && j != p ==> b[j] == a[j]
  {
    match a[i].parent
    case None => a
    case Some(p) => a[p := a[p].(children := Expanded(RemoveFirst(a[p].children.kids, i)))]
  }

  /** Pruning keeps every node's kernel, statistics, parent and expansion flag,
      and changes only the parent's children. */
  lemma PruneKept(a: Arena, i: nat)
    requires i < |a| && a[i].parent.Some? && a[i].parent.value < |a| && i in Kids(a, a[i].parent.value)
    ensures Kept(a, Prune(a, i)) && |Prune(a, i)| == |a|
    ensures forall j :: 0 <= j < |a| ==> Prune(a, i)[j].children.Expanded? == a[j].children.Expanded?
    ensures Kids(Prune(a, i), a[i].parent.value) == RemoveFirst(Kids(a, a[i].parent.value), i)
    ensures forall j :: 0 <= j < |a| && j != a[i].parent.value ==> Kids(Prune(a, i), j) == Kids(a, j)
  {
    var p := a[i].parent.value;
    var b := Prune(a, i);
    assert b == a[p := a[p].(children := Expanded(RemoveFirst(a[p].children.kids, i)))];
  }

  lemma PruneValid(a: Arena, i: nat)
    requires Valid(a) && i < |a| && a[i].parent.Some? && i in Kids(a, a[i].parent.value)
    ensures Valid(Prune(a, i)) && Kept(a, Prune(a, i))
    ensures i !in Kids(Prune(a, i), a[i].parent.value)
  {
    var p := a[i].parent.value;
    var b := Prune(a, i);
    PruneKept(a, i);
    RemoveFirstDistinct(Kids(a, p), i);
    DropValid(a, b, p);
  }

  /** Dropping children from one node's list, and changing nothing else a
      well-formed arena depends on, keeps the arena well formed. */
  lemma DropValid(a: Arena, b: Arena, p: nat)
    requires Valid(a) && |b| == |a| && p < |a|
    requires forall j :: 0 <= j < |a| ==>
      && b[j].parent == a[j].parent && b[j].n == a[j].n && b[j].t == a[j].t
      && b[j].children.Expanded? == a[j].children.Expanded?
    requires forall j :: 0 <= j < |a| && j != p ==> Kids(b, j) == Kids(a, j)
    requires Distinct(Kids(b, p)) && forall x :: x in Kids(b, p) ==> x in Kids(a, p)
    ensures Valid(b)
  {
    assert ParentsBefore(b);
    assert LeavesFresh(b);
    assert KidsDistinct(b);
    DropLinked(a, b, p);
  }

  lemma DropLinked(a: Arena, b: Arena, p: nat)
    requires KidsLinked(a) && |b| == |a| && p < |a|
    requires forall j :: 0 <= j < |a| ==> b[j].parent == a[j].parent
    requires forall j :: 0 <= j < |a| && j != p ==> Kids(b, j) == Kids(a, j)
    requires forall x :: x in Kids(b, p) ==> x in Kids(a, p)
    ensures KidsLinked(b)
  {
    forall j, k | 0 <= j < |b| && 0 <= k < |Kids(b, j)|
      ensures j < Kids(b, j)[k] < |b| && b[Kids(b, j)[k]].parent == Some(j)
    {
      if j == p {
        var x := Kids(b, p)[k];
        assert x in Kids(a, p);
        var m :| 0 <= m < |Kids(a, p)| && Kids(a, p)[m] == x;
      }
    }
  }

  // ---------------------------------------------------------------------------
  // Backpropagation

  /** The reward a rollout of `tm` seconds contributes: minus its microseconds. */
  function Reward(tm: real): real
  {
    -(tm * 1000000.0)
  }

  /** A node credited with one more rollout of `tm` seconds. */
  function Credit(x: Node, tm: real): Node
  {
    x.(t := x.t + Reward(tm), n := x.n + 1)
  }

  /** Reference definition: the arena with every node on the path from `node`
      to the root credited once with the rollout. */
  ghost function Credited(a: Arena, node: nat, tm: real): Arena
    requires node < |a|
  {
    seq(|a|, i requires 0 <= i < |a| => if i in Path(a, node) then Credit(a[i], tm) else a[i])
  }

  /** Walks from `node` through its parents to the root, crediting each node once
      with the rollout; nodes off that path are left unchanged. */
  method Backprop(a: Arena, node: nat, tm: real) returns (b: Arena)
    requires ParentsBefore(a) && node < |a|
    ensures |b| == |a|
    ensures 0 in Path(a, node)
    ensures forall i :: 0 <= i < |a| && i in Path(a, node) ==> b[i] == Credit(a[i], tm)
    ensures forall i :: 0 <= i < |a| && i !in Path(a, node) ==> b[i] == a[i]
    ensures b == Credited(a, node, tm)
  {
    RootOnPath(a, node);
    PathBelow(a, node);
    b := a;
    var cur: Option<nat> := Some(node);
    ghost var done: set<nat> := {};
    while cur.Some?
      invariant |b| == |a|
      invariant cur.Some? ==> cur.value < |a| && Path(a, cur.value) <= Path(a, node)
      invariant cur.Some? ==> done == Path(a, node) - Path(a, cur.value)
      invariant cur.None? ==> done == Path(a, node)
      invariant forall i :: 0 <= i < |a| && i in done ==> b[i] == Credit(a[i], tm)
      invariant forall i :: 0 <= i < |a| && i !in done ==> b[i] == a[i]
      decreases if cur.Some? then cur.value + 1 else 0
    {
      var c := cur.value;
      PathBelow(a, c);
      PathClosed(a, node, c);
      if c != 0 {
        PathBelow(a, a[c].parent.value);
        PathClosed(a, node, a[c].parent.value);
      }
      b := b[c := Credit(b[c], tm)];
      done := done + {c};
      cur := b[c].parent;
    }
    CreditedIs(a, node, tm, b);
  }

  lemma CreditedIs(a: Arena, node: nat, tm: real, b: Arena)
    requires node < |a| && |b| == |a|
    requires forall i :: 0 <= i < |a| && i in Path(a, node) ==> b[i] == Credit(a[i], tm)
    requires forall i :: 0 <= i < |a| && i !in Path(a, node) ==> b[i] == a[i]
    ensures b == Credited(a, node, tm)
  {
    assert forall i :: 0 <= i < |a| ==> b[i] == Credited(a, node, tm)[i];
  }
}
