/** The UCB1 descent of the MCTS auto-tuner. The score of a visited child is kept
    abstract (the floating-point formula is a parameter); the one concrete rule is
    that an unvisited child scores positive infinity. */
module MctsSelect {
  import opened Outcomes
  import opened MctsTree

  /** The exploration score of a visited child, from its reward sum, its visit
      count and its parent's visit count. */
  type Ucb = (real, nat, nat) -> real

  datatype Score = Infinite | Finite(v: real)

  /** Strictly lower score. Every finite score is below infinity. */
  predicate Below(x: Score, y: Score)
  {
    x.Finite? && (y.Infinite? || x.v < y.v)
  }

  function ScoreOf(a: Arena, ucb: Ucb, i: nat, c: nat): Score
    requires i < |a| && c < |a|
  {
    if a[c].n == 0 then Infinite else Finite(ucb(a[c].t, a[c].n, a[i].n))
  }

  /** Index 0 of a stable descending sort: the first position holding a maximal score. */
  function FirstMax(s: seq<Score>): (k: nat)
    requires |s| > 0
    ensures k < |s|
    ensures forall j :: 0 <= j < |s| ==> !Below(s[k], s[j])
    ensures forall j :: 0 <= j < k ==> Below(s[j], s[k])
  {
    if |s| == 1 then 0
    else
      var k := FirstMax(s[1..]);
      if Below(s[0], s[1 + k]) then 1 + k else 0
  }

  function Scores(a: Arena, ucb: Ucb, i: nat): (s: seq<Score>)
    requires Valid(a) && i < |a|
    ensures |s| == |Kids(a, i)|
    ensures forall j :: 0 <= j < |s| ==> Kids(a, i)[j] < |a| && s[j] == ScoreOf(a, ucb, i, Kids(a, i)[j])
  {
    seq(|Kids(a, i)|, j requires 0 <= j < |Kids(a, i)| => ScoreOf(a, ucb, i, Kids(a, i)[j]))
  }

  /** The visit counts of node `i`'s children, in order. */
  function Visited(a: Arena, i: nat): (n: seq<nat>)
    requires Valid(a) && i < |a|
    ensures |n| == |Kids(a, i)|
    ensures forall j :: 0 <= j < |n| ==> Kids(a, i)[j] < |a| && n[j] == a[Kids(a, i)[j]].n
  {
    seq(|Kids(a, i)|, j requires 0 <= j < |Kids(a, i)| => a[Kids(a, i)[j]].n)
  }

  /** The position, among node `i`'s children, of the child UCB1 selects. Any
      unvisited child outranks every visited one, and among equal scores the
      earliest child wins. */
  function ChoosePos(a: Arena, ucb: Ucb, i: nat): (k: nat)
    requires Valid(a) && i < |a| && |Kids(a, i)| > 0
    ensures k < |Kids(a, i)|
    ensures var s := Scores(a, ucb, i);
      && (forall j :: 0 <= j < |s| ==> !Below(s[k], s[j]))
      && (forall j :: 0 <= j < k ==> Below(s[j], s[k]))
    ensures var n := Visited(a, i);
      && ((exists j :: 0 <= j < |n| && n[j] == 0) <==> n[k] == 0)
      && (n[k] == 0 ==> forall j :: 0 <= j < k ==> n[j] > 0)
  {
    var s := Scores(a, ucb, i);
    var n := Visited(a, i);
    var k := FirstMax(s);
    assert forall j :: 0 <= j < |s| ==> (s[j].Infinite? <==> n[j] == 0);
    UnvisitedFirst(s, n, k);
    k
  }

  /** When the infinite scores are exactly the unvisited children, the first
      maximal score is unvisited exactly when some child is, and then it is the
      first unvisited child. */
  lemma UnvisitedFirst(s: seq<Score>, n: seq<nat>, k: nat)
    requires |s| == |n| && k < |s|
    requires forall j :: 0 <= j < |s| ==> (s[j].Infinite? <==> n[j] == 0)
    requires forall j :: 0 <= j < |s| ==> !Below(s[k], s[j])
    requires forall j :: 0 <= j < k ==> Below(s[j], s[k])
    ensures (exists j :: 0 <= j < |n| && n[j] == 0) <==> n[k] == 0
    ensures n[k] == 0 ==> forall j :: 0 <= j < k ==> n[j] > 0
  {
    if j :| 0 <= j < |n| && n[j] == 0 {
      assert !Below(s[k], s[j]);
    }
  }

  /** The child UCB1 selects below node `i`. */
  function Choose(a: Arena, ucb: Ucb, i: nat): (c: nat)
    requires Valid(a) && i < |a| && |Kids(a, i)| > 0
    ensures c < |a| && c in Kids(a, i) && a[c].parent == Some(i)
  {
    Kids(a, i)[ChoosePos(a, ucb, i)]
  }

  /** The path from the root to `node` went only through expanded nodes with
      children, and each of its steps took the child UCB1 selects. */
  ghost predicate Followed(a: Arena, ucb: Ucb, node: nat)
    requires Valid(a) && node < |a|
  {
    && 0 in Path(a, node)
    && (forall j :: j in Path(a, node) && j != node ==> j < |a| && |Kids(a, j)| > 0)
    && (forall c :: c in Path(a, node) && c != 0 ==>
          && c < |a| && a[c].parent.Some? && a[c].parent.value < |a|
          && |Kids(a, a[c].parent.value)| > 0
          && c == Choose(a, ucb, a[c].parent.value))
  }

  /** The root alone is a followed path. */
  lemma FollowedRoot(a: Arena, ucb: Ucb)
    requires Valid(a)
    ensures Followed(a, ucb, 0)
  {
    assert Path(a, 0) == {0};
  }

  /** One step down to the selected child extends a followed path. */
  lemma FollowedStep(a: Arena, ucb: Ucb, node: nat)
    requires Valid(a) && node < |a| && Followed(a, ucb, node) && |Kids(a, node)| > 0
    ensures var next := Choose(a, ucb, node);
      && node < next < |a| && Followed(a, ucb, next)
      && a[next].parent == Some(node) && next in Kids(a, node)
  {
    var next := Choose(a, ucb, node);
    PathBelow(a, node);
    assert node < next && Path(a, next) == {next} + Path(a, node);
    forall j | j in Path(a, next) && j != next
      ensures j < |a| && |Kids(a, j)| > 0
    {
      assert j in Path(a, node);
    }
    forall c | c in Path(a, next) && c != 0
      ensures c < |a| && a[c].parent.Some? && a[c].parent.value < |a|
      ensures |Kids(a, a[c].parent.value)| > 0 && c == Choose(a, ucb, a[c].parent.value)
    {
      if c != next {
        assert c in Path(a, node);
      }
    }
  }

  /** Descends from the root through the children UCB1 selects, stopping at the
      first node that is unexpanded or expanded with no children. Every node
      passed on the way is expanded with children, every step took the selected
      child, and the node reached is listed among its parent's children. */
  method Descend(a: Arena, ucb: Ucb) returns (node: nat)
    requires Valid(a)
    ensures node < |a|
    ensures a[node].children.Unexpanded? || a[node].children == Expanded([])
    ensures Followed(a, ucb, node)
    ensures node != 0 ==>
      (a[node].parent.Some? && a[node].parent.value < |a| && node in Kids(a, a[node].parent.value))
  {
    node := 0;
    FollowedRoot(a, ucb);
    while a[node].children.Expanded? && |a[node].children.kids| > 0
      invariant node < |a|
      invariant Followed(a, ucb, node)
      invariant node != 0 ==>
        (a[node].parent.Some? && a[node].parent.value < |a| && node in Kids(a, a[node].parent.value))
      decreases |a| - node
    {
      FollowedStep(a, ucb, node);
      var next := Choose(a, ucb, node);
      node := next;
    }
  }
}
