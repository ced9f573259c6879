/** The bookkeeping of the MCTS search: the state it carries between
    iterations, the log of successful rollouts, and the invariant relating the
    tree's visit counts and reward sums to that log and the best result to the
    logged times. The lemmas here show that each kind of tree change keeps it.

    Compilation, timing and the action generator are oracles held in `Env`. */
module MctsAccount {
  import opened Outcomes
  import opened MctsTree
  import opened MctsSelect

  type PosReal = r: real | r > 0.0 witness 1.0

  /** The best time so far; `Inf` is the initial `math.inf`. */
  datatype Tm = Inf | Fin(v: real)

  predicate TmLess(x: Tm, y: Tm)
  {
    x.Fin? && (y.Inf? || x.v < y.v)
  }

  /** The search's collaborators: the kernels of the legal non-identity actions in
      generator order, whether a kernel compiles, the minimum time the timer
      reports at a given iteration under an early-stop bound, and the UCB score. */
  datatype Env = Env(
    actions: Kernel -> seq<Kernel>,
    compiles: Kernel -> bool,
    measure: (nat, Kernel, Tm) -> PosReal,
    ucb: Ucb)

  /** One successful rollout: the node rolled out, its kernel and its time. */
  datatype Rollout = Rollout(node: nat, kernel: Kernel, tm: real)

  datatype State = State(tree: Arena, best: Kernel, bestTm: Tm, log: seq<Rollout>)

  // ---------------------------------------------------------------------------
  // Visit accounting: a node's statistics are the sums over the rollouts whose
  // path to the root passes through it.

  ghost predicate LogNodes(a: Arena, log: seq<Rollout>)
  {
    forall k :: 0 <= k < |log| ==> log[k].node < |a|
  }

  /** The number of logged rollouts at `i` or below it. */
  ghost function Visits(a: Arena, log: seq<Rollout>, i: nat): nat
    requires LogNodes(a, log)
    decreases |log|
  {
    if |log| == 0 then 0
    else Visits(a, log[..|log| - 1], i) + (if i in Path(a, log[|log| - 1].node) then 1 else 0)
  }

  /** The summed reward of the logged rollouts at `i` or below it. */
  ghost function Gain(a: Arena, log: seq<Rollout>, i: nat): real
    requires LogNodes(a, log)
    decreases |log|
  {
    if |log| == 0 then 0.0
    else Gain(a, log[..|log| - 1], i) + (if i in Path(a, log[|log| - 1].node) then Reward(log[|log| - 1].tm) else 0.0)
  }

  ghost predicate Accounted(a: Arena, log: seq<Rollout>)
    requires LogNodes(a, log)
  {
    forall i :: 0 <= i < |a| ==> a[i].n == Visits(a, log, i) && a[i].t == Gain(a, log, i)
  }

  /** Every logged rollout names an expanded node holding the logged kernel, with
      a positive time, and no node is logged twice. */
  ghost predicate LogFaithful(a: Arena, log: seq<Rollout>)
  {
    && LogNodes(a, log)
    && (forall k :: 0 <= k < |log| ==>
          a[log[k].node].kernel == log[k].kernel && a[log[k].node].children.Expanded? && log[k].tm > 0.0)
    && (forall j, k :: 0 <= j < k < |log| ==> log[j].node != log[k].node)
  }

  /** The best result: the input kernel with an infinite time while nothing has
      been timed; afterwards the minimum time, held by the first rollout that
      reached it. */
  ghost predicate IsBest(lin: Kernel, log: seq<Rollout>, best: Kernel, bestTm: Tm)
  {
    && (|log| == 0 ==> best == lin && bestTm == Inf)
    && (|log| > 0 ==>
          && bestTm.Fin?
          && (forall k :: 0 <= k < |log| ==> bestTm.v <= log[k].tm)
          && exists k :: 0 <= k < |log| && log[k].tm == bestTm.v && log[k].kernel == best
                         && forall j :: 0 <= j < k ==> bestTm.v < log[j].tm)
  }

  /** Every action keeps the optimisations already applied and adds to them. */
  ghost predicate ActionsExtend(env: Env)
  {
    forall k: Kernel, j :: 0 <= j < |env.actions(k)| ==> k.appliedOpts <= env.actions(k)[j].appliedOpts
  }

  /** The search invariant: the tree part and the log part. */
  ghost predicate Inv(st: State, lin: Kernel, env: Env)
  {
    TreeInv(st.tree, lin, env) && LogInv(st.tree, st.log, lin, st.best, st.bestTm)
  }

  /** The tree is well formed, rooted at the input kernel, a lone root when
      there are no actions, and every kernel in it extends the input's
      optimisations when actions do. */
  ghost predicate TreeInv(a: Arena, lin: Kernel, env: Env)
  {
    && Valid(a)
    && a[0].kernel == lin
    && (env.actions(lin) == [] ==> |a| == 1)
    && (ActionsExtend(env) ==> forall i :: 0 <= i < |a| ==> lin.appliedOpts <= a[i].kernel.appliedOpts)
  }

  /** The log is faithful to the tree, the statistics count it, and the best
      result is its first minimum. */
  ghost predicate LogInv(a: Arena, log: seq<Rollout>, lin: Kernel, best: Kernel, bestTm: Tm)
  {
    LogFaithful(a, log) && Accounted(a, log) && IsBest(lin, log, best, bestTm)
  }

  /** With no actions the tree is the root alone, so only the root can be
      rolled out, at most once, and the best kernel stays the input. */
  lemma NoActionsBest(st: State, lin: Kernel, env: Env)
    requires Inv(st, lin, env) && env.actions(lin) == []
    ensures |st.log| <= 1 && st.best == lin
  {
    forall k | 0 <= k < |st.log|
      ensures st.log[k].node == 0 && st.log[k].kernel == lin
    {
    }
    FirstTwoDiffer(st.log);
  }

  lemma FirstTwoDiffer(log: seq<Rollout>)
    requires forall j, k :: 0 <= j < k < |log| ==> log[j].node != log[k].node
    ensures |log| >= 2 ==> log[0].node != log[1].node
  {
  }

  lemma {:induction false} VisitsStable(a: Arena, b: Arena, log: seq<Rollout>, i: nat)
    requires LogNodes(a, log) && |a| <= |b|
    requires forall j :: 0 <= j < |a| ==> b[j].parent == a[j].parent
    ensures LogNodes(b, log)
    ensures Visits(b, log, i) == Visits(a, log, i) && Gain(b, log, i) == Gain(a, log, i)
    decreases |log|
  {
    if |log| > 0 {
      VisitsStable(a, b, log[..|log| - 1], i);
      PathStable(a, b, log[|log| - 1].node);
    }
  }

  /** A node created after every logged rollout has no credit. */
  lemma {:induction false} VisitsAbove(a: Arena, log: seq<Rollout>, i: nat)
    requires LogNodes(a, log) && |a| <= i
    ensures Visits(a, log, i) == 0 && Gain(a, log, i) == 0.0
    decreases |log|
  {
    if |log| > 0 {
      VisitsAbove(a, log[..|log| - 1], i);
      PathBelow(a, log[|log| - 1].node);
    }
  }

  /** Every rollout passes through the root. */
  lemma {:induction false} RootVisits(a: Arena, log: seq<Rollout>)
    requires ParentsBefore(a) && LogNodes(a, log)
    ensures Visits(a, log, 0) == |log|
    decreases |log|
  {
    if |log| > 0 {
      RootVisits(a, log[..|log| - 1]);
      RootOnPath(a, log[|log| - 1].node);
    }
  }

  /** Every rollout through a child also passes through its parent. */
  lemma {:induction false} ChildVisits(a: Arena, log: seq<Rollout>, c: nat, p: nat)
    requires LogNodes(a, log) && c < |a| && a[c].parent == Some(p) && p < c
    ensures Visits(a, log, c) <= Visits(a, log, p)
    decreases |log|
  {
    if |log| > 0 {
      ChildVisits(a, log[..|log| - 1], c, p);
      var x := log[|log| - 1].node;
      if c in Path(a, x) {
        PathClosed(a, x, c);
      }
    }
  }

  /** A parent has been visited at least as often as each child, so the UCB
      formula is only applied with a parent count of at least one. */
  lemma ChildVisitsBounded(st: State, lin: Kernel, env: Env, i: nat, j: nat)
    requires Inv(st, lin, env) && i < |st.tree| && j < |Kids(st.tree, i)|
    ensures st.tree[Kids(st.tree, i)[j]].n <= st.tree[i].n
    ensures st.tree[Kids(st.tree, i)[j]].n > 0 ==> st.tree[i].n >= 1
  {
    ChildVisits(st.tree, st.log, Kids(st.tree, i)[j], i);
  }

  /** The root's visit count is the number of successful rollouts. */
  lemma RootCountsRollouts(st: State, lin: Kernel, env: Env)
    requires Inv(st, lin, env)
    ensures st.tree[0].n == |st.log|
  {
    RootVisits(st.tree, st.log);
  }

  // ---------------------------------------------------------------------------
  // One iteration

  /** Appending uncredited nodes and changing only children lists keeps the accounting. */
  lemma AccountedStable(a: Arena, b: Arena, log: seq<Rollout>)
    requires LogNodes(a, log) && Accounted(a, log) && |a| <= |b|
    requires forall i :: 0 <= i < |a| ==> b[i].parent == a[i].parent && b[i].n == a[i].n && b[i].t == a[i].t
    requires forall i :: |a| <= i < |b| ==> b[i].n == 0 && b[i].t == 0.0
    ensures LogNodes(b, log) && Accounted(b, log)
  {
    forall i | 0 <= i < |b|
      ensures b[i].n == Visits(b, log, i) && b[i].t == Gain(b, log, i)
    {
      VisitsStable(a, b, log, i);
      if i >= |a| {
        VisitsAbove(a, log, i);
      }
    }
  }

  /** Logged nodes keep their kernels and stay expanded. */
  lemma LogFaithfulStable(a: Arena, b: Arena, log: seq<Rollout>)
    requires LogFaithful(a, log) && |a| <= |b|
    requires forall i :: 0 <= i < |a| ==>
      b[i].kernel == a[i].kernel && (a[i].children.Expanded? ==> b[i].children.Expanded?)
    ensures LogFaithful(b, log)
  {
  }

  /** The invariant survives a new tree that keeps every existing node's parent,
      statistics and kernel, never takes back an expansion, and only appends
      unvisited nodes. */
  lemma InvFrame(st: State, lin: Kernel, env: Env, b: Arena)
    requires Inv(st, lin, env) && Valid(b) && Kept(st.tree, b)
    requires forall i :: |st.tree| <= i < |b| ==> b[i].n == 0 && b[i].t == 0.0
    requires env.actions(lin) == [] ==> |b| == 1
    requires ActionsExtend(env) ==>
      forall i :: |st.tree| <= i < |b| ==> lin.appliedOpts <= b[i].kernel.appliedOpts
    ensures Inv(st.(tree := b), lin, env)
  {
    AccountedStable(st.tree, b, st.log);
    LogFaithfulStable(st.tree, b, st.log);
  }

  /** Expanding an unexpanded node keeps the invariant; that node was never logged. */
  lemma AfterExpand(st: State, lin: Kernel, env: Env, sel: nat)
    requires Inv(st, lin, env) && sel < |st.tree| && st.tree[sel].children.Unexpanded?
    ensures Inv(st.(tree := Expand(st.tree, sel, env.actions(st.tree[sel].kernel))), lin, env)
    ensures forall k :: 0 <= k < |st.log| ==> st.log[k].node != sel
  {
    var a := st.tree;
    var acts := env.actions(a[sel].kernel);
    var b := Expand(a, sel, acts);
    ExpandValid(a, sel, acts);
    if ActionsExtend(env) {
      forall i | |a| <= i < |b|
        ensures lin.appliedOpts <= b[i].kernel.appliedOpts
      {
        assert a[sel].kernel.appliedOpts <= acts[i - |a|].appliedOpts;
      }
    }
    InvFrame(st, lin, env, b);
  }

  /** Removing a node from its parent's children keeps the invariant. */
  lemma AfterPrune(st: State, lin: Kernel, env: Env, sel: nat)
    requires Inv(st, lin, env) && sel < |st.tree| && st.tree[sel].parent.Some?
    requires sel in Kids(st.tree, st.tree[sel].parent.value)
    ensures Inv(st.(tree := Prune(st.tree, sel)), lin, env)
  {
    var a := st.tree;
    var b := Prune(a, sel);
    PruneValid(a, sel);
    InvFrame(st, lin, env, b);
  }

  /** The best-result update of one successful rollout. */
  lemma BestUpdate(lin: Kernel, log: seq<Rollout>, best: Kernel, bestTm: Tm, r: Rollout)
    requires IsBest(lin, log, best, bestTm)
    ensures TmLess(Fin(r.tm), bestTm) ==> IsBest(lin, log + [r], r.kernel, Fin(r.tm))
    ensures !TmLess(Fin(r.tm), bestTm) ==> IsBest(lin, log + [r], best, bestTm)
  {
    var log' := log + [r];
    if TmLess(Fin(r.tm), bestTm) {
      assert log'[|log|].tm == r.tm && log'[|log|].kernel == r.kernel;
    } else {
      var k :| 0 <= k < |log| && log[k].tm == bestTm.v && log[k].kernel == best
                && forall j :: 0 <= j < k ==> bestTm.v < log[j].tm;
      assert log'[k] == log[k];
    }
  }

  /** Crediting the path of an expanded node keeps the arena well formed. */
  lemma CreditValid(a: Arena, sel: nat, tm: real, d: Arena)
    requires Valid(a) && sel < |a| && a[sel].children.Expanded?
    requires |d| == |a|
    requires forall i :: 0 <= i < |a| && i in Path(a, sel) ==> d[i] == Credit(a[i], tm)
    requires forall i :: 0 <= i < |a| && i !in Path(a, sel) ==> d[i] == a[i]
    ensures Valid(d)
    ensures forall i :: 0 <= i < |a| ==>
      d[i].parent == a[i].parent && d[i].children == a[i].children && d[i].kernel == a[i].kernel
  {
    PathExpanded(a, sel);
    assert forall i :: 0 <= i < |a| ==>
      d[i].parent == a[i].parent && d[i].children == a[i].children && d[i].kernel == a[i].kernel;
    assert forall i :: 0 <= i < |a| ==> Kids(d, i) == Kids(a, i);
  }

  /** Crediting the path of a node adds exactly one rollout to the accounting. */
  lemma CreditAccounted(a: Arena, log: seq<Rollout>, r: Rollout, d: Arena)
    requires LogNodes(a, log) && Accounted(a, log) && r.node < |a|
    requires |d| == |a|
    requires forall i :: 0 <= i < |a| ==> d[i].parent == a[i].parent
    requires forall i :: 0 <= i < |a| && i in Path(a, r.node) ==> d[i] == Credit(a[i], r.tm)
    requires forall i :: 0 <= i < |a| && i !in Path(a, r.node) ==> d[i] == a[i]
    ensures LogNodes(d, log + [r]) && Accounted(d, log + [r])
  {
    var log' := log + [r];
    assert log'[..|log|] == log;
    PathStable(a, d, r.node);
    forall i | 0 <= i < |d|
      ensures d[i].n == Visits(d, log', i) && d[i].t == Gain(d, log', i)
    {
      VisitsStable(a, d, log, i);
    }
  }

  /** Logging a rollout of a never logged expanded node keeps the log faithful. */
  lemma LogAppend(a: Arena, d: Arena, log: seq<Rollout>, r: Rollout)
    requires LogFaithful(a, log) && |a| == |d| && r.node < |a|
    requires forall i :: 0 <= i < |a| ==> d[i].kernel == a[i].kernel && d[i].children == a[i].children
    requires forall k :: 0 <= k < |log| ==> log[k].node != r.node
    requires r.kernel == a[r.node].kernel && a[r.node].children.Expanded? && r.tm > 0.0
    ensures LogFaithful(d, log + [r])
  {
    var log' := log + [r];
    forall j, k | 0 <= j < k < |log'|
      ensures log'[j].node != log'[k].node
    {
      if k < |log| {
        assert log'[j] == log[j] && log'[k] == log[k];
      }
    }
  }

  /** The facts a rollout of the freshly expanded, never logged node `sel` gives:
      `d` is the tree with `sel`'s path credited, and `best`/`bestTm` the best
      result after comparing the new time. */
  ghost predicate RolloutOf(st: State, sel: nat, tm: PosReal, d: Arena, best: Kernel, bestTm: Tm)
  {
    && sel < |st.tree| && st.tree[sel].children.Expanded?
    && (forall k :: 0 <= k < |st.log| ==> st.log[k].node != sel)
    && |d| == |st.tree|
    && (forall i :: 0 <= i < |st.tree| && i in Path(st.tree, sel) ==> d[i] == Credit(st.tree[i], tm))
    && (forall i :: 0 <= i < |st.tree| && i !in Path(st.tree, sel) ==> d[i] == st.tree[i])
    && (TmLess(Fin(tm), st.bestTm) ==> best == st.tree[sel].kernel && bestTm == Fin(tm))
    && (!TmLess(Fin(tm), st.bestTm) ==> best == st.best && bestTm == st.bestTm)
  }

  lemma RolloutTree(st: State, lin: Kernel, env: Env, sel: nat, tm: PosReal, d: Arena, best: Kernel, bestTm: Tm)
    requires Inv(st, lin, env) && RolloutOf(st, sel, tm, d, best, bestTm)
    ensures TreeInv(d, lin, env)
    ensures forall i :: 0 <= i < |d| ==> d[i].kernel == st.tree[i].kernel && d[i].children == st.tree[i].children
  {
    CreditValid(st.tree, sel, tm, d);
  }

  lemma RolloutLog(st: State, lin: Kernel, env: Env, sel: nat, tm: PosReal, d: Arena, best: Kernel, bestTm: Tm)
    requires Inv(st, lin, env) && RolloutOf(st, sel, tm, d, best, bestTm)
    requires forall i :: 0 <= i < |d| ==> d[i].kernel == st.tree[i].kernel && d[i].children == st.tree[i].children
    ensures LogInv(d, st.log + [Rollout(sel, st.tree[sel].kernel, tm)], lin, best, bestTm)
  {
    var r := Rollout(sel, st.tree[sel].kernel, tm);
    CreditAccounted(st.tree, st.log, r, d);
    BestUpdate(lin, st.log, st.best, st.bestTm, r);
    LogAppend(st.tree, d, st.log, r);
  }

  /** Crediting the path of a freshly expanded, never logged node keeps the invariant. */
  lemma AfterRollout(st: State, lin: Kernel, env: Env, sel: nat, tm: PosReal, d: Arena,
                     best: Kernel, bestTm: Tm)
    requires Inv(st, lin, env) && RolloutOf(st, sel, tm, d, best, bestTm)
    ensures Inv(State(d, best, bestTm, st.log + [Rollout(sel, st.tree[sel].kernel, tm)]), lin, env)
  {
    RolloutTree(st, lin, env, sel, tm, d, best, bestTm);
    RolloutLog(st, lin, env, sel, tm, d, best, bestTm);
  }
}
