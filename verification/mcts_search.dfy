/** The MCTS search driver: each iteration descends with UCB1, expands the node it
    reaches, compiles and times that node's own kernel, prunes it on a failed
    compilation or else records the best time and backpropagates the reward. A
    cached result for the same search key is replayed instead of searching. */
module MctsSearch {
  import opened Outcomes
  import opened MctsTree
  import opened MctsSelect
  import opened MctsAccount

  /** The early-stop bound handed to the timer: ten times the best time. */
  function EarlyStop(best: Tm): Tm
  {
    match best
    case Inf => Inf
    case Fin(v) => Fin(v * 10.0)
  }

  /** A failed compilation: the node leaves its parent's children (the root has no
      parent and stays), and no statistic, time or rollout is recorded. */
  method Discard(st: State, sel: nat, lin: Kernel, env: Env) returns (next: State)
    requires Inv(st, lin, env) && sel < |st.tree|
    requires st.tree[sel].parent.Some? ==> sel in Kids(st.tree, st.tree[sel].parent.value)
    ensures Inv(next, lin, env)
    ensures next.log == st.log && next.best == st.best && next.bestTm == st.bestTm
    ensures next.tree == if st.tree[sel].parent.Some? then Prune(st.tree, sel) else st.tree
    ensures |next.tree| == |st.tree| && Kept(st.tree, next.tree)
    ensures forall j :: 0 <= j < |st.tree| && st.tree[sel].parent != Some(j) ==> Kids(next.tree, j) == Kids(st.tree, j)
    ensures st.tree[sel].parent.Some? ==>
      var p := st.tree[sel].parent.value;
      p < |st.tree| && sel !in Kids(next.tree, p) && |Kids(next.tree, p)| == |Kids(st.tree, p)| - 1
  {
    if st.tree[sel].parent.None? {
      next := st;
      return;
    }
    var a := st.tree;
    AfterPrune(st, lin, env, sel);
    PruneValid(a, sel);
    PruneKept(a, sel);
    next := st.(tree := Prune(a, sel));
  }

  /** A successful compilation of the never logged node `sel`: its time is
      measured under the early-stop bound, the best result changes only on a
      strictly better time, the rollout is logged and its reward credited along
      the path to the root. Kernels, parents and children stay as they were. */
  method RollOut(st: State, sel: nat, iter: nat, lin: Kernel, env: Env) returns (next: State, tm: PosReal)
    requires Inv(st, lin, env) && sel < |st.tree| && st.tree[sel].children.Expanded?
    requires forall k :: 0 <= k < |st.log| ==> st.log[k].node != sel
    ensures Inv(next, lin, env)
    ensures tm == env.measure(iter, st.tree[sel].kernel, EarlyStop(st.bestTm))
    ensures next.log == st.log + [Rollout(sel, st.tree[sel].kernel, tm)]
    ensures TmLess(Fin(tm), st.bestTm) ==> next.best == st.tree[sel].kernel && next.bestTm == Fin(tm)
    ensures !TmLess(Fin(tm), st.bestTm) ==> next.best == st.best && next.bestTm == st.bestTm
    ensures next.tree == Credited(st.tree, sel, tm)
    ensures |next.tree| == |st.tree|
    ensures forall i :: 0 <= i < |st.tree| ==>
      next.tree[i].kernel == st.tree[i].kernel && next.tree[i].children == st.tree[i].children
  {
    var kernel := st.tree[sel].kernel;
    tm := env.measure(iter, kernel, EarlyStop(st.bestTm));
    var best, bestTm := st.best, st.bestTm;
    if TmLess(Fin(tm), bestTm) {
      best, bestTm := kernel, Fin(tm);
    }
    var d := Backprop(st.tree, sel, tm);
    assert RolloutOf(st, sel, tm, d, best, bestTm);
    AfterRollout(st, lin, env, sel, tm, d, best, bestTm);
    RolloutTree(st, lin, env, sel, tm, d, best, bestTm);
    next := State(d, best, bestTm, st.log + [Rollout(sel, kernel, tm)]);
  }

  /** The unexpanded node `sel` gets one unvisited child per legal action. It
      stays listed under its parent, and it was never rolled out before. */
  method Grow(st: State, sel: nat, lin: Kernel, env: Env) returns (next: State)
    requires Inv(st, lin, env) && sel < |st.tree| && st.tree[sel].children.Unexpanded?
    requires st.tree[sel].parent.Some? ==> sel in Kids(st.tree, st.tree[sel].parent.value)
    ensures Inv(next, lin, env)
    ensures next.log == st.log && next.best == st.best && next.bestTm == st.bestTm
    ensures next.tree == Expand(st.tree, sel, env.actions(st.tree[sel].kernel))
    ensures |next.tree| == |st.tree| + |env.actions(st.tree[sel].kernel)| && Kept(st.tree, next.tree)
    ensures next.tree[sel].children.Expanded? && |Kids(next.tree, sel)| == |env.actions(st.tree[sel].kernel)|
    ensures next.tree[sel].parent.Some? ==> sel in Kids(next.tree, next.tree[sel].parent.value)
    ensures forall k :: 0 <= k < |st.log| ==> st.log[k].node != sel
  {
    var a := st.tree;
    var b := Expand(a, sel, env.actions(a[sel].kernel));
    AfterExpand(st, lin, env, sel);
    ExpandValid(a, sel, env.actions(a[sel].kernel));
    if b[sel].parent.Some? {
      assert Kids(b, b[sel].parent.value) == Kids(a, a[sel].parent.value);
    }
    next := st.(tree := b);
  }

  /** Reference definition of one iteration once the descent has reached the
      unexpanded node `sel`: the node gets one child per action and its own
      kernel is compiled. A failure takes the node out of its parent's children
      and records nothing. A success times the kernel at iteration `iter` under
      ten times the best time, logs the rollout, makes it the best on a strictly
      smaller time, and credits every node from it up to the root. */
  ghost function Iterate(st: State, sel: nat, iter: nat, env: Env): State
    requires ParentsBefore(st.tree) && sel < |st.tree|
    requires st.tree[sel].parent.Some? ==> sel in Kids(st.tree, st.tree[sel].parent.value)
  {
    var k := st.tree[sel].kernel;
    var grown := Expand(st.tree, sel, env.actions(k));
    if !env.compiles(k) then
      st.(tree := if st.tree[sel].parent.Some? then Prune(grown, sel) else grown)
    else
      var tm := env.measure(iter, k, EarlyStop(st.bestTm));
      var better := TmLess(Fin(tm), st.bestTm);
      State(Credited(grown, sel, tm),
            if better then k else st.best,
            if better then Fin(tm) else st.bestTm,
            st.log + [Rollout(sel, k, tm)])
  }

  /** In the reference iteration the old log stays a prefix: a failed compile
      adds nothing and keeps the best result, a compile adds exactly the rollout
      timed at this iteration under ten times the old best time. The best time
      never goes up. */
  lemma IterateLog(st: State, sel: nat, iter: nat, env: Env)
    requires ParentsBefore(st.tree) && sel < |st.tree|
    requires st.tree[sel].parent.Some? ==> sel in Kids(st.tree, st.tree[sel].parent.value)
    ensures var next := Iterate(st, sel, iter, env);
      var k := st.tree[sel].kernel;
      && (!env.compiles(k) ==> next.log == st.log && next.best == st.best && next.bestTm == st.bestTm)
      && (env.compiles(k) ==>
            next.log == st.log + [Rollout(sel, k, env.measure(iter, k, EarlyStop(st.bestTm)))])
      && !TmLess(st.bestTm, next.bestTm)
  {
  }

  /** The unexpanded node `sel` is expanded and its own kernel compiled; a
      failure discards it and a success rolls it out. The result is the
      reference iteration, and it keeps the search invariant. */
  method Visit(st: State, sel: nat, iter: nat, lin: Kernel, env: Env) returns (next: State)
    requires Inv(st, lin, env) && sel < |st.tree| && st.tree[sel].children.Unexpanded?
    requires st.tree[sel].parent.Some? ==> sel in Kids(st.tree, st.tree[sel].parent.value)
    ensures Inv(next, lin, env)
    ensures next == Iterate(st, sel, iter, env)
    ensures |next.tree| == |st.tree| + |env.actions(st.tree[sel].kernel)|
    ensures next.tree[sel].children.Expanded? && |Kids(next.tree, sel)| == |env.actions(st.tree[sel].kernel)|
  {
    var expanded := Grow(st, sel, lin, env);
    if !env.compiles(st.tree[sel].kernel) {
      assert expanded.tree[sel].parent != Some(sel);
      next := Discard(expanded, sel, lin, env);
    } else {
      var tm;
      next, tm := RollOut(expanded, sel, iter, lin, env);
    }
  }

  /** The descent reaches the unexpanded node `sel` of a well-formed tree,
      listed among its parent's children. */
  ghost predicate Selects(st: State, ucb: Ucb, sel: nat)
  {
    && Valid(st.tree) && sel < |st.tree|
    && Followed(st.tree, ucb, sel) && st.tree[sel].children.Unexpanded?
    && (st.tree[sel].parent.Some? ==>
          st.tree[sel].parent.value < |st.tree| && sel in Kids(st.tree, st.tree[sel].parent.value))
  }

  /** The descent reaches a node whose child list is empty, and the search ends. */
  ghost predicate DeadEnd(st: State, ucb: Ucb)
  {
    && Valid(st.tree)
    && exists sel :: 0 <= sel < |st.tree| && Followed(st.tree, ucb, sel) && st.tree[sel].children == Expanded([])
  }

  /** One iteration of the search loop. `sel` is the node the UCB1 descent
      reached. When it is expanded with no children the loop ends (`stop`) and
      nothing changes; otherwise it was unexpanded and the iteration is the
      reference one at `sel`. */
  method Step(st: State, iter: nat, lin: Kernel, env: Env) returns (next: State, stop: bool, sel: nat)
    requires Inv(st, lin, env)
    ensures Inv(next, lin, env)
    ensures sel < |st.tree| <= |next.tree|
    ensures Followed(st.tree, env.ucb, sel)
    ensures stop <==> st.tree[sel].children == Expanded([])
    ensures stop ==> next == st && DeadEnd(st, env.ucb)
    ensures !stop ==> Passed(Iteration(st, sel, next), iter, env)
    ensures !stop ==> |next.tree| == |st.tree| + |env.actions(st.tree[sel].kernel)|
    ensures !stop ==> next.tree[sel].children.Expanded? && |Kids(next.tree, sel)| == |env.actions(st.tree[sel].kernel)|
    ensures !stop && !env.compiles(st.tree[sel].kernel) ==> next.log == st.log && next.best == st.best
    ensures !stop && env.compiles(st.tree[sel].kernel) ==>
      var k := st.tree[sel].kernel;
      next.log == st.log + [Rollout(sel, k, env.measure(iter, k, EarlyStop(st.bestTm)))]
    ensures !TmLess(st.bestTm, next.bestTm)
  {
    sel := Descend(st.tree, env.ucb);
    stop := st.tree[sel].children.Expanded?;
    if stop {
      next := st;
    } else {
      next := Visit(st, sel, iter, lin, env);
      IterateLog(st, sel, iter, env);
    }
  }

  // ---------------------------------------------------------------------------
  // The search loop

  /** The state a search starts from: the root alone, holding `lin`, which is the
      best kernel so far with an infinite time, and nothing logged. */
  function Initial(lin: Kernel): State
  {
    State([NewNode(lin, None)], lin, Inf, [])
  }

  /** One pass of the loop that did not end it: the state before it, the node
      the descent reached, and the state after it. */
  datatype Iteration = Iteration(before: State, sel: nat, after: State)

  /** A finished search: its final state, its passes in order, and whether it
      ended early at a node with no children. */
  datatype Run = Run(final: State, trace: seq<Iteration>, stopped: bool)

  /** The passes `tr` ran one after the other from the initial state for `lin`,
      the `j`-th as iteration `j` on the node the descent reached, and ended in
      `cur`. */
  ghost predicate Traced(lin: Kernel, env: Env, tr: seq<Iteration>, cur: State)
    decreases |tr|
  {
    if |tr| == 0 then cur == Initial(lin)
    else
      var it := tr[|tr| - 1];
      Traced(lin, env, tr[..|tr| - 1], it.before) && Passed(it, |tr| - 1, env) && it.after == cur
  }

  /** Pass `it` ran as iteration `iter`: the descent reached its node, and its
      after-state is the reference iteration's. */
  ghost predicate Passed(it: Iteration, iter: nat, env: Env)
  {
    Selects(it.before, env.ucb, it.sel) && it.after == Iterate(it.before, it.sel, iter, env)
  }

  /** The rollouts the passes `tr` log, in order: one for each pass whose node
      compiles, timed at that pass's iteration under ten times the best time
      before it. */
  ghost function Logged(tr: seq<Iteration>, env: Env): seq<Rollout>
    decreases |tr|
  {
    if |tr| == 0 then []
    else
      var it := tr[|tr| - 1];
      var rest := Logged(tr[..|tr| - 1], env);
      if it.sel < |it.before.tree| && env.compiles(it.before.tree[it.sel].kernel) then
        var k := it.before.tree[it.sel].kernel;
        rest + [Rollout(it.sel, k, env.measure(|tr| - 1, k, EarlyStop(it.before.bestTm)))]
      else rest
  }

  /** `r` is a run of the loop for `amt` iterations from a root holding `lin`:
      its passes are traced from the initial state, and it either made all
      `amt` passes or stopped earlier where the descent found no children. */
  ghost predicate Ran(lin: Kernel, amt: int, env: Env, r: Run)
  {
    && Traced(lin, env, r.trace, r.final)
    && (!r.stopped ==> |r.trace| == (if amt < 0 then 0 else amt))
    && (r.stopped ==> |r.trace| < amt && DeadEnd(r.final, env.ucb))
  }

  lemma TracedStep(lin: Kernel, env: Env, tr: seq<Iteration>, it: Iteration)
    requires Traced(lin, env, tr, it.before) && Passed(it, |tr|, env)
    ensures Traced(lin, env, tr + [it], it.after)
  {
    assert (tr + [it])[..|tr|] == tr;
  }

  lemma LoggedStep(tr: seq<Iteration>, it: Iteration, env: Env)
    requires it.sel < |it.before.tree|
    ensures var k := it.before.tree[it.sel].kernel;
      Logged(tr + [it], env) == Logged(tr, env) +
        (if env.compiles(k) then [Rollout(it.sel, k, env.measure(|tr|, k, EarlyStop(it.before.bestTm)))] else [])
  {
    assert (tr + [it])[..|tr|] == tr;
  }

  /** What holds between the passes of the loop: the search invariant, the
      passes so far traced from the initial state, the log made of their
      measured rollouts, the root unexpanded before the first pass, and a root
      without actions left with an empty child list after it. */
  ghost predicate Between(lin: Kernel, env: Env, tr: seq<Iteration>, st: State)
  {
    && Inv(st, lin, env)
    && Traced(lin, env, tr, st)
    && st.log == Logged(tr, env)
    && (|tr| == 0 ==> st.tree[0].children.Unexpanded?)
    && (env.actions(lin) == [] && |tr| > 0 ==> st.tree[0].children == Expanded([]))
  }

  /** One turn of the loop after the passes `tr`: either the descent found no
      children and the loop ends, or one more pass is made from `st`. A root
      without actions ends the loop on the second turn. */
  method Turn(st: State, tr: seq<Iteration>, lin: Kernel, env: Env) returns (it: Iteration, stop: bool)
    requires Between(lin, env, tr, st)
    ensures stop ==> DeadEnd(st, env.ucb)
    ensures !stop ==> it.before == st && Between(lin, env, tr + [it], it.after)
    ensures env.actions(lin) == [] && |tr| > 0 ==> stop
  {
    var next, sel;
    next, stop, sel := Step(st, |tr|, lin, env);
    it := Iteration(st, sel, next);
    if !stop {
      TracedStep(lin, env, tr, it);
      LoggedStep(tr, it, env);
      if env.actions(lin) == [] {
        assert Kids(next.tree, 0) == [];
      }
    }
  }

  /** Runs up to `amt` iterations from a root holding `lin`, ending early when the
      descent reaches a node with no children. Each pass is recorded: it starts
      where the last ended, it expands and compiles the node the UCB1 descent
      reached, and the log holds exactly the measured rollouts of the passes
      whose node compiled. Every successful rollout is counted at the root; the
      best kernel is the first with the minimum time, or `lin` when nothing was
      timed; and a kernel with no legal actions comes back unchanged, after one
      iteration that rolls out the root itself. */
  method Search(lin: Kernel, amt: int, env: Env) returns (r: Run)
    ensures Ran(lin, amt, env, r)
    ensures r.final.log == Logged(r.trace, env)
    ensures Inv(r.final, lin, env)
    ensures r.final.tree[0].n == |r.final.log|
    ensures IsBest(lin, r.final.log, r.final.best, r.final.bestTm)
    ensures |r.final.log| == 0 ==> r.final.best == lin
    ensures env.actions(lin) == [] ==>
      r.final.best == lin && |r.final.log| <= 1 && (amt >= 2 ==> r.stopped && |r.trace| == 1)
  {
    var st := Initial(lin);
    RootOnlyValid(lin);
    var trace: seq<Iteration> := [];
    var stopped := false;
    while |trace| < amt
      invariant Between(lin, env, trace, st)
      invariant |trace| == 0 || |trace| <= amt
      invariant !stopped
      invariant env.actions(lin) == [] ==> |trace| <= 1
      decreases amt - |trace|
    {
      var it, stop := Turn(st, trace, lin, env);
      if stop {
        stopped := true;
        break;
      }
      trace := trace + [it];
      st := it.after;
    }
    RootCountsRollouts(st, lin, env);
    if env.actions(lin) == [] {
      NoActionsBest(st, lin, env);
    }
    r := Run(st, trace, stopped);
  }

  // ---------------------------------------------------------------------------
  // The result cache

  datatype SearchKey = SearchKey(ast: string, amt: int, device: string, suffix: string)

  type Cache = map<SearchKey, seq<Opt>>

  /** The cache level and whether reading the cache is switched off. */
  datatype CacheConfig = CacheConfig(cacheLevel: int, ignoreBeamCache: bool)

  function KeyOf(lin: Kernel, amt: int): SearchKey
  {
    SearchKey(lin.astKey, amt, lin.device, lin.suffix)
  }

  predicate CacheHit(cfg: CacheConfig, cache: Cache, key: SearchKey)
  {
    !cfg.ignoreBeamCache && cfg.cacheLevel >= 1 && key in cache
  }

  /** Applying optimisations one at a time appends them, in order, to the
      kernel's applied list. */
  function ApplyOpts(k: Kernel, os: seq<Opt>): (r: Kernel)
    ensures r == k.(appliedOpts := k.appliedOpts + os)
    decreases |os|
  {
    if |os| == 0 then k
    else
      var r := ApplyOpts(k.(appliedOpts := k.appliedOpts + [os[0]]), os[1..]);
      assert k.appliedOpts + [os[0]] + os[1..] == k.appliedOpts + os;
      r
  }

  /** A copy of `lin` with the cached optimisations beyond `lin`'s own count
      applied, whatever `lin`'s own optimisations are. When the cached list extends `lin`'s, the result carries exactly
      the cached list; when it is no longer than `lin`'s, the copy is unchanged. */
  function Replay(lin: Kernel, cached: seq<Opt>): (r: Kernel)
    ensures r.astKey == lin.astKey && r.device == lin.device && r.suffix == lin.suffix
    ensures r == lin.(appliedOpts := lin.appliedOpts +
      (if |lin.appliedOpts| < |cached| then cached[|lin.appliedOpts|..] else []))
    ensures lin.appliedOpts <= r.appliedOpts
    ensures lin.appliedOpts <= cached ==> r.appliedOpts == cached
    ensures |cached| <= |lin.appliedOpts| ==> r == lin
  {
    var n := |lin.appliedOpts|;
    var r := ApplyOpts(lin, if n < |cached| then cached[n..] else []);
    assert lin.appliedOpts <= cached ==> cached == lin.appliedOpts + cached[n..];
    r
  }

  /** The whole search. On a cache hit the cached optimisations are replayed and
      no tree is built. Otherwise the search loop runs, and `run` is that run:
      its passes, its final state and whether it stopped early. Its best kernel
      is returned and, when caching is on, its applied optimisations are stored
      under the search key, so that a later cached call replays to the same
      optimisations. */
  method MctsSearch(lin: Kernel, amt: int, env: Env, cfg: CacheConfig, cache: Cache)
    returns (out: Kernel, cache': Cache, run: Option<Run>)
    ensures CacheHit(cfg, cache, KeyOf(lin, amt)) ==>
      out == Replay(lin, cache[KeyOf(lin, amt)]) && cache' == cache && run.None?
    ensures !CacheHit(cfg, cache, KeyOf(lin, amt)) ==>
      && run.Some? && Ran(lin, amt, env, run.value)
      && run.value.final.log == Logged(run.value.trace, env)
      && Inv(run.value.final, lin, env) && out == run.value.final.best
      && run.value.final.tree[0].n == |run.value.final.log|
      && (|run.value.final.log| == 0 ==> out == lin)
      && (cfg.cacheLevel >= 1 ==> cache' == cache[KeyOf(lin, amt) := out.appliedOpts])
      && (cfg.cacheLevel < 1 ==> cache' == cache)
    ensures !CacheHit(cfg, cache, KeyOf(lin, amt)) && cfg.cacheLevel >= 1 && ActionsExtend(env) ==>
      && CacheHit(cfg.(ignoreBeamCache := false), cache', KeyOf(lin, amt))
      && Replay(lin, cache'[KeyOf(lin, amt)]).appliedOpts == out.appliedOpts
  {
    var key := KeyOf(lin, amt);
    if CacheHit(cfg, cache, key) {
      return Replay(lin, cache[key]), cache, None;
    }
    var r := Search(lin, amt, env);
    out := r.final.best;
    if ActionsExtend(env) {
      BestInTree(r.final, lin, env);
    }
    cache' := if cfg.cacheLevel >= 1 then cache[key := out.appliedOpts] else cache;
    run := Some(r);
  }

  /** The best kernel is the input or one of the tree's kernels, so when every
      action extends the applied optimisations, it extends `lin`'s. */
  lemma BestInTree(st: State, lin: Kernel, env: Env)
    requires Inv(st, lin, env) && ActionsExtend(env)
    ensures lin.appliedOpts <= st.best.appliedOpts
  {
    if |st.log| > 0 {
      var k :| 0 <= k < |st.log| && st.log[k].tm == st.bestTm.v && st.log[k].kernel == st.best
                && forall j :: 0 <= j < k ==> st.bestTm.v < st.log[j].tm;
      assert st.tree[st.log[k].node].kernel == st.best;
    }
  }
}
