/** The graph helpers of the rewrite viewer: turning an operation DAG into the
    JSON graph the browser draws, and rebuilding a DAG through a map of
    replacements.

    Operation nodes are hash-consed: two nodes with the same operation, dtype,
    argument and sources are one object. Object identity, which the viewer uses
    as a node id, is therefore structural equality, and the model uses the node
    value itself as its id. */
module VizUop {

  datatype Op = Const | Named(name: string)

  /** An operation node: its operation, its dtype and argument as text, and its
      sources in order. */
  datatype UOp = UOp(op: Op, dtype: string, arg: string, src: seq<UOp>)

  /** Every node reachable from `u` through sources, `u` included: the nodes of
      `u.toposort`, whose order the model does not keep. */
  function Nodes(u: UOp): set<UOp>
  {
    {u} + (set s, v | s in u.src && v in Nodes(s) :: v)
  }

  /** The nodes of a node's source are nodes of the node. */
  lemma SourceNodes(u: UOp, s: UOp)
    requires s in u.src
    ensures Nodes(s) <= Nodes(u)
  {
  }

  /** The node set is closed under taking sources. */
  lemma {:induction false} NodesClosed(x: UOp, u: UOp, s: UOp)
    requires u in Nodes(x) && s in u.src
    ensures s in Nodes(x)
  {
    if u == x {
      assert s in Nodes(s);
      SourceNodes(x, s);
    } else {
      var c :| c in x.src && u in Nodes(c);
      NodesClosed(c, u, s);
      SourceNodes(x, c);
    }
  }

  // ---------------------------------------------------------------------------
  // uop_to_json

  /** A `CONST<idx> <value>` line of a label: a CONST source shown inline. */
  datatype ConstLine = ConstLine(idx: nat, value: string)

  /** One node of the JSON graph. The label is kept as its parts (operation,
      argument, dtype and the CONST lines); the ids of the non-CONST sources
      are the edges. */
  datatype Entry = Entry(op: Op, dtype: string, srcs: seq<UOp>, arg: string, consts: seq<ConstLine>, color: string)

  /** The colour table, by operation; an operation not in it is drawn white. */
  function ColorOf(colors: map<Op, string>, op: Op): string
  {
    if op in colors then colors[op] else "#ffffff"
  }

  /** The sources from position `i` on that are not CONST, in order. */
  function SrcIds(ss: seq<UOp>, i: nat): (r: seq<UOp>)
    requires i <= |ss|
    ensures forall v :: v in r <==> exists j :: i <= j < |ss| && ss[j] == v && v.op != Const
    decreases |ss| - i
  {
    if i == |ss| then []
    else
      var rest := SrcIds(ss, i + 1);
      if ss[i].op == Const then rest else [ss[i]] + rest
  }

  /** The label lines for the CONST sources from position `i` on, in order. */
  function ConstLines(ss: seq<UOp>, i: nat): (r: seq<ConstLine>)
    requires i <= |ss|
    ensures |r| + |SrcIds(ss, i)| == |ss| - i
    ensures forall l :: l in r ==> i <= l.idx < |ss| && ss[l.idx].op == Const && ss[l.idx].arg == l.value
    ensures forall j :: i <= j < |ss| && ss[j].op == Const ==> ConstLine(j, ss[j].arg) in r
    decreases |ss| - i
  {
    if i == |ss| then []
    else
      var rest := ConstLines(ss, i + 1);
      if ss[i].op == Const then [ConstLine(i, ss[i].arg)] + rest else rest
  }

  function EntryOf(u: UOp, colors: map<Op, string>): Entry
  {
    Entry(u.op, u.dtype, SrcIds(u.src, 0), u.arg, ConstLines(u.src, 0), ColorOf(colors, u.op))
  }

  lemma NodesClosedAll(x: UOp)
    ensures forall u, s :: u in Nodes(x) && s in u.src ==> s in Nodes(x)
  {
    forall u, s | u in Nodes(x) && s in u.src
      ensures s in Nodes(x)
    {
      NodesClosed(x, u, s);
    }
  }

  /** The JSON graph of `x`: one entry per non-CONST node reachable from `x`.
      No entry is a CONST and no edge points at one, every edge points at an
      entry, and each CONST source is shown in its user's label instead. */
  function UopToJson(x: UOp, colors: map<Op, string>): (g: map<UOp, Entry>)
    ensures forall u :: u in g <==> u in Nodes(x) && u.op != Const
    ensures forall u, s :: u in g && s in g[u].srcs ==> s in u.src && s in g
    ensures forall u :: u in g ==> g[u].dtype == u.dtype && g[u].arg == u.arg && g[u].op == u.op
    ensures forall u :: u in g ==> |g[u].srcs| + |g[u].consts| == |u.src|
    ensures forall u, l :: u in g && l in g[u].consts ==>
      l.idx < |u.src| && u.src[l.idx].op == Const && u.src[l.idx].arg == l.value
    ensures forall u, j :: u in g && 0 <= j < |u.src| && u.src[j].op == Const ==> ConstLine(j, u.src[j].arg) in g[u].consts
  {
    NodesClosedAll(x);
    map u | u in Nodes(x) && u.op != Const :: EntryOf(u, colors)
  }

  // ---------------------------------------------------------------------------
  // _replace_uop

  /** `m2` keeps every entry of `m1`. */
  ghost predicate Extends(m1: map<UOp, UOp>, m2: map<UOp, UOp>)
  {
    forall k :: k in m1 ==> k in m2 && m2[k] == m1[k]
  }

  /** Rebuilds `base` through the replacement map `memo`, which every call may
      add to and which is threaded through the sources left to right. A node
      already in the map is answered from it; otherwise its sources are rebuilt,
      and the rebuilt node is answered from the map if it is a key there, or
      else recorded as the answer for `base`. Returns the node and the map. */
  function ReplaceUop(base: UOp, memo: map<UOp, UOp>): (r: (UOp, map<UOp, UOp>))
    ensures base in memo ==> r == (memo[base], memo)
    ensures Extends(memo, r.1)
    ensures forall k :: k in r.1 && k !in memo ==> k in Nodes(base)
    decreases base, 1
  {
    if base in memo then (memo[base], memo)
    else
      var (srcs, m1) := ReplaceSrcs(base, 0, [], memo);
      var ret := base.(src := srcs);
      if ret in m1 then (m1[ret], m1) else (ret, m1[base := ret])
  }

  /** Rebuilds the sources of `base` from position `k` on, appending them to `acc`. */
  function ReplaceSrcs(base: UOp, k: nat, acc: seq<UOp>, memo: map<UOp, UOp>): (r: (seq<UOp>, map<UOp, UOp>))
    requires k <= |base.src|
    ensures |r.0| == |acc| + |base.src| - k && r.0[..|acc|] == acc
    ensures Extends(memo, r.1)
    ensures forall key :: key in r.1 && key !in memo ==> key in Nodes(base)
    decreases base, 0, |base.src| - k
  {
    if k == |base.src| then (acc, memo)
    else
      var (u, m) := ReplaceUop(base.src[k], memo);
      SourceNodes(base, base.src[k]);
      var r := ReplaceSrcs(base, k + 1, acc + [u], m);
      assert (acc + [u])[..|acc|] == acc;
      assert r.0[..|acc|] == r.0[..|acc| + 1][..|acc|];
      r
  }

  /** The viewer's call: a copy of the replacement map is used, so only the
      rebuilt node is kept. */
  function Rewrite(sink: UOp, repl: map<UOp, UOp>): UOp
  {
    ReplaceUop(sink, repl).0
  }

  /** Reference definition: the substitution of the map into `u`, replacing each
      outermost key by its value. */
  function Subst(u: UOp, rs: map<UOp, UOp>): UOp
    decreases u
  {
    if u in rs then rs[u]
    else u.(src := seq(|u.src|, j requires 0 <= j < |u.src| => Subst(u.src[j], rs)))
  }

  /** No node of `w` is a key that the map sends elsewhere. */
  ghost predicate Settled(rs: map<UOp, UOp>, w: UOp)
  {
    forall v :: v in Nodes(w) && v in rs ==> rs[v] == v
  }

  /** Every entry of `m` is the substitution of its key. */
  ghost predicate Consistent(m: map<UOp, UOp>, rs: map<UOp, UOp>)
  {
    forall k :: k in m ==> m[k] == Subst(k, rs)
  }

  ghost predicate Covers(m: map<UOp, UOp>, rs: map<UOp, UOp>)
  {
    forall k :: k in rs ==> k in m
  }

  /** Substitution leaves a settled node as it is. */
  lemma {:induction false} SubstSettled(w: UOp, rs: map<UOp, UOp>)
    requires Settled(rs, w)
    ensures Subst(w, rs) == w
    decreases w
  {
    assert w in Nodes(w);
    if w !in rs {
      forall j | 0 <= j < |w.src|
        ensures Subst(w.src[j], rs) == w.src[j]
      {
        SourceNodes(w, w.src[j]);
        SubstSettled(w.src[j], rs);
      }
      assert Subst(w, rs).src == w.src;
    }
  }

  /** The rebuilt sources are the substituted sources, and the map stays consistent. */
  lemma {:induction false} ReplaceSrcsSubst(base: UOp, k: nat, acc: seq<UOp>, m: map<UOp, UOp>, rs: map<UOp, UOp>)
    requires k <= |base.src| && base !in rs
    requires |acc| == k && forall j :: 0 <= j < k ==> acc[j] == Subst(base.src[j], rs)
    requires Covers(m, rs) && Consistent(m, rs) && Settled(rs, Subst(base, rs))
    ensures ReplaceSrcs(base, k, acc, m).0 == Subst(base, rs).src
    ensures Consistent(ReplaceSrcs(base, k, acc, m).1, rs)
    decreases base, 0, |base.src| - k
  {
    if k < |base.src| {
      var (u, m1) := ReplaceUop(base.src[k], m);
      ReplaceSrcStep(base, k, acc, m, rs);
      ReplaceSrcsSubst(base, k + 1, acc + [u], m1, rs);
    }
  }

  /** Rebuilding source `k` keeps the requirements of the rebuild for one more source. */
  lemma {:induction false} ReplaceSrcStep(base: UOp, k: nat, acc: seq<UOp>, m: map<UOp, UOp>, rs: map<UOp, UOp>)
    requires k < |base.src| && base !in rs
    requires |acc| == k && forall j :: 0 <= j < k ==> acc[j] == Subst(base.src[j], rs)
    requires Covers(m, rs) && Consistent(m, rs) && Settled(rs, Subst(base, rs))
    ensures var (u, m1) := ReplaceUop(base.src[k], m);
      && (forall j :: 0 <= j < k + 1 ==> (acc + [u])[j] == Subst(base.src[j], rs))
      && Covers(m1, rs) && Consistent(m1, rs)
    decreases base, 0, |base.src| - k - 1
  {
    var sub := Subst(base, rs);
    var c := base.src[k];
    assert sub.src[k] == Subst(c, rs);
    SourceNodes(sub, sub.src[k]);
    ReplaceSubst(c, m, rs);
    var (u, m1) := ReplaceUop(c, m);
    var acc1 := acc + [u];
    forall j | 0 <= j < k + 1
      ensures acc1[j] == Subst(base.src[j], rs)
    {
      if j < k {
        assert acc1[j] == acc[j];
      }
    }
  }

  /** `_replace_uop` computes the substitution of the map whenever the result
      is settled, and leaves the map consistent with it. */
  lemma {:induction false} ReplaceSubst(base: UOp, m: map<UOp, UOp>, rs: map<UOp, UOp>)
    requires Covers(m, rs) && Consistent(m, rs) && Settled(rs, Subst(base, rs))
    ensures ReplaceUop(base, m).0 == Subst(base, rs)
    ensures Consistent(ReplaceUop(base, m).1, rs) && Covers(ReplaceUop(base, m).1, rs)
    decreases base, 1
  {
    if base !in m {
      ReplaceSrcsSubst(base, 0, [], m, rs);
      var (srcs, m1) := ReplaceSrcs(base, 0, [], m);
      var ret := base.(src := srcs);
      assert ret == Subst(base, rs);
      if ret in m1 {
        SubstSettled(ret, rs);
      }
    }
  }

  /** The viewer's rewrite of a sink is the substitution of the replacement
      map into it, when that substitution is settled. */
  lemma RewriteIsSubst(sink: UOp, repl: map<UOp, UOp>)
    requires Settled(repl, Subst(sink, repl))
    ensures Rewrite(sink, repl) == Subst(sink, repl)
  {
    ReplaceSubst(sink, repl, repl);
  }

  /** A second call with the map the first call left behind gives the same node. */
  lemma ReplaceTwice(base: UOp, m: map<UOp, UOp>)
    requires Settled(m, Subst(base, m))
    ensures ReplaceUop(base, ReplaceUop(base, m).1).0 == ReplaceUop(base, m).0
  {
    ReplaceSubst(base, m, m);
    ReplaceSubst(base, ReplaceUop(base, m).1, m);
  }

  /** A map that sends every node of the sink to itself, or does not mention
      it, rebuilds the sink unchanged. */
  lemma RewriteNoop(sink: UOp, repl: map<UOp, UOp>)
    requires Settled(repl, sink)
    ensures Rewrite(sink, repl) == sink
  {
    SubstSettled(sink, repl);
    RewriteIsSubst(sink, repl);
  }
}
