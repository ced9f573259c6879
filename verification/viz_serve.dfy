/** The rewrite viewer's server-side helpers: the exception guard around
    rendering, the step-by-step graphs of one tracked graph rewrite, and the
    routing decision of the GET handler. */
module VizServe {
  import opened Outcomes
  import opened VizUop

  /** `pcall`: a renderer either returns its text or raises an `Exception` with a message; the
      guard returns the text, or the message behind an `ERROR: ` prefix, and
      never raises itself. The message can be read back from the result. */
  function PCall(out: Result<string, string>): (s: string)
    ensures out.Ok? ==> s == out.value
    ensures out.Err? ==> |s| >= 7 && s[..7] == "ERROR: " && s[7..] == out.error
  {
    match out
    case Ok(text) => text
    case Err(msg) => "ERROR: " + msg
  }

  // ---------------------------------------------------------------------------
  // tracked_matches_to_json

  /** One match of a tracked rewrite: the node matched, the node it was
      rewritten to (none when the pattern declined), and the pattern's source
      location. */
  datatype Match = Match(before: UOp, after: Option<UOp>, loc: string)

  /** What the rewrite was tracked under: a kernel, whose program source is
      rendered (possibly raising), or anything else. */
  datatype Key = KernelKey(program: Result<string, string>) | OtherKey(name: string)

  /** The two renderings a diff is computed from; the diff text itself is not
      modelled. */
  datatype Diff = Diff(before: string, after: string)

  datatype Tracked = Tracked(changedNodes: seq<set<UOp>>, diffs: seq<Diff>, graphs: seq<map<UOp, Entry>>, kernelCode: Option<string>)

  /** The sanity check: a rewrite left the whole sink as it was. */
  datatype RewriteError = SinkUnchanged(index: nat, loc: string)

  /** Reference definition: the matches that rewrote something, in order. */
  function Rewrites(ms: seq<Match>): (r: seq<Match>)
    ensures |r| <= |ms|
    ensures forall j :: 0 <= j < |r| ==> r[j].after.Some?
    ensures (forall j :: 0 <= j < |ms| ==> ms[j].after.None?) ==> r == []
  {
    if |ms| == 0 then []
    else Rewrites(ms[..|ms| - 1]) + (if ms[|ms| - 1].after.Some? then [ms[|ms| - 1]] else [])
  }

  /** The replacement map after the matches `ms`: each match maps its node to
      its rewrite, or to itself when it declined, and a later match of the same
      node overrides an earlier one. */
  function ReplOf(ms: seq<Match>): map<UOp, UOp>
    decreases |ms|
  {
    if |ms| == 0 then map[]
    else
      var m := ms[|ms| - 1];
      ReplOf(ms[..|ms| - 1])[m.before := if m.after.Some? then m.after.value else m.before]
  }

  /** Reference definition: the successive sinks of a replay of `ms` over
      `sink`. Each rewrite rebuilds the current sink through the replacement
      map as it stands after that rewrite; a declined match adds no sink. */
  function Sinks(sink: UOp, ms: seq<Match>): (r: seq<UOp>)
    ensures |r| >= 1 && r[0] == sink
    decreases |ms|
  {
    if |ms| == 0 then [sink]
    else
      var prev := Sinks(sink, ms[..|ms| - 1]);
      if ms[|ms| - 1].after.None? then prev
      else prev + [Rewrite(prev[|prev| - 1], ReplOf(ms))]
  }

  /** The sink after the matches `ms`. */
  function Current(sink: UOp, ms: seq<Match>): UOp
  {
    var r := Sinks(sink, ms);
    r[|r| - 1]
  }

  /** Match `i` is a rewrite, and rebuilding the current sink through the map
      after it gives the current sink back: the sanity check fails there. */
  predicate Stalls(sink: UOp, ms: seq<Match>, i: int)
  {
    && 0 <= i < |ms| && ms[i].after.Some?
    && Rewrite(Current(sink, ms[..i]), ReplOf(ms[..i + 1])) == Current(sink, ms[..i])
  }

  /** How the rewrites, the map and the sinks grow by one match. */
  lemma PrefixStep(sink: UOp, ms: seq<Match>, i: nat)
    requires i < |ms|
    ensures Rewrites(ms[..i + 1]) == Rewrites(ms[..i]) + (if ms[i].after.Some? then [ms[i]] else [])
    ensures ReplOf(ms[..i + 1]) ==
      ReplOf(ms[..i])[ms[i].before := if ms[i].after.Some? then ms[i].after.value else ms[i].before]
    ensures Sinks(sink, ms[..i + 1]) ==
      if ms[i].after.None? then Sinks(sink, ms[..i])
      else Sinks(sink, ms[..i]) + [Rewrite(Current(sink, ms[..i]), ReplOf(ms[..i + 1]))]
  {
    var p := ms[..i + 1];
    assert p[..i] == ms[..i];
    SinksLast(sink, p);
  }

  lemma SinksLast(sink: UOp, ms: seq<Match>)
    requires |ms| > 0
    ensures Sinks(sink, ms) ==
      if ms[|ms| - 1].after.None? then Sinks(sink, ms[..|ms| - 1])
      else Sinks(sink, ms[..|ms| - 1]) + [Rewrite(Current(sink, ms[..|ms| - 1]), ReplOf(ms))]
  {
  }

  /** While every match so far declined, the sink is the only one and the map
      sends each node to itself. */
  lemma {:induction false} NoneSoFar(sink: UOp, ms: seq<Match>, i: nat)
    requires i <= |ms| && forall j :: 0 <= j < i ==> ms[j].after.None?
    ensures Sinks(sink, ms[..i]) == [sink]
    ensures forall k :: k in ReplOf(ms[..i]) ==> ReplOf(ms[..i])[k] == k
  {
    if i == 0 {
      assert ms[..0] == [];
    } else {
      NoneSoFar(sink, ms, i - 1);
      PrefixStep(sink, ms, i - 1);
    }
  }

  /** Match `i` is the first to rewrite anything, and it rewrites its node to itself. */
  predicate FirstIsSelf(ms: seq<Match>, i: int)
  {
    && 0 <= i < |ms| && ms[i].after == Some(ms[i].before)
    && (forall j :: 0 <= j < i ==> ms[j].after.None?)
  }

  /** The non-CONST nodes of a rewrite's result, highlighted as changed. */
  function Changed(u: UOp): set<UOp>
  {
    set v | v in Nodes(u) && v.op != Const
  }

  function DiffOf(m: Match, show: UOp -> Result<string, string>): Diff
    requires m.after.Some?
  {
    Diff(PCall(show(m.before)), PCall(show(m.after.value)))
  }

  /** The diff of each rewrite, in order. */
  function Diffs(rw: seq<Match>, show: UOp -> Result<string, string>): (d: seq<Diff>)
    requires forall j :: 0 <= j < |rw| ==> rw[j].after.Some?
  {
    seq(|rw|, j requires 0 <= j < |rw| && rw[j].after.Some? => DiffOf(rw[j], show))
  }

  /** The changed-node set of each rewrite, in order. */
  function ChangedSets(rw: seq<Match>): (c: seq<set<UOp>>)
    requires forall j :: 0 <= j < |rw| ==> rw[j].after.Some?
  {
    seq(|rw|, j requires 0 <= j < |rw| && rw[j].after.Some? => Changed(rw[j].after.value))
  }

  /** The graph of each sink, in order. */
  function Graphs(sinks: seq<UOp>, colors: map<Op, string>): seq<map<UOp, Entry>>
  {
    seq(|sinks|, j requires 0 <= j < |sinks| => UopToJson(sinks[j], colors))
  }

  function KernelCode(key: Key): Option<string>
  {
    if key.KernelKey? then Some(PCall(key.program)) else None
  }

  /** Consecutive sinks differ. */
  ghost predicate EachChanges(sinks: seq<UOp>)
  {
    forall j :: 0 < j < |sinks| ==> sinks[j] != sinks[j - 1]
  }

  /** One more rewrite extends the diffs and the changed sets by one entry, and
      a sink that differs from the last keeps consecutive sinks different. */
  lemma Appended(rw: seq<Match>, m: Match, show: UOp -> Result<string, string>, sinks: seq<UOp>, next: UOp)
    requires (forall j :: 0 <= j < |rw| ==> rw[j].after.Some?) && m.after.Some?
    requires |sinks| > 0 && EachChanges(sinks) && next != sinks[|sinks| - 1]
    ensures Diffs(rw + [m], show) == Diffs(rw, show) + [DiffOf(m, show)]
    ensures [{}] + ChangedSets(rw + [m]) == [{}] + ChangedSets(rw) + [Changed(m.after.value)]
    ensures EachChanges(sinks + [next])
  {
    DiffsAppended(rw, m, show);
    ChangedAppended(rw, m);
  }

  lemma DiffsAppended(rw: seq<Match>, m: Match, show: UOp -> Result<string, string>)
    requires (forall j :: 0 <= j < |rw| ==> rw[j].after.Some?) && m.after.Some?
    ensures Diffs(rw + [m], show) == Diffs(rw, show) + [DiffOf(m, show)]
  {
    var l := Diffs(rw + [m], show);
    var r := Diffs(rw, show) + [DiffOf(m, show)];
    assert |l| == |r|;
    forall j | 0 <= j < |l|
      ensures l[j] == r[j]
    {
      if j < |rw| {
        assert (rw + [m])[j] == rw[j];
      }
    }
  }

  lemma ChangedAppended(rw: seq<Match>, m: Match)
    requires (forall j :: 0 <= j < |rw| ==> rw[j].after.Some?) && m.after.Some?
    ensures ChangedSets(rw + [m]) == ChangedSets(rw) + [Changed(m.after.value)]
  {
    var l := ChangedSets(rw + [m]);
    var r := ChangedSets(rw) + [Changed(m.after.value)];
    assert |l| == |r|;
    forall j | 0 <= j < |l|
      ensures l[j] == r[j]
    {
      if j < |rw| {
        assert (rw + [m])[j] == rw[j];
      }
    }
  }

  /** The rewrite of the current sink through a copy of the replacement map;
      a map that sends every key to itself leaves the sink as it is. */
  method RewriteSink(cur: UOp, repl: map<UOp, UOp>) returns (next: UOp)
    ensures next == Rewrite(cur, repl)
    ensures (forall k :: k in repl ==> repl[k] == k) ==> next == cur
  {
    next := Rewrite(cur, repl);
    if forall k :: k in repl ==> repl[k] == k {
      RewriteNoop(cur, repl);
    }
  }

  /** The replay loop's state: the changed sets and diffs so far, the
      successive sinks (the last is the current one) and the replacement map.
      The sinks are drawn once the replay is over. */
  datatype Replay = Replay(changed: seq<set<UOp>>, diffs: seq<Diff>, sinks: seq<UOp>, repl: map<UOp, UOp>)

  /** The state after the first `i` matches. */
  ghost predicate Replayed(st: Replay, matches: seq<Match>, i: nat, sink: UOp, show: UOp -> Result<string, string>)
  {
    && i <= |matches|
    && st.diffs == Diffs(Rewrites(matches[..i]), show)
    && st.changed == [{}] + ChangedSets(Rewrites(matches[..i]))
    && st.sinks == Sinks(sink, matches[..i]) && st.repl == ReplOf(matches[..i])
    && |st.sinks| == |st.diffs| + 1 && EachChanges(st.sinks)
  }

  /** Before any match: no diff, an empty changed set, and the sink alone. */
  function Start(sink: UOp): Replay
  {
    Replay([{}], [], [sink], map[])
  }

  lemma StartReplayed(sink: UOp, matches: seq<Match>, show: UOp -> Result<string, string>)
    ensures Replayed(Start(sink), matches, 0, sink, show)
  {
    assert matches[..0] == [];
  }

  /** One match: a declined match records its node as mapped to itself; a
      rewrite records its result and rebuilds the sink, and fails exactly when
      the sink comes out unchanged, as it must when this is the first rewrite
      and it rewrites its node to itself. */
  method ReplayStep(st: Replay, matches: seq<Match>, i: nat, ghost sink: UOp, show: UOp -> Result<string, string>)
    returns (next: Replay, failed: bool)
    requires i < |matches| && Replayed(st, matches, i, sink, show)
    ensures !failed ==> Replayed(next, matches, i + 1, sink, show)
    ensures failed <==> Stalls(sink, matches, i)
    ensures FirstIsSelf(matches, i) ==> failed
  {
    var m := matches[i];
    failed := false;
    if m.after.None? {
      next := st.(repl := st.repl[m.before := m.before]);
      DeclinedStep(st, matches, i, sink, show);
    } else {
      var u1 := m.after.value;
      var repl := st.repl[m.before := u1];
      var last := st.sinks[|st.sinks| - 1];
      var cur := RewriteSink(last, repl);
      RewriteStep(st, matches, i, sink, show, cur);
      if cur == last {
        next, failed := st, true;
        return;
      }
      next := Replay(st.changed + [Changed(u1)], st.diffs + [DiffOf(m, show)], st.sinks + [cur], repl);
    }
  }

  /** A declined match only records its node as mapped to itself. */
  lemma DeclinedStep(st: Replay, matches: seq<Match>, i: nat, sink: UOp, show: UOp -> Result<string, string>)
    requires i < |matches| && matches[i].after.None? && Replayed(st, matches, i, sink, show)
    ensures Replayed(st.(repl := st.repl[matches[i].before := matches[i].before]), matches, i + 1, sink, show)
    ensures !Stalls(sink, matches, i) && !FirstIsSelf(matches, i)
  {
    PrefixStep(sink, matches, i);
  }

  /** A rewrite whose rebuilt sink is `cur`: the step stalls exactly when `cur`
      is the last sink, which it is for a first rewrite of a node to itself;
      otherwise the lists grow by the rewrite's entries. */
  lemma RewriteStep(st: Replay, matches: seq<Match>, i: nat, sink: UOp, show: UOp -> Result<string, string>, cur: UOp)
    requires i < |matches| && matches[i].after.Some? && Replayed(st, matches, i, sink, show)
    requires var repl := st.repl[matches[i].before := matches[i].after.value];
      && cur == Rewrite(st.sinks[|st.sinks| - 1], repl)
      && ((forall k :: k in repl ==> repl[k] == k) ==> cur == st.sinks[|st.sinks| - 1])
    ensures Stalls(sink, matches, i) <==> cur == st.sinks[|st.sinks| - 1]
    ensures FirstIsSelf(matches, i) ==> cur == st.sinks[|st.sinks| - 1]
    ensures cur != st.sinks[|st.sinks| - 1] ==>
      var m := matches[i];
      Replayed(Replay(st.changed + [Changed(m.after.value)], st.diffs + [DiffOf(m, show)], st.sinks + [cur],
                      st.repl[m.before := m.after.value]), matches, i + 1, sink, show)
  {
    var m := matches[i];
    PrefixStep(sink, matches, i);
    if FirstIsSelf(matches, i) {
      NoneSoFar(sink, matches, i);
    }
    if cur != st.sinks[|st.sinks| - 1] {
      Appended(Rewrites(matches[..i]), m, show, st.sinks, cur);
    }
  }

  /** After the last match the state holds the lists for all the matches. */
  lemma Finished(st: Replay, matches: seq<Match>, sink: UOp, show: UOp -> Result<string, string>)
    requires Replayed(st, matches, |matches|, sink, show)
    ensures var rw := Rewrites(matches);
      && |st.sinks| == |st.changed| == |st.diffs| + 1
      && st.diffs == Diffs(rw, show)
      && st.changed == [{}] + ChangedSets(rw)
      && st.sinks == Sinks(sink, matches) && EachChanges(st.sinks)
    ensures (forall j :: 0 <= j < |matches| ==> matches[j].after.None?) ==> st.sinks == [sink]
  {
    assert matches[..|matches|] == matches;
    if forall j :: 0 <= j < |matches| ==> matches[j].after.None? {
      NoneSoFar(sink, matches, |matches|);
    }
  }

  /** One more match that neither stalls nor is a first rewrite to itself
      extends the prefix free of both. */
  lemma NoStallYet(sink: UOp, matches: seq<Match>, i: nat)
    requires i < |matches| && !Stalls(sink, matches, i) && !FirstIsSelf(matches, i)
    requires forall j :: 0 <= j < i ==> !Stalls(sink, matches, j)
    requires forall j :: 0 <= j < i ==> !FirstIsSelf(matches, j)
    ensures forall j :: 0 <= j < i + 1 ==> !Stalls(sink, matches, j)
    ensures forall j :: 0 <= j < i + 1 ==> !FirstIsSelf(matches, j)
  {
  }

  /** Match `i` rewrites something and no earlier match is a first rewrite to
      itself: then `i` is the only match that can be one. */
  lemma FirstIsSelfAt(matches: seq<Match>, i: nat)
    requires i < |matches| && matches[i].after.Some?
    requires forall j :: 0 <= j < i ==> !FirstIsSelf(matches, j)
    ensures forall k :: FirstIsSelf(matches, k) ==> k == i
  {
  }

  /** The replay loop over every match: it stops at the first match whose
      rewrite leaves the sink unchanged, and otherwise ends in the state for
      all the matches. */
  method ReplayAll(sink: UOp, matches: seq<Match>, show: UOp -> Result<string, string>)
    returns (st: Replay, stop: Option<nat>)
    ensures stop.None? ==>
      Replayed(st, matches, |matches|, sink, show) && forall k :: !Stalls(sink, matches, k)
    ensures stop.Some? ==>
      Stalls(sink, matches, stop.value) && forall k :: 0 <= k < stop.value ==> !Stalls(sink, matches, k)
    ensures forall k :: FirstIsSelf(matches, k) ==> stop == Some(k)
  {
    st := Start(sink);
    StartReplayed(sink, matches, show);
    var i := 0;
    while i < |matches|
      invariant Replayed(st, matches, i, sink, show)
      invariant forall j :: 0 <= j < i ==> !Stalls(sink, matches, j)
      invariant forall j :: 0 <= j < i ==> !FirstIsSelf(matches, j)
    {
      var failed;
      st, failed := ReplayStep(st, matches, i, sink, show);
      if failed {
        FirstIsSelfAt(matches, i);
        stop := Some(i);
        return;
      }
      NoStallYet(sink, matches, i);
      i := i + 1;
    }
    stop := None;
  }

  /** Replays the matches of one tracked rewrite over its sink. The graphs, the
      changed-node sets and the diffs stay in lock-step: one more graph and
      changed set than diffs, one diff and one changed set per rewrite, in
      order. `sinks` are the successive sinks the graphs are drawn from: the
      original sink, then each rewrite's rebuild of the one before through the
      replacement map so far; each differs from the one before. The replay
      fails exactly when some rewrite leaves the sink unchanged, and then at
      the first such rewrite. */
  method TrackedMatchesToJson(sink: UOp, matches: seq<Match>, key: Key,
                              show: UOp -> Result<string, string>, colors: map<Op, string>)
    returns (res: Result<Tracked, RewriteError>, sinks: seq<UOp>)
    ensures res.Ok? ==>
      var t := res.value;
      var rw := Rewrites(matches);
      && |t.graphs| == |t.changedNodes| == |t.diffs| + 1 == |sinks|
      && t.diffs == Diffs(rw, show)
      && t.changedNodes == [{}] + ChangedSets(rw)
      && (forall j :: 0 <= j < |sinks| ==> t.graphs[j] == UopToJson(sinks[j], colors))
      && sinks == Sinks(sink, matches) && EachChanges(sinks)
      && t.kernelCode == KernelCode(key)
    ensures res.Ok? <==> forall i :: !Stalls(sink, matches, i)
    ensures res.Err? ==>
      && Stalls(sink, matches, res.error.index)
      && (forall j :: 0 <= j < res.error.index ==> !Stalls(sink, matches, j))
      && res.error.loc == matches[res.error.index].loc
    ensures (forall j :: 0 <= j < |matches| ==> matches[j].after.None?) ==>
      res.Ok? && res.value.graphs == [UopToJson(sink, colors)]
    ensures forall i :: FirstIsSelf(matches, i) ==> res == Err(SinkUnchanged(i, matches[i].loc))
  {
    var st, stop := ReplayAll(sink, matches, show);
    sinks := st.sinks;
    if stop.Some? {
      res := Err(SinkUnchanged(stop.value, matches[stop.value].loc));
      return;
    }
    Finished(st, matches, sink, show);
    res := Ok(Tracked(st.changed, st.diffs, Graphs(sinks, colors), KernelCode(key)));
  }

  // ---------------------------------------------------------------------------
  // Routing in do_GET

  /** The path component of a request target: everything before the first `?`
      or `#`. */
  function UrlPath(p: string): (r: string)
    ensures r <= p && '?' !in r && '#' !in r
    ensures |r| < |p| ==> p[|r|] == '?' || p[|r|] == '#'
  {
    if |p| == 0 || p[0] == '?' || p[0] == '#' then []
    else [p[0]] + UrlPath(p[1..])
  }

  /** Python's `t in s` on strings. */
  predicate Contains(s: string, t: string)
  {
    exists i :: 0 <= i <= |s| - |t| && OccursAt(s, t, i)
  }

  predicate OccursAt(s: string, t: string, i: int)
  {
    0 <= i <= |s| - |t| && s[i..i + |t|] == t
  }

  /** The number of slashes `s` starts with. */
  function Leading(s: string): (n: nat)
    ensures n <= |s| && (forall i :: 0 <= i < n ==> s[i] == '/') && (n < |s| ==> s[n] != '/')
  {
    if |s| > 0 && s[0] == '/' then 1 + Leading(s[1..]) else 0
  }

  /** The number of slashes `s` ends with. */
  function Trailing(s: string): (n: nat)
    ensures n <= |s| && (forall i :: |s| - n <= i < |s| ==> s[i] == '/') && (n < |s| ==> s[|s| - n - 1] != '/')
  {
    if |s| > 0 && s[|s| - 1] == '/' then 1 + Trailing(s[..|s| - 1]) else 0
  }

  /** `s.lstrip('/')`. */
  function TrimStart(s: string): string
  {
    s[Leading(s)..]
  }

  /** `s.rstrip('/')`. */
  function TrimEnd(s: string): string
  {
    s[..|s| - Trailing(s)]
  }

  /** `s.strip('/')`. */
  function Strip(s: string): string
  {
    TrimEnd(TrimStart(s))
  }

  /** No `..` starts a path segment. */
  predicate NoParentStep(f: string)
  {
    forall i :: 0 <= i < |f| - 1 && f[i] == '.' && f[i + 1] == '.' ==> i > 0 && f[i - 1] != '/'
  }

  datatype Route = Index | Asset(file: string) | Kernels | NotFound

  /** The handler's decision: the root path serves the index page; a target
      starting with `/assets/` and free of `/..` serves a file below the
      viewer's directory; `/kernels` serves the JSON; anything else is not
      found. An asset's file name starts with `assets` and never climbs to a
      parent directory. */
  function RouteOf(p: string): (r: Route)
    ensures r == Index <==> UrlPath(p) == "/"
    ensures r.Asset? <==> UrlPath(p) != "/" && "/assets/" <= p && !Contains(p, "/..")
    ensures r == Kernels <==> UrlPath(p) != "/" && !("/assets/" <= p && !Contains(p, "/..")) && UrlPath(p) == "/kernels"
    ensures r.Asset? ==> |r.file| >= 6 && r.file[..6] == "assets" && NoParentStep(r.file)
  {
    if UrlPath(p) == "/" then Index
    else if "/assets/" <= p && !Contains(p, "/..") then
      AssetSafe(p);
      Asset(Strip(p))
    else if UrlPath(p) == "/kernels" then Kernels
    else NotFound
  }

  /** Stripping the slashes of a `/assets/` target free of `/..` leaves a name
      below `assets` with no parent step. */
  lemma AssetSafe(p: string)
    requires "/assets/" <= p && !Contains(p, "/..")
    ensures |Strip(p)| >= 6 && Strip(p)[..6] == "assets" && NoParentStep(Strip(p))
  {
    AssetName(p);
    InnerNoParent(p, Strip(p));
  }

  /** A name copied from position 1 of a target free of `/..`, and not starting
      with a dot, has no parent step. */
  lemma InnerNoParent(p: string, f: string)
    requires !Contains(p, "/..") && 1 + |f| <= |p| && f == p[1..1 + |f|]
    requires |f| > 0 && f[0] != '.'
    ensures NoParentStep(f)
  {
    forall i | 0 <= i < |f| - 1 && f[i] == '.' && f[i + 1] == '.'
      ensures i > 0 && f[i - 1] != '/'
    {
      if i > 0 && f[i - 1] == '/' {
        assert p[i..i + 3] == [f[i - 1], f[i], f[i + 1]];
        assert !OccursAt(p, "/..", i);
      }
    }
  }

  /** The stripped name of a `/assets/` target is the target without its
      leading slash, cut before any trailing slashes. */
  lemma AssetName(p: string)
    requires "/assets/" <= p
    ensures 6 <= |Strip(p)| < |p| && Strip(p) == p[1..1 + |Strip(p)|]
    ensures Strip(p)[..6] == "assets"
  {
    assert p[0] == '/' && p[1] == 'a' && p[6] == 's';
    assert Leading(p[1..]) == 0;
    assert Leading(p) == 1;
    var s := p[1..];
    assert TrimStart(p) == s;
    var t := Trailing(s);
    assert s[5] == 's';
    assert |s| - t > 5;
    var f := s[..|s| - t];
    assert Strip(p) == f;
    assert f[..6] == s[..6] == p[1..7];
    assert f == p[1..1 + |f|];
  }

  /** The outcome of reading a file: its contents, a missing file, or another
      failure (a directory, say), which the handler does not catch. */
  datatype FileRead = Found(data: string) | Missing | Failed

  datatype Response = Response(status: int, contentType: string, body: string)

  function ContentType(path: string): string
  {
    if |path| >= 4 && path[|path| - 4..] == ".css" then "text/css"
    else if |path| >= 3 && path[|path| - 3..] == ".js" then "application/javascript"
    else "text/html"
  }

  /** `do_GET`, with the file system as `read` and the outcome of building the
      kernels JSON body as a parameter (`None` when building it raises: a
      malformed or out-of-range query, or a failed replay); `None` is an
      exception escaping the handler. Status 404 is answered exactly for a
      target no route takes and for a missing asset; a served asset's body is
      that file's contents. */
  function Handle(p: string, read: string -> FileRead, kernelsJson: Option<string>): (r: Option<Response>)
    ensures r.Some? && r.value.status == 404 <==>
      RouteOf(p) == NotFound || (RouteOf(p).Asset? && read(RouteOf(p).file) == Missing)
    ensures r.Some? && RouteOf(p).Asset? && r.value.status == 200 ==>
      read(RouteOf(p).file).Found? && r.value.body == read(RouteOf(p).file).data
    ensures r.None? <==>
      || (RouteOf(p) == Index && !read("index.html").Found?)
      || (RouteOf(p).Asset? && read(RouteOf(p).file) == Failed)
      || (RouteOf(p) == Kernels && kernelsJson.None?)
    ensures r.Some? && RouteOf(p) == Kernels ==> r.value == Response(200, "application/json", kernelsJson.value)
  {
    match RouteOf(p)
    case Index =>
      (match read("index.html")
       case Found(data) => Some(Response(200, "text/html", data))
       case _ => None)
    case Asset(file) =>
      (match read(file)
       case Found(data) => Some(Response(200, ContentType(UrlPath(p)), data))
       case Missing => Some(Response(404, "text/html", ""))
       case Failed => None)
    case Kernels =>
      (match kernelsJson
       case Some(body) => Some(Response(200, "application/json", body))
       case None => None)
    case NotFound => Some(Response(404, "text/html", ""))
  }
}
