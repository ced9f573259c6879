# tinygrad core, modelled in Dafny

This project models three parts of tinygrad and proves properties of the models:

1. **The MCTS kernel auto-tuner** (`mcts_search` in `tinygrad/engine/mcts.py`). Each iteration:
   - descends the tree from the root with UCB1;
   - stops the whole search at a node whose child list is empty;
   - expands the selected node and compiles that node's own kernel;
   - prunes the node from its parent if compilation fails;
   - otherwise times the kernel, updates the best result, and adds the reward and one visit to the node and every ancestor.

   A disk-cache hit replays the stored optimisations instead of searching. The tree is an arena of nodes addressed by index (`mcts_tree.dfy`). The compiler, the timer, the action generator and the UCB score are oracles held in `Env`. UCB1 descent is in `mcts_select.dfy`. The invariant linking visit counts, reward sums and the best result to the log of successful rollouts is in `mcts_account.dfy`. The search loop and the cache are in `mcts_search.dfy`.

2. **ELF relocation patching** in the CPU JIT compiler (`ClangJITCompiler.compile` in `tinygrad/runtime/ops_clang.py`):
   - Each relocation computes a 32-bit patch from its target, addend and place, and ORs it into the little-endian word at the place.
   - The loop model (`Patch`, `ApplyOne`, `ApplyRelocs`) is the corrected one: its PC-relative and ADRP branches follow the intended behaviour of the two "## Findings" rows. `PatchAsWritten` and `ApplyOneAsWritten` model those branches as the code writes them.
   - The handled types are x86-64 `R_X86_64_PC32`, and the AArch64 `ADR_PREL_PG_HI21` and `LDST{16,64,128}_ABS_LO12_NC` (ELF for the Arm 64-bit Architecture, section 5.7).
   - Python's unbounded `>>`, `<<`, `&` and `|` are defined one bit at a time in `bits.dfy`, so that each bit of a patch can be stated.
   - The relocation loop is in `clang_reloc.dfy`.

3. **The rewrite viewer's pure helpers** (`tinygrad/viz/serve.py`):
   - `pcall`;
   - `uop_to_json`;
   - `_replace_uop`;
   - `tracked_matches_to_json`;
   - the routing decision of `do_GET`.

   Operation nodes are hash-consed in tinygrad, so a node's identity is its structure. The model uses the node value itself as its id (`viz_uop.dfy`, `viz_serve.dfy`). `_replace_uop` is a function that threads its memo map through the sources from left to right. It is proved equal to a reference substitution, `Subst`, whenever that substitution is settled.

`outcomes.dfy` holds the `Option` and `Result` types shared by the modules.

Some things differ from the source in form but not in result:
- The replay in `tracked_matches_to_json` keeps the successive sinks and draws their graphs once the replay is over. The source draws each graph as it goes. `uop_to_json` has no side effects, so the resulting list is the same.
- `changed_nodes` is modelled as a set of nodes per rewrite, not as an ordered list of ids.
- A diff is modelled as the pair of renderings it is computed from.

Two behaviours of the code worth noting:
- The root is expanded and compiled in the first iteration like any other selected node. So the root's visit count becomes 1 after one successful iteration, even when it has no actions (`mcts.py:50-53`).
- The rollout compiles and times the node just expanded, not one of its children (`mcts.py:53`).

## Model

| member | source | states |
|---|---|---|
| MctsTree.RootOnlyValid | tinygrad/engine/mcts.py:8-14 | A tree holding only a fresh root is well formed. The root has no parent, zero statistics and unexpanded children. |
| MctsTree.Expand | tinygrad/engine/mcts.py:16-17 | Expansion gives node `i` exactly one fresh child per generated action, in generator order. Each child has parent `i`, `t = 0`, `n = 0` and unexpanded children. The child list is duplicate-free, and node `i` and every other existing node keep their data. |
| MctsTree.ExpandValid | tinygrad/engine/mcts.py:16-17 | Expanding an unexpanded node keeps the tree well formed: parents come before children, child and parent links agree, child lists have no duplicates, and unexpanded nodes have no children. No existing parent, kernel or statistic changes. |
| MctsTree.RemoveFirst | tinygrad/engine/mcts.py:57 | `list.remove` drops the first occurrence of `x` and keeps every other element in order. |
| MctsTree.RemoveFirstMultiset | tinygrad/engine/mcts.py:57 | Removing `x` takes exactly one copy of `x` out of the list's multiset. |
| MctsTree.RemoveFirstDistinct | tinygrad/engine/mcts.py:57 | On a duplicate-free list, the result holds exactly the elements other than `x` and stays duplicate-free. |
| MctsTree.Prune | tinygrad/engine/mcts.py:54-58 | A failed compile removes the node from its parent's child list, which gets one element shorter. Every other node is unchanged, and the tree is unchanged when the node is the root. |
| MctsTree.PruneKept | tinygrad/engine/mcts.py:57 | Pruning changes only the parent's child list. No kernel, statistic, parent link or expansion state changes. |
| MctsTree.PruneValid | tinygrad/engine/mcts.py:57 | Pruning keeps the tree well formed, and the pruned node is no longer among its parent's children. |
| MctsTree.DropValid | tinygrad/engine/mcts.py:57 | Removing entries from one node's child list keeps the tree well formed, as long as the shorter list stays duplicate-free and nothing else changes. |
| MctsTree.RootOnPath | tinygrad/engine/mcts.py:67-71 | The walk up the parent links from any node reaches the root. |
| MctsTree.Backprop | tinygrad/engine/mcts.py:66-71 | The rolled-out node and every ancestor, the root included, get reward `-(tm*1e6)` added to `t` and 1 added to `n`. Every other node is unchanged. |
| MctsSelect.FirstMax | tinygrad/engine/mcts.py:42-44 | Element 0 of a stable descending sort is the first position holding a maximal score: no score beats it, and every earlier score is strictly lower. |
| MctsSelect.ChoosePos | tinygrad/engine/mcts.py:42-44 | The selected child has a maximal score, and every earlier child scores strictly lower. An unvisited child is chosen if and only if one exists, and then it is the first unvisited child. |
| MctsSelect.UnvisitedFirst | tinygrad/engine/mcts.py:42-44 | When the infinite scores are exactly the unvisited children, the first maximal score is unvisited if and only if some child is unvisited. In that case it is the first unvisited child. |
| MctsSelect.Choose | tinygrad/engine/mcts.py:44 | The selected node is one of node `i`'s children, and its parent is `i`. |
| MctsSelect.FollowedRoot | tinygrad/engine/mcts.py:38 | The descent starts at the root, which is trivially a path of selected steps. |
| MctsSelect.FollowedStep | tinygrad/engine/mcts.py:39-44 | One more UCB1 step keeps "every step from the root took the selected child of an expanded node with children". The step goes to a later node whose parent is the current node. |
| MctsSelect.Descend | tinygrad/engine/mcts.py:38-44 | Descent stops at the first node that is unexpanded or has an empty child list. Every step took the selected child, and the node reached is listed among its parent's children. |
| MctsAccount.VisitsStable | tinygrad/engine/mcts.py:66-71 | Adding nodes without changing parent links leaves every node's visit count and reward sum, as counted from the log, unchanged. |
| MctsAccount.RootVisits | tinygrad/engine/mcts.py:66-71 | Counted from the log, the root's visit count is the number of successful rollouts. |
| MctsAccount.ChildVisits | tinygrad/engine/mcts.py:66-71 | Counted from the log, a child's visit count never exceeds its parent's. |
| MctsAccount.ChildVisitsBounded | tinygrad/engine/mcts.py:42 | In any reachable state, a child's `n` is at most its parent's. When some child has been visited, its parent's `n` is at least 1, which the visited-child score relies on. |
| MctsAccount.RootCountsRollouts | tinygrad/engine/mcts.py:70 | In any reachable state, the root's `n` equals the number of successful rollouts. |
| MctsAccount.BestUpdate | tinygrad/engine/mcts.py:64 | The best time only moves to a strictly smaller time, so it never increases, and the best kernel is the first one that reached the minimum. |
| MctsAccount.AfterExpand | tinygrad/engine/mcts.py:50 | Expansion keeps the search invariant, and a node about to be expanded has never been rolled out. |
| MctsAccount.AfterPrune | tinygrad/engine/mcts.py:54-58 | Pruning a failed node keeps the search invariant. |
| MctsAccount.CreditAccounted | tinygrad/engine/mcts.py:67-71 | Crediting the rollout's path keeps every node's `n` and `t` equal to the counts and reward sums of the logged rollouts at or below it. |
| MctsAccount.NoActionsBest | tinygrad/engine/mcts.py:50-64 | With no actions for the input kernel only the root is ever rolled out, so at most one rollout is logged and the best kernel is the input kernel. |
| MctsAccount.AfterRollout | tinygrad/engine/mcts.py:60-71 | Timing, updating the best result and backpropagating together keep the search invariant, with the rollout appended to the log. |
| MctsSearch.Discard | tinygrad/engine/mcts.py:54-58 | A failed compile removes exactly that node from its parent's children. The log, the best kernel and the best time are unchanged, and so is every other child list. |
| MctsSearch.RollOut | tinygrad/engine/mcts.py:60-71 | The measured time uses the early-stop bound `best_tm*10`. The rollout is logged, and the best result changes only when the time is strictly smaller. No kernel or child list changes. |
| MctsSearch.Grow | tinygrad/engine/mcts.py:50 | Expansion adds one node per action below the selected node and keeps the invariant. The selected node has never been rolled out. |
| MctsSearch.IterateLog | tinygrad/engine/mcts.py:53-64 | After one iteration's expansion, a failed compile leaves the log, the best kernel and the best time as they were. A compile appends exactly one rollout: the selected node, its kernel, and the time measured at this iteration with the early-stop bound from the best time before it. The best time never grows. |
| MctsSearch.Visit | tinygrad/engine/mcts.py:49-71 | The state after the visit is the reference iteration `Iterate`: expand the selected node, then either prune it from its parent on a failed compile, or measure it with the early-stop bound, update the best result on a strictly smaller time, credit its path and log it. The search invariant is kept. |
| MctsSearch.Step | tinygrad/engine/mcts.py:37-71 | The node reached is at the end of a path of UCB1 selections from the root. The iteration stops if and only if that node is expanded with no children, and then the state is unchanged. Otherwise the step is a `Passed` iteration: a selection followed by `Iterate` with this iteration's number. The log grows by the measured rollout exactly on a compile, and the best time never grows. |
| MctsSearch.Turn | tinygrad/engine/mcts.py:36-71 | One turn of the loop either stops at a dead end reached by UCB1 selections, or extends the trace by one passed iteration from the current state. The log stays the list of measured rollouts of the trace. With no actions for the input kernel, every turn after the first stops. |
| MctsSearch.Search | tinygrad/engine/mcts.py:34-71 | The result carries the full trace of iterations from the single-root tree. Each iteration selects by UCB1 and then does exactly `Iterate` with its own iteration number. The trace has `amt` iterations unless the loop stopped at a dead end earlier. The log is exactly the measured rollouts of the compiled iterations, each timed with the early-stop bound from the best time before it. The root's `n` equals the number of rollouts, and the best result is the first minimum of the logged times, or the input kernel if nothing was timed. With no actions for the input kernel, at most one rollout is logged, the best is the input kernel, and with `amt >= 2` the search stops after one iteration. |
| MctsSearch.ApplyOpts | tinygrad/engine/mcts.py:25 | Applying a list of optimisations appends them, in order, to the kernel's applied list. |
| MctsSearch.Replay | tinygrad/engine/mcts.py:24-26 | A cache hit copies the input kernel and appends the cached optimisations from position `len(lin.applied_opts)` on, whatever the kernel's own optimisations are. Nothing else of the kernel changes. When the cached list extends the kernel's own, the result carries exactly the cached list, and when it is no longer than the kernel's own, the kernel is returned unchanged. |
| MctsSearch.MctsSearch | tinygrad/engine/mcts.py:20-75 | On a cache hit the result is the replay, the cache is unchanged and no search runs. Otherwise the search's run is returned with its trace: every iteration a UCB1 selection followed by `Iterate`, the log the measured rollouts of the trace, and the root's `n` their number. The returned kernel is the run's best, and with caching on its optimisations are stored under the key, so that a later lookup replays to the same optimisations. |
| MctsSearch.BestInTree | tinygrad/engine/mcts.py:64 | When actions only add optimisations, the best kernel's optimisations extend the input kernel's. |
| Bits.ShrBit | tinygrad/runtime/ops_clang.py:24-28 | `v >> s` moves bit `s + i` to bit `i`, and two right shifts compose. |
| Bits.ShlBit | tinygrad/runtime/ops_clang.py:25-28 | `v << k` moves bit `i - k` to bit `i` and clears the bits below `k`. |
| Bits.LowBit | tinygrad/runtime/ops_clang.py:24-28 | Masking with `2^w - 1` keeps exactly the bits below `w`. |
| Bits.BitOrBit | tinygrad/runtime/ops_clang.py:31 | A bit of `x \| y` is set if and only if it is set in `x` or in `y`. |
| Bits.BitOrBound | tinygrad/runtime/ops_clang.py:25 | The OR of two `n`-bit values is an `n`-bit value. |
| Bits.BitOrZero | tinygrad/runtime/ops_clang.py:31 | `0 \| y == y`. |
| Bits.ShlMul | tinygrad/runtime/ops_clang.py:25-28 | A left shift by `k` multiplies by `2^k`. |
| Bits.FieldBit | tinygrad/runtime/ops_clang.py:25-28 | `getbits(v, s, e) << k` holds bits `s..e` of `v` at bits `k..k+e-s` and has no other bits set. |
| Bits.FieldBound | tinygrad/runtime/ops_clang.py:25-28 | `getbits(v, s, e) << k` lies below `2^(k+e-s+1)`. |
| ClangReloc.ReadWriteU32 | tinygrad/runtime/ops_clang.py:31 | Unpacking the packed `<I` bytes of a 32-bit word gives the word back. |
| ClangReloc.WriteReadU32 | tinygrad/runtime/ops_clang.py:31 | Packing the unpacked value of four bytes gives the bytes back. |
| ClangReloc.PackI32 | tinygrad/runtime/ops_clang.py:20 | `struct.pack('<i', x)` gives four bytes whose two's-complement reading is `x`. |
| ClangReloc.PageOfBits | tinygrad/runtime/ops_clang.py:24 | `x & ~0xFFF` clears exactly the bits below 12 and keeps the others. |
| ClangReloc.PageOfNumber | tinygrad/runtime/ops_clang.py:24 | `x & ~0xFFF` is 4096 times `x >> 12`. |
| ClangReloc.PageDeltaAligned | tinygrad/runtime/ops_clang.py:24 | The ADRP page delta is 4096 times the difference of the two page numbers, so it is a multiple of 4096. |
| ClangReloc.AdrpPatch | tinygrad/runtime/ops_clang.py:25 | The ADRP patch, with the immediate taking bits 12-32 of the page delta, fits in 32 bits. |
| ClangReloc.LdstPatch | tinygrad/runtime/ops_clang.py:26-28 | A load/store patch fits in 32 bits. |
| ClangReloc.Patch | tinygrad/runtime/ops_clang.py:18-29 | The patch fits in 32 bits. It fails if and only if the type is unhandled, which gives `NotImplementedError` with the type, or a PC-relative displacement does not fit a signed 32-bit integer, which gives the `struct.pack` error with the value. |
| ClangReloc.Pc32PatchValue | tinygrad/runtime/ops_clang.py:20 | A PC-relative patch is the displacement `tgt + addend - ploc` in two's complement. |
| ClangReloc.AdrpPatchBits | tinygrad/runtime/ops_clang.py:23-25 | The ADRP patch puts page-delta bits 12-13 at bits 29-30 (immlo) and delta bits 14-32 at bits 5-23 (immhi), and sets no other bit. So the 21-bit immediate is bits 12-32 of the page delta, as section 5.7 of ELF for the Arm 64-bit Architecture prescribes for `R_AARCH64_ADR_PREL_PG_HI21`. |
| ClangReloc.PatchOfLdst | tinygrad/runtime/ops_clang.py:26-28 | The LDST16, LDST64 and LDST128 patches are bits 1-11, 3-11 and 4-11 of `tgt + addend` shifted left by 10. |
| ClangReloc.LdstPatchBits | tinygrad/runtime/ops_clang.py:26-28 | A load/store patch holds bits `s..11` of the address at bits `10..21-s`, and no bit outside 10-21. |
| ClangReloc.ApplyPatch | tinygrad/runtime/ops_clang.py:31 | Patching fails when fewer than four bytes remain at the place. Otherwise it succeeds if and only if the OR fits the `<I` format. Only the four bytes at the place change, and they then hold the little-endian word ORed with the patch. |
| ClangReloc.PatchKeepsBits | tinygrad/runtime/ops_clang.py:31 | After patching, a bit of the word is set if and only if it was set before or is set in the patch, so no set bit is cleared. |
| ClangReloc.WordOrFits | tinygrad/runtime/ops_clang.py:31 | The OR of two 32-bit words is a 32-bit word. |
| ClangReloc.ApplyOne | tinygrad/runtime/ops_clang.py:18-31 | One relocation succeeds if and only if its patch is computed and the word lies inside the image. A patch error propagates unchanged, and the image keeps its length. |
| ClangReloc.Pc32Intended | tinygrad/runtime/ops_clang.py:20-31 | With the corrected PC-relative patch, a zero field ends up holding the displacement as a signed 32-bit value. |
| ClangReloc.ApplyRelocsOk | tinygrad/runtime/ops_clang.py:18-32 | The loop completes if and only if every relocation's patch is computed and lies inside the image. Bytes outside every patched word are unchanged. |
| ClangReloc.UnknownTypeFails | tinygrad/runtime/ops_clang.py:29 | One relocation of an unhandled type makes the whole loop fail. |
| ClangReloc.PatchAsWritten | tinygrad/runtime/ops_clang.py:20-29 | As written, the PC-relative branch yields packed bytes, not an integer, and the ADRP branch yields the patch without the sign bit. Every other branch yields the corrected integer patch or the same error. |
| ClangReloc.ApplyOneAsWritten | tinygrad/runtime/ops_clang.py:31 | As written, a word is patched only with an integer patch. |
| ClangReloc.Pc32AsWrittenFails | tinygrad/runtime/ops_clang.py:20-31 | As written, no PC-relative relocation completes. With a fitting displacement inside the image, it fails with the `int \| bytes` type error. |
| ClangReloc.AsWrittenElsewhere | tinygrad/runtime/ops_clang.py:26-31 | For the load/store types and the unhandled ones, the code as written and the corrected model agree. |
| ClangReloc.AdrpAsWrittenBits | tinygrad/runtime/ops_clang.py:24-25 | As written, the ADRP patch agrees with the corrected one on every bit except bit 23, which it never sets. The corrected patch sets bit 23 exactly when bit 32 of the page delta is set. |
| ClangReloc.AdrpWitness | tinygrad/runtime/ops_clang.py:24-25 | A target one page below the place gives the page delta -4096. The corrected patch sets the immediate's sign bit 23; the patch as written does not. |
| ClangReloc.Pc32Witness | tinygrad/runtime/ops_clang.py:20-31 | Take a call 16 bytes away at offset 0 with addend -4. As written it raises. Corrected, it writes 12. |
| VizUop.NodesClosed | tinygrad/viz/serve.py:35 | The nodes of `x.toposort` are closed under taking sources. |
| VizUop.SrcIds | tinygrad/viz/serve.py:41 | The edge list holds exactly the non-CONST sources. |
| VizUop.ConstLines | tinygrad/viz/serve.py:39-40 | Every CONST source, and nothing else, appears as a label line with its position and argument. Together with the edges, each source is accounted for once. |
| VizUop.UopToJson | tinygrad/viz/serve.py:32-42 | The graph has an entry for exactly the non-CONST nodes reachable from `x`. Every edge points at a non-CONST source that has its own entry, and each CONST source appears only as a label line. Each entry carries its node's op, dtype and argument. |
| VizUop.ReplaceUop | tinygrad/viz/serve.py:44-50 | A node already in the map is answered from it with the map unchanged. The map only grows, and only with nodes of `base`. |
| VizUop.ReplaceSrcs | tinygrad/viz/serve.py:46 | Rebuilding the sources from position `k` on appends exactly one node per remaining source after the ones already rebuilt, which are kept as a prefix. The map only grows, and only with nodes of `base`. |
| VizUop.SubstSettled | tinygrad/viz/serve.py:45-46 | Substitution leaves a node unchanged when none of its nodes is a key mapped elsewhere. |
| VizUop.ReplaceSrcStep | tinygrad/viz/serve.py:46 | Rebuilding one more source gives its substitution and keeps the map consistent with the substitution. |
| VizUop.ReplaceSrcsSubst | tinygrad/viz/serve.py:46 | The rebuilt sources are the substituted sources. |
| VizUop.ReplaceSubst | tinygrad/viz/serve.py:44-50 | When the substitution of the map into `base` is settled, `_replace_uop` returns it, and the memo it leaves maps each key to the key's substitution. |
| VizUop.RewriteIsSubst | tinygrad/viz/serve.py:68 | The viewer's rewrite of a sink, through a copy of the map, is the substitution of the map into the sink. |
| VizUop.ReplaceTwice | tinygrad/viz/serve.py:49 | A second call with the memo the first call left gives the same node. |
| VizUop.RewriteNoop | tinygrad/viz/serve.py:68-70 | A map that sends each of the sink's nodes to itself, or does not mention it, rebuilds the sink unchanged. |
| VizServe.PCall | tinygrad/viz/serve.py:19-21 | The guard returns the renderer's text, or `ERROR: ` followed by the message of the `Exception` it caught, which can be read back. A caught exception never escapes. |
| VizServe.RewriteSink | tinygrad/viz/serve.py:68 | The rewritten sink is the rewrite through the current map. When every key maps to itself, it is the sink unchanged. |
| VizServe.PrefixStep | tinygrad/viz/serve.py:61-76 | One more match extends the rewrites by itself when it rewrites, records its node in the replacement map (mapped to its rewrite, or to itself when declined), and adds one sink, the rebuild of the current sink through that map, exactly when it rewrites. |
| VizServe.NoneSoFar | tinygrad/viz/serve.py:64-66 | While every match so far declined, the original sink is the only sink and the replacement map sends each key to itself. |
| VizServe.DeclinedStep | tinygrad/viz/serve.py:64-66 | A declined match records its node as mapped to itself and adds no diff, changed set or sink. It never stalls the replay. |
| VizServe.RewriteStep | tinygrad/viz/serve.py:67-75 | For a rewrite, the step stalls if and only if rebuilding the current sink through the updated map gives it back, which a first rewrite of a node to itself always does. Otherwise one diff, one changed set and the rebuilt sink are appended. |
| VizServe.ReplayStep | tinygrad/viz/serve.py:61-76 | One loop step fails if and only if the match stalls: it rewrites, and rebuilding the current sink through the map after it gives the same sink. Otherwise the state afterwards holds the lists, the reference sinks and the replacement map for one more match. A first rewrite of a node to itself fails. |
| VizServe.ReplayAll | tinygrad/viz/serve.py:61-76 | The replay stops exactly at the first stalling match, if there is one. Otherwise no match stalls and it ends with the lists, the reference sinks and the map for every match. A first self-rewrite is where it stops. |
| VizServe.Finished | tinygrad/viz/serve.py:76 | After the last match the lists satisfy `len(sinks) == len(changed_nodes) == len(diffs) + 1`, hold the reference diffs, changed sets and sinks, and each sink differs from the one before. With no rewrite the sink is alone. |
| VizServe.TrackedMatchesToJson | tinygrad/viz/serve.py:55-77 | The call succeeds if and only if no match stalls, that is, no rewrite rebuilds the current sink into itself through the map so far. On success the lists satisfy `len(graphs) == len(changed_nodes) == len(diffs) + 1`, with one diff and one changed set per rewrite in order. The graphs are drawn from the reference sinks: the original sink, then each rewrite's rebuild of the one before through `_replace_uop` with the map as it stands after that rewrite, each differing from the one before. The kernel code is guarded. If no match rewrites, the result is the original graph alone. On failure the error names the first stalling match's index and location. |
| VizServe.UrlPath | tinygrad/viz/serve.py:85 | The path of a request target is its longest prefix free of `?` and `#`. |
| VizServe.Leading | tinygrad/viz/serve.py:89 | Counts the slashes `lstrip('/')` removes: all of them are slashes, and the next character is not. |
| VizServe.Trailing | tinygrad/viz/serve.py:89 | Counts the slashes `rstrip('/')` removes: all of them are slashes, and the character before is not. |
| VizServe.RouteOf | tinygrad/viz/serve.py:85-101 | The routes are tried in order: the root path is the index, then a `/assets/` target free of `/..` is an asset, then `/kernels`. Each holds if and only if its condition holds and no earlier one does, and everything else is not found. An asset's file starts with `assets` and never climbs to a parent directory. |
| VizServe.AssetSafe | tinygrad/viz/serve.py:87-89 | The stripped name of a `/assets/` target free of `/..` starts with `assets` and has no path segment starting with `..`. |
| VizServe.InnerNoParent | tinygrad/viz/serve.py:87 | A name cut from a target free of `/..`, and not starting with a dot, has no parent step. |
| VizServe.AssetName | tinygrad/viz/serve.py:89 | The stripped name of a `/assets/` target is the target without its leading slash, cut before any trailing slashes. |
| VizServe.Handle | tinygrad/viz/serve.py:82-101 | Status 404 is answered exactly for a target no route takes and for a missing asset. A served asset's body is the file's contents, and the `/kernels` body is the JSON built for the query. The handler raises exactly when the index page cannot be read, an asset read fails other than by being missing, or building the `/kernels` body raises. |

## Left out

- Compilation, timing and the action generator (`_try_compile_linearized_w_idx`, `_time_program`, `get_kernel_actions`, `_ensure_buffer_alloc`): their source is not part of this model. They are oracles in `Env`, and a measured time is any positive real.
- The UCB1 formula for a visited child (`math.sqrt`, `math.log`, floating point): it is the abstract `Env.ucb`. Only the rule that an unvisited child scores infinity is concrete.
- Floating-point rounding of `t += -(tm*1e6)`: rewards are exact reals.
- `var_vals`, the device lookup, `time.perf_counter` and the `DEBUG` printing: they only feed the oracles or print diagnostics.
- The disk cache: it is an explicit map from the search key to the stored optimisations, and `apply_opt` is modelled as appending the optimisation.
- MctsSearch.Replay: assumes `apply_opt` succeeds and only appends. The optimisation checks inside `Kernel.apply_opt` are not part of this model.
- The clang invocation, `elf_loader`, the JIT program's mmap/ctypes plumbing and the device: process and memory handling outside the relocation loop.
- `getbits` is imported, and its source is not part of this model. It is taken to be `(v >> s) & (2^(e-s+1) - 1)` with Python's floor shift.
- A relocation place is a natural number. Python's negative-index slicing for a negative `ploc` is not modelled.
- `struct.error` for a word that would not fit `<I` after the OR cannot arise from the handled patches, but it is still modelled as an error of `ApplyPatch`.
- `urlparse`: only the path component is modelled, as the prefix before the first `?` or `#`. A network location and `;params` are not split off.
- The `/kernels` query handling (`parse_qs`, the kernel and rewrite lookup), `tracked_graph_rewrite_to_json` and `json.dumps`: the outcome of building the `/kernels` body is a parameter of `Handle`, either the JSON text or an exception. The exceptions it stands for (`ValueError` from `int` on a malformed index, `KeyError` for a missing `idx`, `IndexError` for an index out of range, and the `AssertionError` of `tracked_matches_to_json`) are not told apart.
- ClangReloc.Patch: models the corrected PC-relative and ADRP branches of the two "## Findings" rows (an integer two's-complement patch, and the immediate from page-delta bits 12-32). As written, the PC-relative branch yields packed bytes and the ADRP branch drops bit 23; `ClangReloc.PatchAsWritten` models that.
- ClangReloc.ApplyOne: models the corrected per-relocation step. As written, every PC-relative relocation raises `TypeError` at the OR, and ADRP patches lose the immediate's sign bit; `ClangReloc.ApplyOneAsWritten` models that.
- ClangReloc.ApplyRelocsOk: states completion for the corrected loop. As written, the loop raises at the first PC-relative relocation whose patch is computed, and a negative ADRP page delta is mis-encoded.
- File reads are the `read` parameter: a file's contents, a missing file, or another failure, which escapes the handler. The HTTP server, the reloader thread and `__main__` are left out.
- `pickle`: the matches and sinks are given as values.
- `difflib`: a diff is the pair of renderings it is computed from.
- `_prg` and `Kernel.to_program`: a kernel's program source is a given outcome that may be an error.
- The order of `u.toposort`: `Nodes` is a set, and `changed_nodes` entries are sets of nodes, not lists of ids.
- Labels: `word_wrap`, the VIEW argument formatting, the `:g` formatting of constants, and the `.split('.')` of the op name. An entry keeps the label's parts (op, argument, dtype and the CONST lines) instead of the text.
- VizUop.ReplaceSubst: characterises `_replace_uop` only when the substitution is settled, meaning no node of the result is a key mapped elsewhere. Otherwise the memo makes the result depend on the order of the calls, and that is stated only through `VizUop.ReplaceUop`'s hit rule and map growth.
- VizUop.RewriteIsSubst: proved only when the substitution is settled, meaning no node of the result is a key mapped elsewhere. For a map whose values are themselves keys mapped elsewhere, the memo makes the result depend on the order of the calls, and the model states nothing about it there.
- VizUop.ReplaceTwice: proved only under the same settledness condition. Without it, a node whose rebuild was answered from the memo is not recorded, and a second call may rebuild its sources through the grown memo differently; that case is not stated.
- VizServe.PCall: `pcall` catches only `Exception` (`tinygrad/viz/serve.py:21`). A `BaseException` such as `KeyboardInterrupt` or `SystemExit` propagates, and the model's renderer outcome has no such case.
- VizServe.TrackedMatchesToJson: the sanity check is modelled as structural equality of the rebuilt sink with the current one, which is what `is` means for hash-consed nodes. It states the lists in terms of the reference `Rewrites`, `Diffs`, `ChangedSets` and `UopToJson`. It does not state the text of the diffs.

## Findings

| source | as written | input that shows it | evidently intended | confidence | as-written member | corrected member |
|---|---|---|---|---|---|---|
| tinygrad/runtime/ops_clang.py:20 | For `R_X86_64_PC32` the patch is `struct.pack('<i', tgt+r_addend-ploc)`, a `bytes` value. Line 31 then computes `int \| bytes`, which raises `TypeError`, so no x86-64 PC-relative relocation can be applied. | Image `[0,0,0,0]`, relocation `(ploc=0, tgt=16, R_X86_64_PC32, addend=-4)`: raises instead of writing the displacement 12. | The patch is the two's-complement 32-bit value of `tgt+r_addend-ploc`, ORed into the word. The field then holds the signed displacement. | high (not executed) | ClangReloc.Pc32AsWrittenFails | ClangReloc.Pc32Intended |
| tinygrad/runtime/ops_clang.py:25 | For `R_AARCH64_ADR_PREL_PG_HI21` the immhi field gets `getbits(rel_pg, 14, 31) << 5`, which fills instruction bits 5-22 only. Bit 23, the top bit of the 21-bit immediate and its sign, is never set. | Place 4096, target 0, addend 0: the page delta is -4096, whose bit 32 is set. The patch as written encodes the immediate 0x0FFFFF (about +4 GiB) instead of -1. | The immediate holds bits 12-32 of the page delta, that is, `getbits(rel_pg, 14, 32) << 5`, so negative deltas within 4 GiB are encoded correctly. | medium (not executed) | ClangReloc.AdrpAsWrittenBits | ClangReloc.AdrpPatchBits |
