# Verified models of Thorin

Thorin is a compiler whose intermediate representation is a graph of definitions. This project models the parts of it
whose correctness is least obvious, and proves what they are for. A class whose fields an analysis or pass overwrites is
a class here, with a specification that its methods are proved against; what is made of expressions are datatypes,
functions and lemmas. `dafny verify dfyconfig.toml` checks everything.

- **Control flow** (`Graphs`, `Cfa`, `Rpo`, `FlowGraphs`, `DomTree`, `DomFrontier`). A control-flow graph is linked to
  its exit and numbered in reverse post-order, from the entry and, turned around, from the exit. On such a graph the
  iterative algorithm of Cooper, Harvey and Kennedy ends with the dominator tree, and dominance frontiers are read off
  it. Edge lists are in an arbitrary order, so that what is proved holds for any iteration order of the hash sets.
- **Loops** (`Scc`, `LoopForest`, `LoopLevels`, `LoopTree`). Steensgaard's nested loop forest: Tarjan's search is run
  again and again, on fewer and fewer edges.
- **Scheduling** (`Schedule`). A definition is placed between the earliest block that has its parameters and the latest
  one that dominates all its uses, where the fewest loops are around it.
- **Free definitions** (`FreeDefs`). A worklist analysis on a graph that is discovered as it goes, with results that are
  kept from one run to the next.
- **Passes** (`Nominals`, `Passes`, `EtaExp`). The pass manager rewrites optimistically on a stack of states and rolls
  back; eta expansion keeps a lattice on top of it. What passes do is arbitrary: they are functions given to the manager.
- **Definitions** (`Unify`, `Tuples`, `Flatten`, `Scalarize`, `Scopes`, `ScopeRewrite`). Hash-consing, the rules by which
  tuples, extracts and inserts are built, flattening of nested tuples and of the parameters of functions, scopes and
  substitution.
- **Automatic differentiation** (`Tangents`, `Derivatives`, `AutoDiff`). Reverse mode over expressions of nested tuples,
  with integers for scalars.
- **Loop nests** (`Cps`, `MapReduce`, `LowerFor`, `LowerNest`, `MatrixProduct`). A map-reduce over matrices becomes
  nested counting loops, and these become functions that call each other in continuation-passing style.
- **Normalizers** (`Bitwise`, `Terms`, `Comparisons`, `Wraps`, `BitOps`). Arithmetic, comparisons and bit operations on
  words of 1, 8, 16, 32 and 64 bits.

## Model

| member | source | states |
|---|---|---|
| `ControlFlow.Cfa.Link` | thorin/analyses/cfg.cpp:20-23 | exactly the edge from u to v is added, and successor and predecessor lists stay inverse |
| `ControlFlow.Cfa.BackwardsReachable` | thorin/analyses/cfg.cpp:96-106 | the set grows to one that contains n and is closed under predecessors, and everything new in it reaches n |
| `ControlFlow.Cfa.LinkDeadEnds` | thorin/analyses/cfg.cpp:90-94 | exactly the nodes other than the exit that have no successor get an edge to the exit; none of them could reach it before |
| `ControlFlow.Cfa.LinkEndless` | thorin/analyses/cfg.cpp:118-137 | everything on the stack in the end is closed under edges and reaches the exit; edges are only added, only to the exit, and only from nodes that could not reach it, and no two of these nodes reach each other |
| `ControlFlow.Cfa.LinkToExit` | thorin/analyses/cfg.cpp:84-138 | afterwards every node reaches the exit, no edge is lost, every new edge leads to the exit from a node that could not reach it before, every dead end has one, and of nodes that reach each other at most one has |
| `Numbering.Rpo.PostOrderVisit` | thorin/analyses/cfg.cpp:166-178 | a visit of an unvisited node numbers it and what it reaches downwards from i, keeping the invariant that finished nodes are numbered bijectively, have an earlier predecessor and turn back only along cycles |
| `Numbering.Rpo.constructor` | thorin/analyses/cfg.cpp:158-164 | for every graph whose nodes are all reachable the indices are a bijection to 0..n-1, the entry has index 0, every other node has a predecessor of smaller index, and an edge that does not ascend leads to a node that reaches its source |
| `Numbering.RenumberIsRpo` | thorin/analyses/cfg.cpp:158-178 | the graph renumbered by such a numbering has what the dominator and loop analyses rely on: consistent edge lists and an earlier predecessor for every node but the entry |
| `Numbering.RenumberDom` | thorin/analyses/cfg.cpp:158-178 | a node lies on every walk from the entry to another one if and only if it does so by index in the renumbered graph |
| `FlowGraphs.Number` | thorin/analyses/cfg.cpp:84-178 | after linking to the exit both the graph, from the entry, and the graph turned around, from the exit, are numbered in this sense |
| `FlowGraphs.Dominators` | thorin/analyses/domtree.cpp:6-38 | of any control-flow graph whose nodes are reachable, one tree has as ancestors exactly the dominators, the other exactly the post-dominators of the linked graph |
| `FlowGraphs.ReachesReverses` | thorin/analyses/cfg.cpp:84-178 | reachability in a graph is reachability the other way in the graph turned around |
| `FlowGraphs.PostDomReverses` | thorin/analyses/domtree.cpp:6-38 | a node is on every walk to the exit if and only if it dominates in the graph turned around |
| `DomTrees.DomIsAncestor` | thorin/analyses/domtree.cpp:22-35 | all through the iteration every dominator of a node is a tree ancestor of it |
| `DomTrees.StepKeepsInv` | thorin/analyses/domtree.cpp:22-35 | setting the parent of a node to the meet of its predecessors never raises it and keeps the invariant: strict dominators dominate the parent, common ancestors of the predecessors are ancestors of the parent, and every node is on the path of an earlier predecessor or still to be visited |
| `DomTrees.FixpointIsDominance` | thorin/analyses/domtree.cpp:6-38 | once every parent is the meet of all predecessors, the tree ancestors of a node are exactly the nodes on all walks from the entry to it |
| `DomTrees.ParentIsIdom` | thorin/analyses/domtree.cpp:6-38 | in the dominator tree the parent is the immediate dominator, and the only one |
| `DomTrees.DomTree.LeastCommonAncestor` | thorin/analyses/domtree.cpp:47-54 | the two walks end, and the ancestors of the result are exactly the common ancestors of both nodes |
| `DomTrees.DomTree.NewIdom` | thorin/analyses/domtree.cpp:26-29 | the new parent's ancestors are exactly the common ancestors of all predecessors |
| `DomTrees.DomTree.FirstIdoms` | thorin/analyses/domtree.cpp:11-20 | taking the first earlier predecessor as parent everywhere establishes the invariant |
| `DomTrees.DomTree.Pass` | thorin/analyses/domtree.cpp:22-35 | a pass keeps the invariant; it strictly lowers the sum of all parents, or it changes nothing and every parent is the meet of its predecessors |
| `DomTrees.DomTree.Create` | thorin/analyses/domtree.cpp:6-38 | the loop ends for every rooted graph with the dominator tree, and every node lists exactly its children, in order |
| `DomTrees.DomTree.Depth` | thorin/analyses/domtree.cpp:41-44 | exactly the nodes in the subtree of n get their depth in the tree, the others keep what they had |
| `DomTrees.DepthCountsAncestors` | thorin/analyses/domtree.cpp:41-44 | the depth of a node is one less than the number of its ancestors |
| `DomFrontiers.WalkedUp` | thorin/analyses/domfrontier.cpp:13-16 | the walk from a predecessor p of n up to, but without, the immediate dominator of n meets exactly what dominates p and does not strictly dominate n |
| `DomFrontiers.SinglePred` | thorin/analyses/domfrontier.cpp:12 | a node with a single predecessor is in no dominance frontier, so it is right to skip it |
| `DomFrontiers.DomFrontier.constructor` | thorin/analyses/domfrontier.cpp:8-19 | for every node but the entry, i is linked to n if and only if i dominates a predecessor of n and does not strictly dominate n; both link tables agree |
| `Tarjan.Pop` | thorin/analyses/looptree.cpp:147-187 | popping everything from a root on keeps the invariant of the search |
| `Tarjan.PopIsScc` | thorin/analyses/looptree.cpp:147-187 | what is popped is a strongly connected component of the graph without edges into marked heads, and a whole one |
| `Tarjan.MutualWithRoot` | thorin/analyses/looptree.cpp:135-190 | what stands on the stack above a finished node is mutually reachable with it |
| `LoopTrees.LoopTreeBuilder.IsLeaf` | thorin/analyses/looptree.cpp:71-79 | a component counts as a leaf if and only if it is one node without an edge to itself that does not lead to a marked head |
| `LoopTrees.LoopTreeBuilder.CollectHeads` | thorin/analyses/looptree.cpp:158-174 | the heads are exactly the nodes of the component, in order, that are the entry or have a predecessor outside |
| `LoopTrees.LoopTreeBuilder.PopScc` | thorin/analyses/looptree.cpp:147-187 | the component becomes exactly one new child of the parent, a leaf or a head with its entry nodes, the flags are reset and the stack is cut back |
| `LoopTrees.LoopTreeBuilder.WalkScc` | thorin/analyses/looptree.cpp:135-190 | a call visits what is reachable without marked heads, and what it takes off the stack is exactly what the new children of the parent represent, each child one strongly connected component |
| `LoopTrees.LoopTreeBuilder.FindLevel` | thorin/analyses/looptree.cpp:118-127 | searching from all heads of a level splits its whole region into the components of the region without edges into its heads, pairwise disjoint, one child each |
| `LoopTrees.LoopTreeBuilder.Recurse` | thorin/analyses/looptree.cpp:117-132 | the recursion ends; every head below represents a component of its parent's nodes with its entry nodes as heads, and every node of the region has a leaf |
| `LoopTrees.LoopTreeBuilder.constructor` | thorin/analyses/looptree.cpp:107-114 | for every numbered graph the forest below the root is nested like this on every level, and every node has exactly one leaf, found in the leaf table |
| `Scheduling.Program.NeedsAre` | thorin/analyses/schedule.cpp:67-84 | the blocks in which a definition is needed are exactly the places at the ends of chains of uses that lead through expressions |
| `Scheduling.Program.BindersAre` | thorin/analyses/schedule.cpp:51-65 | the blocks that bind what a definition depends on are exactly those of the parameters at the ends of chains of operands that meet no block |
| `Scheduling.EarlyDominatesLate` | thorin/analyses/schedule.cpp:51-84 | where definitions only use what is available, the early block dominates the late one, and all parameters needed are available in it |
| `Scheduling.Scheduler.Early` | thorin/analyses/schedule.cpp:51-65 | the result is a deepest block that binds a parameter the definition depends on, the entry if there is none; remembered results stay right |
| `Scheduling.Scheduler.Late` | thorin/analyses/schedule.cpp:67-84 | the ancestors of the result are exactly the common dominators of all blocks that need the definition; remembered results stay right |
| `Scheduling.Scheduler.Walk` | thorin/analyses/schedule.cpp:89-109 | there is a result if and only if the early block dominates the late one; it is on the dominator path between them, has the least loop depth there, and is the closest to the late block of those that have |
| `Scheduling.Scheduler.Smart` | thorin/analyses/schedule.cpp:86-112 | the same for the early and late block of a definition; without a result the early block does not dominate the late one, and in strict programs there always is one |
| `FreeDefs.LocalsOfAre` | dialects/clos/phase/clos_conv.cpp:27-51 | the definitions kept are exactly those of the leaves below compound definitions that are parameters other than the return continuation, blocks marked as free, or opaque |
| `FreeDefs.FreeIsLeast` | dialects/clos/phase/clos_conv.cpp:70-89 | whatever sets contain local definitions and pass on along references contain all free definitions: these are the least solution |
| `FreeDefs.FreeIsCaptured` | dialects/clos/phase/clos_conv.cpp:27-100 | what the least solution contains is exactly what has to be captured: some nominal that the function leads to, from mention to mention, contains a leaf that keeps it |
| `FreeDefs.RunStep` | dialects/clos/phase/clos_conv.cpp:70-89 | taking a node off the worklist, taking over its predecessors' sets and queueing its successors if it changed keeps the invariant of the run |
| `FreeDefs.NoneBot` | dialects/clos/phase/clos_conv.cpp:53-68 | once the worklist is empty no node is left uninitialized, cycles included |
| `FreeDefs.RunEnd` | dialects/clos/phase/clos_conv.cpp:70-89 | then the set of every node is exactly what is free in it |
| `FreeDefs.FreeDefAna.SplitFd` | dialects/clos/phase/clos_conv.cpp:27-51 | the node gets exactly the definitions to be kept and links to exactly the nominals mentioned, building those that are new; which these are is stated in LocalsOfAre and FreeIsCaptured |
| `FreeDefs.FreeDefAna.BuildNode` | dialects/clos/phase/clos_conv.cpp:53-68 | afterwards there is a node; nodes that were there keep their sets unless they are being built, and new ones are complete and waiting in the worklist or for others |
| `FreeDefs.FreeDefAna.RunWorklist` | dialects/clos/phase/clos_conv.cpp:70-89 | the worklist empties, and nodes finished in an earlier run do not change |
| `FreeDefs.FreeDefAna.Run` | dialects/clos/phase/clos_conv.cpp:91-100 | after any earlier runs d is in the result if and only if, from some nominal reachable by mention, a path through compound definitions leads to a leaf that is parameter d and no return continuation, d marked as a free block, or d opaque; results of earlier runs stay as they were |
| `Nominals.UsesDetermined` | thorin/def.cpp:306-328 | use lists that are the inverse of the operands are determined by them, whatever happened before |
| `Nominals.World.Unset` | thorin/def.cpp:321-328 | the operand is gone, no other changed, and use lists are the inverse of the operands again |
| `Nominals.World.Set` | thorin/def.cpp:306-319 | exactly this operand is replaced, and use lists are the inverse of the operands again |
| `Passes.HistPops` | thorin/pass/pass.cpp:28-37 | restoring the operands of the newest state's nominal and dropping the state leads back to the operands and states it was pushed on, but for nominals created since |
| `Passes.FindNom` | thorin/pass/pass.cpp:133-143 | pushing a nominal analyzed for the first time keeps the visit stack as exactly the nominals found and not visited, each once |
| `Passes.AllVisited` | thorin/pass/pass.cpp:57-84 | once the stack is empty every nominal found has been visited, and the visited ones refer to visited ones only |
| `Passes.MapReplaces` | thorin/pass/pass.h:184-188 | after map the old definition is looked up as the new one, the new one is known, and every other definition is looked up as before |
| `Passes.PassMan.PushState` | thorin/pass/pass.cpp:13-26 | the new state works on the top of the stack, remembers its operands, takes over stack, visits and data, and has analyzed and replaced nothing |
| `Passes.PassMan.PopStates` | thorin/pass/pass.cpp:28-37 | going back to any state restores it and all below, the operands of all nominals that were there, and the use lists; dropping all states restores nothing |
| `Passes.PassMan.Lookup` | thorin/pass/pass.h:190-194 | the result is the replacement in the newest state that has one |
| `Passes.PassMan.Analyzed` | thorin/pass/pass.h:200-206 | says whether any state has analyzed the definition, and enters it into the newest state if none has |
| `Passes.PassMan.UndoVisitOf` | thorin/pass/pass.h:286-291 | the state is the one in which the nominal was seen first; there is none if and only if it was not seen |
| `Passes.PassMan.UndoEnterOf` | thorin/pass/pass.h:293-297 | the state is one that works on the nominal; there is none if and only if no state does |
| `Passes.PassMan.Rewrite` | thorin/pass/pass.cpp:93-131 | the result is reached by steps each of which takes what a definition was rewritten to before, or offers the passes what it is built anew to from operands that are what its own were looked up as, in order, and takes their answer, until they leave it as it is; a definition not known before is offered to them; whatever relation building anew and the passes respect holds between definition and result; there is no result only if the definition or something below it keeps changing for more rounds than allowed; the result is what the definition is looked up as from then on, and only operands of the current nominal and the newest state change |
| `Passes.PassMan.RewriteOps` | thorin/pass/pass.cpp:108-112 | the definition offered has as many operands, each what the one at its place was looked up as once it was rewritten, in order |
| `Passes.PassMan.RewriteIdle` | thorin/pass/pass.cpp:93-131 | if the passes leave everything as it is and building anew gives what is asked for, every definition is rewritten to itself, in however few rounds |
| `Passes.PassMan.RewriteBody` | thorin/pass/pass.cpp:65-70 | no operand of another nominal and no older state changes; unless the passes write operands themselves, every operand becomes exactly what rewriting it gave, and one that is missing stays missing |
| `Passes.PassMan.RewriteOp` | thorin/pass/pass.cpp:70 | the operand becomes what it is looked up as from then on, which is what rewriting it gave, and others change only if the passes write them |
| `Passes.PassMan.Ask` | thorin/pass/pass.cpp:140-152 | the passes are asked about this definition once; each of their requests leads to the state that saw the nominal first or works on it, and the result is the earliest of these points |
| `Passes.PassMan.Analyze` | thorin/pass/pass.cpp:133-156 | afterwards the definition and all structural ones it consists of are analyzed and the nominals among them found; the passes were asked about everything new that is no nominal, and the undo point is the earliest that anyone asked for |
| `Passes.PassMan.VisitNext` | thorin/pass/pass.cpp:57-84 | a step either adds a state on top of those there were, or goes back to an earlier one with operands, stack, visits, replacements and analyzed definitions as they were when it was pushed |
| `Passes.PassMan.Run` | thorin/pass/pass.cpp:39-91 | if the run ends, the external nominals and everything they refer to in the final operands, directly or not, have been visited, and use lists are the inverse of the operands |
| `EtaExpansion.Compressed` | thorin/pass/fp/eta_exp.cpp:7-16 | path compression leaves the root of every function as it is |
| `EtaExpansion.SameUpToEta` | thorin/pass/fp/eta_exp.cpp:18-40 | what takes the place of an operand leads back to the same function |
| `EtaExpansion.EtaExp.NewToOld` | thorin/pass/fp/eta_exp.cpp:7-16 | the result is the root; no root changes, and the function points to its root directly |
| `EtaExpansion.EtaExp.Rewrite` | thorin/pass/fp/eta_exp.cpp:18-40 | no expansion is called any more; an operand elsewhere is replaced if and only if it is to be expanded or is an expansion, by an expansion of the same function; two replaced operands get different ones; what was rewritten stays |
| `EtaExpansion.EtaExp.EtaExpand` | thorin/pass/fp/eta_exp.cpp:42-49 | one new function that stands for the old one and for this operand only |
| `EtaExpansion.EtaExp.AnalyzeProxy` | thorin/pass/fp/eta_exp.cpp:51-56 | the function is to be expanded, and undoing is asked for if and only if that is news |
| `EtaExpansion.EtaExp.AnalyzeOp` | thorin/pass/fp/eta_exp.cpp:58-88 | the function's root is to be expanded and undone if and only if, with this occurrence, it was seen more than once and not only as a callee; no state but the newest changes |
| `EtaExpansion.EtaExp.Analyze` | thorin/pass/fp/eta_exp.cpp:58-88 | with the occurrences among the operands counted for the original of each function, one neither to be expanded nor an expansion is to be expanded now if and only if those seen so far and those here are together neither callee occurrences only nor a single other one; else the lattice element is that of all these occurrences; undone is exactly what is newly to be expanded, and older states do not change |
| `EtaExpansion.EtaExp.PopTo` | thorin/pass/fp/eta_exp.h:26-46 | going back brings back the lattice of the state gone back to, and keeps what is to be expanded |
| `Unify.TreesInjective` | thorin/world.h:457-482 | two nodes that stand for the same tree are the same node: structural equality is identity |
| `Unify.World.UnifyNode` | thorin/world.h:457-482 | the result looks as asked for; a new node is made only if there is none, with operands that are older; a frozen world makes none and says so; no node there changes |
| `Unify.World.InsertNode` | thorin/world.h:484-494 | a nominal node is always a new one, and no node there changes |
| `Tuples.MkTupleMeans` | thorin/world.cpp:140-176 | a tuple built from any operands, by the rules for one operand, for equal ones and by eta, has their type and their values |
| `Tuples.MkExtractMeans` | thorin/world.cpp:184-239 | an extract built by any of the rules, looking past updates at other literal indices included, has the type and the value of the operand at the index |
| `Tuples.MkInsertMeans` | thorin/world.cpp:241-276 | an insert built by any of the rules has the type of the tuple and its value updated at the index |
| `Flatten.LeavesDenote` | thorin/tuple.cpp:21-31 | the leaves of a definition denote the leaves of its value, for every nested type |
| `Flatten.FlattenInto` | thorin/tuple.cpp:21-31 | appends exactly the leaves, in order, and counts them |
| `Flatten.Unflatten` | thorin/tuple.cpp:41-50 | builds the definition that Rebuild specifies and advances the index like it |
| `Flatten.RebuildMeans` | thorin/tuple.cpp:41-57 | rebuilding from any definitions of the leaves of a value gives a definition of that type and value, and consumes exactly the leaves |
| `Flatten.UnflattenFlatten` | thorin/tuple.cpp:21-57 | unflattening the leaves of any definition gives one of the same type and value in every environment, and consumes all leaves |
| `Flatten.UnflattenIsIdentity` | thorin/tuple.cpp:21-57 | it gives the very same definition if nothing on the way to the leaves would be built differently by the tuple rules |
| `Scalarize.SubstMeans` | thorin/pass/rw/scalarize.cpp:49 | putting a definition in place of a variable and building everything anew means giving the variable its value |
| `Scalarize.NewVarsDenote` | thorin/pass/rw/scalarize.cpp:43-48 | the flat parameters put together denote the original arguments, one by one |
| `Scalarize.ScalarFlattens` | thorin/pass/rw/scalarize.cpp:24-54 | the flat function computes from the leaves of any argument what the original computes from the argument |
| `Scalarize.CallPasses` | thorin/pass/rw/scalarize.cpp:74-78 | at a call the tuple of the leaves of the argument has the flat function's parameter type and passes the leaves of the argument's value |
| `Scalarize.Scalerize.MakeScalar` | thorin/pass/rw/scalarize.cpp:24-54 | every function with a flat counterpart has one that computes the same; a function is its own counterpart if and only if no parameter is a tuple; counterparts stay |
| `Scopes.AllRefer` | thorin/analyses/scope.cpp:25-38 | what contains the variable and is closed under users, entry and exit aside, contains everything that refers to the variable |
| `Scopes.Scope.Run` | thorin/analyses/scope.cpp:25-38 | the walk over users finds exactly what refers to the variable other than through entry and exit |
| `Scopes.Scope.CalcBound` | thorin/analyses/scope.cpp:40-63 | bound is exactly what refers to the variable and is reached from the entry's operands, free exactly what is mentioned there, is not constant and does not refer to it |
| `Scopes.Scope.CalcFree` | thorin/analyses/scope.cpp:65-87 | the free variables and nominals are exactly those below the free definitions with only structural definitions in between |
| `ScopeRewrite.SubstUnbound` | thorin/rewrite.h:39-42 | plain substitution leaves whatever does not refer to the variable as it is |
| `ScopeRewrite.SubstMeans` | thorin/rewrite.cpp:9-29 | for every meaning under which what is built from operands means what its operator makes of theirs, the result of substitution means what the definition means when the variable means what takes its place, wherever the variable occurs |
| `ScopeRewrite.ReadingExists` | thorin/rewrite.cpp:9-29 | every meaning can be read with any other value for the variable, so that this is never empty |
| `ScopeRewrite.ScopeRewriter.Rewrite` | thorin/rewrite.cpp:9-29 | skipping what is not bound and rewriting the rest once gives the result of plain substitution, whose meaning SubstMeans states, for everything reachable; what is remembered stays |
| `Derivatives.DerivIsDerivative` | dialects/autodiff/autodiff.thorin:181-282 | the derivative used below is one: moving the parameter by t times v changes the value by t times the derivative and t squared times a rest |
| `Derivatives.MkTupleSame` | thorin/world.cpp:140-176 | the rules for tuples keep type, value and derivative everywhere |
| `Derivatives.MkExtractSame` | thorin/world.cpp:184-239 | the rules for extracts do, too |
| `AutoDiff.CallIsPull` | dialects/autodiff/auxiliary/autodiff_aux.cpp:298-343 | a pullback in continuation-passing style, whatever it is composed of, passes its direct-style result to the continuation |
| `AutoDiff.AdjointTuple` | dialects/autodiff/auxiliary/mem/autodiff_mem_aux.cpp:146-201 | calling the operands' pullbacks with the parts of the tangent and summing up is the adjoint of the tuple's derivative |
| `AutoDiff.AdjointPack` | dialects/autodiff/auxiliary/autodiff_rewrite_inner.cpp:182-230 | so is the sum over the parts of the tangent of a pack |
| `AutoDiff.AdjointExtract` | dialects/autodiff/auxiliary/autodiff_rewrite_inner.cpp:131-161 | so is the tuple's pullback of the tangent put into zero, for an operand |
| `AutoDiff.AdjointPrim` | dialects/autodiff/auxiliary/autodiff_rewrite_inner.cpp:300-321 | so is the operator's pullback composed with that of its argument |
| `AutoDiff.ComparisonStops` | dialects/autodiff/autodiff.thorin:181-282 | a pullback that is adjoint to a comparison gives zero for every tangent |
| `AutoDiff.AdjointUnique` | dialects/autodiff/auxiliary/autodiff_rewrite_inner.cpp:126-163 | pullbacks that are adjoint to the same derivative are the same function |
| `AutoDiff.PullbackLinear` | dialects/autodiff/auxiliary/autodiff_rewrite_inner.cpp:126-163 | a pullback that is adjoint to a derivative is linear; that those built are is stated in Derive |
| `AutoDiff.ShadowAgrees` | dialects/autodiff/auxiliary/autodiff_rewrite_inner.cpp:126-163 | reading a tuple's shadow pullback at i equals applying the tuple's pullback to the tangent inserted at i into zero |
| `AutoDiff.AutoDiffEval.Augment` | dialects/autodiff/passes/autodiff_eval.cpp:16-21 | the augmented expression has type, value and derivative of the original, and the pullback entered for it is the adjoint of the derivative |
| `AutoDiff.AutoDiffEval.AugmentExtract` | dialects/autodiff/auxiliary/autodiff_rewrite_inner.cpp:106-166 | in both branches the pullback entered equals the whole tuple's pullback of the tangent put into zero |
| `AutoDiff.AutoDiffEval.BuildAugmentedTuple` | dialects/autodiff/auxiliary/mem/autodiff_mem_aux.cpp:146-201 | the tuple of augmented operands keeps value and derivative, and its pullback and shadow pullback are adjoint |
| `AutoDiff.AutoDiffEval.AugmentApp` | dialects/autodiff/auxiliary/autodiff_rewrite_inner.cpp:300-321 | the operator applied to the augmented argument has a pullback, adjoint to its derivative, through which no tangent gets if it is a comparison |
| `AutoDiff.Derive` | dialects/autodiff/auxiliary/autodiff_rewrite_toplevel.cpp:40-81 | for every differentiable body the result keeps the value and comes with a pullback that is linear and satisfies <pb(s), v> = <s, De(v)> for all s and v; that of a comparison is zero |
| `LowerFor.Lowering.Rewrite` | dialects/affine/passes/lower_for.cpp:10-57 | a loop not seen before becomes four new functions that count, run the body, yield and break; one seen before is not lowered again; what was lowered stays |
| `LowerFor.OneIteration` | dialects/affine/passes/lower_for.cpp:28-49 | whatever code the body is made of, a round below the end goes back to the loop function with the counter increased in the word and the accumulator that the body computes |
| `LowerFor.LoopIterates` | dialects/affine/passes/lower_for.cpp:10-57 | the lowered functions reach the break function with what the loop stands for, provided that no counter wraps around |
| `LowerFor.NoWrapIsLastFits` | dialects/affine/passes/lower_for.cpp:28-34 | no counter wraps if and only if the counter after the last one below the end fits a word |
| `LowerFor.IteratesIffLastFits` | dialects/affine/passes/lower_for.cpp:10-57 | a lowered loop that lists its counters ever returns the list it stands for if and only if the counter after the last one fits a word |
| `LowerFor.WrapsForever` | dialects/affine/passes/lower_for.cpp:28-34 | from any even counter in steps of two up to 2^32 - 1 no number of steps ends the loop |
| `MapReduce.AllTuplesAre` | dialects/matrix/passes/lower_matrix_mediumlevel.cpp:235-319 | the tuples folded over are exactly those within the bounds, in strictly increasing lexicographic order |
| `MapReduce.InnerIsFold` | dialects/matrix/passes/lower_matrix_mediumlevel.cpp:302-319 | nested inner loops are one left fold over all tuples of the inner dimensions |
| `MapReduce.OuterIsMapReduce` | dialects/matrix/passes/lower_matrix_mediumlevel.cpp:235-296 | the outer loops write that fold at every output index within bounds and change nothing else |
| `MapReduce.NestMeans` | dialects/matrix/passes/lower_matrix_mediumlevel.cpp:38-363 | running the nest of counting loops passes on the matrix that holds, at every output index, the left fold of the combining function from zero over all input indices, for any number of dimensions and inputs |
| `MapReduce.Builder.CollectDims` | dialects/matrix/passes/lower_matrix_mediumlevel.cpp:106-183 | every iterator of output and inputs gets its dimension, and no other iterator gets one |
| `MapReduce.Builder.Rewrite` | dialects/matrix/passes/lower_matrix_mediumlevel.cpp:38-363 | the functions built are such a nest, with exactly the iterators of output and inputs in increasing order, output iterators outermost, and their dimensions; position j of input i is read at the function whose iterator is the j-th of that input |
| `MapReduce.MapReduceReduces` | dialects/matrix/passes/lower_matrix_mediumlevel.cpp:328-357 | the matrix of such a nest holds the fold of the elements task.read(i, x) with x the values of the iterators of input i, position by position |
| `NestLowering.LowerNest` | dialects/affine/passes/lower_for.cpp:10-57 | every counting loop of a nest is replaced by its four functions, whose bodies continue in one another |
| `NestLowering.LoopRuns` | dialects/affine/passes/lower_for.cpp:10-57 | a lowered loop of a nest goes from its start to where it exits with what it stands for, for whatever its body computes |
| `NestLowering.InnerRuns` | dialects/matrix/passes/lower_matrix_mediumlevel.cpp:302-319 | lowered inner loops pass the inner reduction to what they exit to and leave the arguments of all outer functions alone |
| `NestLowering.OuterRuns` | dialects/matrix/passes/lower_matrix_mediumlevel.cpp:235-296 | lowered outer loops pass the matrix with all their elements written to the yield of the loop around them |
| `NestLowering.LoweredMeans` | dialects/matrix/passes/lower_matrix_mediumlevel.cpp:38-363 | the lowered nest ends and returns the matrix described at NestMeans, for all dimensions below 2^32 |
| `NestLowering.LowerMapReduce` | dialects/matrix/passes/lower_matrix_mediumlevel.cpp:38-363 | building the nest for any output and inputs and lowering all its loops gives a program that ends and returns the matrix that holds, within the bounds of the output, the left fold from zero, over all values of the other iterators, of the elements of the inputs each read at the values of its own iterators, and what was there elsewhere |
| `MatrixProduct.LowerProduct` | dialects/matrix/passes/lower_matrix_mediumlevel.cpp:38-363 | for the inputs a at iterators 0 and 2 and b at 2 and 1 the lowered program returns the matrix product: element i, j is the sum over k of a at i, k times b at k, j |
| `Comparisons.FoldIcmpMeans` | dialects/core/normalizers.cpp:87-96 | every pair of words of any width is in exactly one of five relations, and a comparison of literals holds if and only if its subtag has the bit of that relation |
| `Comparisons.Aliases` | dialects/core/core.thorin:107-178 | the ten named comparisons are equality, its negation and the signed and unsigned orders |
| `Comparisons.MergeSubs` | dialects/core/normalizers.cpp:262-286 | pushing the bits of two subtags through a table in a byte gives the table applied to the subtags bit by bit |
| `Comparisons.MergeMeans` | dialects/core/normalizers.cpp:262-286 | the merged comparison holds of two words if and only if the table says so for the two comparisons |
| `BitOps.MkIcmpMeans` | dialects/core/normalizers.cpp:225-240 | a comparison built by folding, commuting and for always, never and equal operands has the value of the comparison |
| `BitOps.TablesSwapped` | dialects/core/core.h:142-147 | the table of the normalizer is the documented one with the operands exchanged, and the same if and only if it is symmetric |
| `BitOps.MkBit2Means` | dialects/core/normalizers.cpp:288-364 | a bit operation built by merging, folding, all special cases and reassociation has the value of its documented table applied bit by bit, with the operands exchanged exactly in the cases called Confused |
| `BitOps.MkBit2IsTable` | dialects/core/normalizers.cpp:288-364 | it has the value of the documented table if and only if it is not one of these cases or both operands have the same value |
| `BitOps.FirstComparisonIsSecond` | dialects/core/core.h:142-147 | for any x and y the first of x == y and x != y is built as x != y, which has a different value |
| `BitOps.ReassociateMeans` | dialects/core/normalizers.cpp:147-176 | moving literals of an associative bit operation together keeps its value |
| `Bitwise.BitsAssociative` | dialects/core/core.h:161-184 | an associative table is associative bit by bit on words of any width |
| `Bitwise.BitsAsymmetric` | dialects/core/core.h:142-147 | a table that is not symmetric gives the same with operands exchanged only if they are equal |
| `Wraps.FoldMeans` | dialects/core/normalizers.cpp:38-59 | a folded sum, difference or product is right modulo the word, for 8 and 16 bits, too |
| `Wraps.MkWrapMeans` | dialects/core/normalizers.cpp:399-460 | a sum, difference or product without nsw and nuw of words wider than one bit keeps its value modulo the word through folding, commuting, all special cases and reassociation, which end |
| `Wraps.MkWrapNormal` | dialects/core/normalizers.cpp:147-176 | building from operands in normal form gives a normal form: literals of a maximal sum or product stand only on the left of its root |
| `Wraps.NormalShape` | dialects/core/normalizers.cpp:147-176 | in normal form a maximal sum or product has one literal if its left operand is one, and none otherwise |
| `Wraps.FoldInRange` | dialects/core/normalizers.cpp:46-59 | the folded literal fits its word if and only if the word has more than 16 bits, or it is a product, a sum that does not overflow or a difference that is not negative |
| `Wraps.ShortSumLeavesRange` | dialects/core/normalizers.cpp:46-50 | 255 + 1 is folded to a literal of 8 bits that does not fit |
| `Wraps.MkWrapInRange` | dialects/core/normalizers.cpp:399-460 | for words of 32 and 64 bits literals never leave their range |

## Findings

Three properties the code is meant to have do not hold of it. The models keep the code as it is; each failure is given by
an input, and the exact condition under which the property holds is proved for all inputs.

| property | fails for | holds if and only if |
|---|---|---|
| A binary bit operation has the documented truth table (dialects/core/core.thorin:56-79) | `a` of `x == y` and `x != y`, the first operand, is built as `x != y` (`BitOps.FirstComparisonIsSecond`): dialects/core/core.h:142-147 has the two mixed entries of every table the other way round, and merging comparisons as well as implications with the literal 0 or all ones use that table | the operands are not confused, or have the same value (`BitOps.MkBit2IsTable`). `Confused` can be read off the call: the table is not symmetric, and both operands are comparisons of the same operands, or the operation is one of the four implications and one operand is such a literal while the other is no literal |
| A folded literal fits its word | 255 + 1 of 8 bits is folded to 256 (`Wraps.ShortSumLeavesRange`): dialects/core/normalizers.cpp:46-54 adds and subtracts short words as 32-bit integers and does not cut the result back | the word has more than 16 bits, or it is a product, or the sum does not overflow, or the difference is not negative (`Wraps.FoldInRange`). Modulo the word folding is always right (`Wraps.FoldMeans`) |
| A lowered counting loop computes what the loop stands for | from 0 in steps of 2 up to 2^32 - 1 it runs forever (`LowerFor.WrapsForever`): dialects/affine/passes/lower_for.cpp:32 adds in 32 bits and wraps around below the end | the counter after the last one below the end fits a word, a condition on begin, end and step (`LowerFor.IteratesIffLastFits`, `LowerFor.NoWrapIsLastFits`). The loops over matrices always meet it (`LowerFor.StepOneNoWrap`) |

Smaller observations:

- Unflattening what was flattened gives an equal value always, but the very same definition only for definitions that
  the tuple rules would not build differently (`Flatten.UnflattenFlatten`, `Flatten.UnflattenIsIdentity`); an update of
  a tuple, for example, comes back as a tuple.
- `Scheduler::late` records the place of constant definitions as their early place (thorin/analyses/schedule.cpp:69).
  That place is right as an early one, too, which `Scheduling.Scheduler.Late` states.

## Left out

Members whose contracts say less than the code promises:

- Wraps.MkWrapMeans: add, sub and mul without nsw and nuw on words of 8 to 64 bits only. Shifts, the nsw and nuw modes and one-bit words depend on what C++ does with promoted, shifted and boolean operands, and `Bot` operands are not modelled.
- Wraps.MkWrapNormal: the normal form is about sums and products of the words `Wraps.MkWrapMeans` covers.
- BitOps.MkBit2Means: comparisons merged are those of words, not `math::cmp` of floating-point numbers; sizes are known, and no operand is `Bot`.
- BitOps.MkIcmpMeans: no operand is `Bot`, and sizes are known.
- Passes.PassMan.Rewrite: passes can keep rewriting going forever, so there is a bound on the rounds, and no result if it is reached. Types and debug information are not rewritten apart from operands, and proxies are not told apart from other definitions.
- Passes.PassMan.RewriteBody: a nominal whose last operand is set is taken to have them all; a missing one is skipped instead of being dereferenced. If passes write operands of the nominal while others are rewritten, what is there in the end is up to them.
- Passes.PassMan.Run: bounded in steps and rounds, since passes can also roll back forever; nothing is claimed of runs that do not end. Managers without a fixed-point pass, which push no states, are not modelled. The cleanup phase after the run is not modelled, nor is the assertion that no proxies are left.
- EtaExpansion.EtaExp.Rewrite: a definition consists of operands of which it is known whether they are functions, set and called; the bodies of expansions are not built, an expansion is related to its original by number.
- EtaExpansion.EtaExp.AnalyzeOp: which state is undone is the business of the pass manager and is not computed here.
- Scheduling.Scheduler.Smart: who uses what is given by the program; the walk that collects uses (thorin/analyses/schedule.cpp:14-49) is not modelled.
- FreeDefs.FreeDefAna.Run: how a free definition is classified, and what is free in a single nominal, are given. A free definition is a finite tree.
- LoopTrees.LoopTreeBuilder.constructor: nodes of the forest are positions in a sequence, not objects with pointers to each other.
- DomFrontiers.DomFrontier.constructor: the entry of the graph gets no links, as in the code, although an edge back to it would put it into frontiers; a link may be stored twice, as in the code.
- NestLowering.LowerMapReduce: dimensions are literals below 2^32, as counters are 32 bits wide; matrices are values that functions pass on, so that memory tokens and in-place writes are not modelled. The cleaning up of the functions' bodies by other passes is not modelled.
- MapReduce.Builder.Rewrite: dimensions given by expressions are not modelled, nor is the failure for dimensions that disagree; that they agree is required.
- LowerFor.Lowering.Rewrite: the counter has 32 bits, and the body and what follows the loop are given as functions of counter, accumulator and continuation, which is what inlining the body's parameters amounts to.
- Tuples.MkInsertMeans: updates of a tuple or a pack are at literal indices, as the code assumes there; nominal sigmas and dependent types are not modelled.
- Tuples.MkExtractMeans: indices are single definitions, not tuples or packs of indices; types do not depend on values.
- Tuples.MkTupleMeans: nominal sigmas, which may have one component, are not modelled; packs have a literal number of components.
- Scalarize.Scalerize.MakeScalar: functions have two parameters or more and structural parameter types; updates in the body are at literal indices. Callees that are extracts of tuples of functions (thorin/pass/rw/scalarize.cpp:64-71) are not modelled.
- ScopeRewrite.ScopeRewriter.Rewrite: bound definitions are structural; rewriting the bodies of nominals is not modelled.
- Scopes.Scope.CalcBound: types and debug information count as operands.
- Unify.World.UnifyNode: operands are older than the node, so that structural definitions are finite; the arena and hash collisions are not modelled. As in the code, debug information does not count.
- AutoDiff.Derive: functions from one parameter to a result, made of literals, tuples, packs, extracts at literal indices and operators with registered derivatives. Calls of other functions, open continuations, memory, pointers and inserts are not modelled. Scalars are integers, without wrap-around.
- Derivatives.DerivIsDerivative: for addition and multiplication; comparisons have the derivative zero by definition of the dialect.
- Flatten.FlattenInto: nominal tuples are never flattened, and every arity is a literal.

Parts of the compiler without a model:

- Command line, plugins, logging, the front end, emitters and dot output: text and input/output.
- Type checking and inference, and `Checker::equiv` with its cached assumptions.
- Normalizers of `math`, of shifts, divisions and conversions: floating point and the corner cases of C++ integers.
- Arrays and packs whose shape is a tuple or itself a pack, and arities that are not literals.
- The other passes and phases: inlining, eta reduction, tail recursion elimination, SSA construction, closure conversion beyond free definitions, and the dialects `compile`, `opt` and `refly`.
- Garbage collection of the world, debug information, names, arenas and hash functions: iteration over hash tables is modelled as iteration in an arbitrary order.
