# npunlock: verified model

npunlock compiles a symbolic graph to a carrier program, decides which native ACT group belongs to which
custom node, patches and caches the program, and runs it through a stateful driver session. This project
models the parts of it whose correctness is an argument over all inputs, all runs or all interleavings, and
proves them with Dafny 4.11:

    dafny verify dfyconfig.toml

| file | what it models |
|---|---|
| `Wrappers.dfy`, `Bytes.dfy`, `Sequences.dfy` | optional values, bytes, and properties of sequences |
| `Driver.dfy`, `Session.dfy` | the driver as a machine any call of which may fail, with its protocol as preconditions; the inference session with its cached recording, and the reference machine that never reuses one |
| `Bindings.dfy`, `Inference.dfy` | binding of caller buffers to graph arguments; the shared and the copied inference call |
| `Lifetime.dfy` | reference counting of the session against shared buffers, over all interleavings |
| `Targets.dfy` | the contract between custom nodes and native targets, and the projection of version 2 records to version 1 |
| `GroupMapping.dfy`, `Resolution.dfy` | the search for the unique composition of groups over nodes; resolution of explicit, saved and automatic bindings |
| `Graph.dfy`, `Topology.dfy` | topological order with cycle detection; the search for assignments that respect native reachability |
| `Ir.dfy` | the IR serializer and a decoder for it |
| `Shapes.dfy`, `ShapeMeaning.dfy` | static shape inference as an algebra, and what it accepts |
| `Sha256.dfy`, `Fips180Roots.dfy` | FIPS 180-4, where its constants come from, and the streaming implementation |
| `ProgramCache.dfy` | the on-disk cache protocol, with crashes |
| `Elf32.dfy`, `ElfLayout.dfy`, `Checked.dfy` | the SHAVE ELF32 validator, and the layout of the smallest image |
| `PercentCodec.dfy`, `Location.dfy`, `LocationMeaning.dfy` | percent encodings, location expressions, and which texts express which location |
| `LittleEndian.dfy`, `WorkerRequest.dfy`, `RequestLayout.dfy` | worker requests, their byte order, and their layout |

Objects the source updates in place are classes, its loops are loops, and each such method is tied to a
specification function or predicate; what the source promises is proved about those.

What the environment decides is a parameter or a free choice: which driver calls are refused (`fault` names
the first one, and the driver counts them), the memory a device writes, file digests (assumed injective;
request hashes may collide), lower-casing, the number a text denotes (assumed right on decimal numerals), and
UTF-8 decoding with replacement (assumed to agree with strict decoding where that is defined). Strings are
sequences of Unicode scalar values.

Points where the code and a natural expectation differ, kept as the code has them:

- Direct graph initialization is not limited to one run when the graph also has a list stage: a list stage
  that fails, with or without poisoning the session, or that is unavailable, makes the next request start
  over. `Session.DirectInitializationOnce` gives the exact condition, and `Session.Serve` says in every run
  which requests performed one.
- With as many groups as computational nodes the automatic mapping uses the positional rule, which accepts
  an empty group at the position of a node that is not custom, where the search would not
  (`GroupMapping.PositionalRuleCanDiffer`; `GroupMapping.PositionalRuleAgrees` gives the exact condition).
- Resolution compares indices, not groups: a negative saved index could name a group that another node has
  (`Resolution.SharedFromBothEnds`; `Resolution.DisjointExactly` gives the exact condition). Reading a saved
  mapping refuses negative indices (python/npunlock/__init__.py:3062), and without them every group serves at
  most one node (`Resolution.ResolvedGroupsAreDisjoint`).
- A program whose boundary tensors are outside the loadable contract is stored but never loaded
  (`ProgramCache.StoredButNeverHit`).

## Model

| member | source | states |
|---|---|---|
| Session.Session.ExecuteAllocations | src/graphinfer/session_win32.c:836-899 | For every state a session can be in and every pattern of driver failures, the session with its cached recording gives the status, and leaves behind the observable state, of the reference machine that always rebinds and re-records under the same first failing call; a driver failure is reported exactly when one driver call was refused; on success the device ran on the memory as the caller left it; a poisoned session issues no queue, list or fence call |
| Session.Session.ExecutePrepared | src/graphinfer/session_win32.c:883-898 | After initialization, replaying a recording made for the same allocations and binding and recording afresh are indistinguishable |
| Session.Session.CanReuse | src/graphinfer/session_win32.c:839-850 | A recording is replayed if and only if initialization is done, a recording exists and it was made with exactly these allocations |
| Session.Session.Submit | src/graphinfer/session_win32.c:488-575 | One submission behaves as record-and-run of the reference machine for a fresh list as well as for a replay, and meets every precondition of the driver machine: append only to an open empty list, execute only a closed list with a fence that is not submitted, reset only when nothing is outstanding |
| Session.Session.SubmitList | src/graphinfer/session_win32.c:529-574 | Once queue, list and fence exist, a replayed and a fresh recording run as the reference machine does |
| Session.ExistingResources | src/graphinfer/session_win32.c:503-523 | Whether queue, list and fence existed before is told only by a failure to create them |
| Session.Session.CreateResources | src/graphinfer/session_win32.c:503-523 | Queue, list and fence are created once and in this order; a failure keeps what exists and poisons nothing |
| Session.Session.Reset | src/graphinfer/session_win32.c:529-544 | A closed list and a used fence are made ready again, and a failure poisons the session |
| Session.Session.RunList | src/graphinfer/session_win32.c:545-574 | The list runs with exactly the recorded command, and a failing step poisons the session |
| Session.Session.BindArguments | src/graphinfer/session_win32.c:852-857 | Either every argument is set to the caller's address or the first refused one is reported |
| Session.Session.PrepareGraph | src/graphinfer/session_win32.c:851-882 | First-call initialization sets every argument, then takes the reference machine's stages in its order, with its failures |
| Session.Session.PrepareList | src/graphinfer/session_win32.c:869-881 | The list stage of initialization, ending with an initialized graph if it succeeds |
| Session.Session.Serve | src/graphinfer/session_win32.c:836-899 | Any sequence of requests on a new session answers as the reference machine does. The device's own record, which keeps the arguments each command saw, shows that what it completed is the list initialization with the allocations of the request that performed it, then exactly the requests answered with success; and that the direct initializations were those of the requests, up to the first that got past preparation, that did not stop before, each with that request's allocations. Every refused driver call is one of the faults |
| Session.RunCompletesExactlyWhatItAnswers | src/graphinfer/session_win32.c:836-899 | The same over every run of the reference machine and every pattern of failures; and the answer that a cached recording is unavailable never occurs |
| Session.InferCompletes | src/graphinfer/session_win32.c:836-899 | One step of that: what completed grows by the request itself exactly when the answer is success, and each initialization in between saw this request's allocations |
| Session.PoisonIsFinal | src/graphinfer/session_win32.c:494-497 | Once a run has poisoned the session, every later request fails and nothing more is served |
| Session.FaultOutcome | src/graphinfer/session_win32.c:503-574 | Which failing driver calls poison the session and which leave it usable, call by call |
| Session.PrepareIgnoresRunFaults | src/graphinfer/session_win32.c:851-882 | Faults of the execution phase never change how preparation ends |
| Session.DirectInitializationOnce | src/graphinfer/session_win32.c:851-881 | Direct initialization runs at most once in every run of a graph if and only if the graph does not have an available direct stage together with a list stage |
| Session.DirectOnceWithoutList | src/graphinfer/session_win32.c:858-881 | Without both: in every run at most one direct initialization, and none before the graph is initialized |
| Session.DirectInitializationCanRepeat | src/graphinfer/session_win32.c:858-881 | With both: a concrete run of two requests performs it twice |
| Bindings.FindArgument | src/graphinfer/session_win32.c:805-815 | The selector scan finds an argument exactly when one and only one matches |
| Bindings.FindBindable | src/graphinfer/session_win32.c:791-829 | A binding is accepted exactly for the one argument it selects, of the right kind, with a buffer of this session of exactly its size |
| Bindings.CollectBindings | src/graphinfer/session_win32.c:780-834 | A pass succeeds exactly when an injective assignment of bindings to free arguments of the right kind, owner and size exists, stores that assignment's allocations and marks, and touches nothing else |
| Bindings.Pigeonhole | src/graphinfer/session_win32.c:780-834 | As many different choices as there are candidates leave no candidate out |
| Bindings.ExactCover | src/graphinfer/session_win32.c:901-948 | Two successful passes with the required counts bind every graph argument exactly once |
| Inference.GraphSession.BindShared | src/graphinfer/session_win32.c:926-942 | Both passes and the final scan: the branch for an argument left unbound cannot be taken, and a refusal means that no binding exists at all |
| Inference.GraphSession.InferShared | src/graphinfer/session_win32.c:901-948 | Execution, a count mismatch, a closed session and a bad binding each have their exact condition; a driver failure is reported exactly when a call was refused; an executed inference runs the reference machine on the vector the bindings determine |
| Inference.OutputsAvoidInputs | src/graphinfer/session_win32.c:926-935 | The arguments taken by the input pass never change which output assignments exist |
| Inference.GraphSession.MatchCopied | src/graphinfer/session_win32.c:1026-1049 | Selector validation passes exactly when the inputs can feed different arguments of their own sizes |
| Inference.FeedsEvery | src/graphinfer/session_win32.c:1026-1049 | With the required count the validated selectors are a bijection onto the input arguments |
| Inference.GraphSession.EnsureCopied | src/graphinfer/session_win32.c:972-1000 | Either all copied allocations exist afterwards, or one was refused and the device memory is as it was before |
| Inference.GraphSession.ReleaseCopied | src/graphinfer/session_win32.c:958-970 | Exactly the given allocations leave the device memory |
| Inference.GraphSession.FillCopied | src/graphinfer/session_win32.c:1060-1074 | Every input allocation holds exactly the bytes of the caller's input that selects it, and every output allocation is cleared |
| Inference.GraphSession.InferCopied | src/graphinfer/session_win32.c:1002-1109 | A count mismatch, a closed session and unusable selectors each have their exact condition; otherwise the copied path executes or runs out of device memory. The memory the device starts with holds each caller's bytes at the argument its selector names and zeros elsewhere; the outputs returned are as many as the output arguments, and the one of rank r is the device's memory of the output argument with r output arguments before it; running out of device memory is reported exactly when an allocation was refused |
| Lifetime.StepKeeps | src/graphinfer/session_win32.c:674-772 | Every step of buffer create, buffer release and session close, by whoever may take it, keeps the reference count equal to the open handle plus the unreleased buffers, and the allocation ledger balanced |
| Lifetime.HolderKeepsAlive | src/graphinfer/session_win32.c:482-486 | No caller that holds the handle or a live buffer ever meets a destroyed session |
| Lifetime.EveryInterleavingReleasesOnce | src/graphinfer/session_win32.c:445-486 | Over all interleavings the session is destroyed exactly once, exactly when the handle and all buffers are gone; by then every allocation was freed exactly once, before the context, and nothing live was freed earlier |
| Targets.VersionedAccepted | python/npunlock/__init__.py:1439-1483 | Acceptance of version 2 targets spelled out per target, with coverage |
| Targets.LegacyAccepted | python/npunlock/__init__.py:1439-1483 | Acceptance of version 1 targets spelled out per target, with coverage |
| Targets.FlagsByValue | python/npunlock/__init__.py:1392-1397 | The precision and the scalar mark of version 1 flags, by flag value |
| Targets.ScalarPositions | python/npunlock/__init__.py:1400-1436 | An input position is scalar exactly for the two-input shapes and the four five-input layouts listed, by their dimensions |
| Targets.ProjectionIsRecoverable | python/npunlock/__init__.py:1858-1908 | Every tensor record of a projectable version 2 target, its scalar inputs, invocation and range can be read back from the version 1 record |
| Targets.LayoutsThatProject | python/npunlock/__init__.py:1858-1908 | Each of the three projectable layouts, in both precisions, and its version 1 record with its flags by value |
| Targets.FitIsProjected | python/npunlock/__init__.py:1858-1908 | A single target fits a node exactly when its projection does |
| Targets.ProjectionPreservesMeaning | python/npunlock/__init__.py:1858-1908 | For every node and every fully projectable tuple, with or without the coverage requirement, the projection is accepted if and only if the original is |
| GroupMapping.CompositionsAreAll | python/npunlock/__init__.py:1587-1634 | The unpruned enumeration lists exactly the valid compositions of the groups over the nodes, each once |
| GroupMapping.NothingBeyond | python/npunlock/__init__.py:1599-1605 | Nothing is lost by the maximum_take bound or by giving other nodes at most one group |
| GroupMapping.CompositionSearch.Visit | python/npunlock/__init__.py:1587-1634 | Pruned and stopped early, the search still holds the first two solutions of the full enumeration |
| GroupMapping.AssignedIsCustomRanges | python/npunlock/__init__.py:1631-1645 | The dictionary a search path fills in holds exactly the composition's ranges of the custom nodes |
| GroupMapping.SingletonIsUnique | python/npunlock/__init__.py:1636-1645 | The enumeration has one entry if and only if exactly one composition exists |
| GroupMapping.PositionalMapping | python/npunlock/__init__.py:1568-1583 | With as many groups as nodes the answer is the positional mapping, given exactly when every custom node accepts its own group |
| GroupMapping.PositionalRuleAgrees | python/npunlock/__init__.py:1571-1645 | When exactly the positional rule and the search agree: unless a group at another node's position is empty |
| GroupMapping.PositionalRuleCanDiffer | python/npunlock/__init__.py:1571-1645 | One node that is not custom and one empty group: the positional rule maps although no composition exists |
| GroupMapping.SearchRaisesMeaning | python/npunlock/__init__.py:1587-1634 | The search raises if and only if a raising check is reachable by fitting takes and at most one composition comes before it in search order |
| GroupMapping.LegacyGroupsCombine | python/npunlock/__init__.py:1486-1523 | Version 1 groups combine exactly when there are at least two and their targets, one after another, count up in invocation and range, share flags, have the node's input count and full spans, and are accepted with full coverage |
| GroupMapping.HybridGroupsCombine | python/npunlock/__init__.py:1526-1560 | Four groups of four version 2 targets in the validated layout, written out, combine for the node of that layout |
| GroupMapping.SplitOperationMaps | python/npunlock/__init__.py:1587-1634 | For a custom node whose operation was split over several groups, followed by another node with one group, the one composition gives it exactly those groups |
| GroupMapping.AutomaticGroupIndices | python/npunlock/__init__.py:1563-1645 | A mapping is returned if and only if exactly one composition is valid, and it is that composition's custom ranges, unless the counts agree and a node that is not custom has an empty group; raising happens exactly under its stated condition |
| Resolution.Normalize | python/npunlock/__init__.py:2670-2704 | An explicit binding is accepted exactly when it is not empty, in range and without repeats |
| Resolution.UseAll | python/npunlock/__init__.py:2760-2767 | Groups are taken exactly when none was taken before, by this node or another |
| Resolution.ResolveBindings | python/npunlock/__init__.py:2706-2806 | Succeeds exactly when every explicit binding is proper and the choice of explicit, saved or automatic groups gives no group twice and suits every node; then each node is given its one group, with every target replaced by its version 1 record when all have one, or its several groups one after another, never nothing, and accepts it |
| Resolution.RunsDeliver | python/npunlock/__init__.py:2769-2802 | What a node runs on, stated on its groups and indices: the group, its pointwise projection, or the concatenation |
| Resolution.DisjointExactly | python/npunlock/__init__.py:2753-2768 | A resolved choice gives no group to two nodes if and only if no group is named both from the front and from the end |
| Resolution.ResolvedGroupsAreDisjoint | python/npunlock/__init__.py:2706-2806 | With proper explicit bindings and saved or automatic indices that are not negative, every group serves at most one node |
| Resolution.SharedFromBothEnds | python/npunlock/__init__.py:2757-2768 | With a negative saved index two nodes can resolve to the same group |
| Resolution.AutomaticMappingResolves | python/npunlock/__init__.py:2706-2806 | Every automatic mapping is resolvable: pairwise disjoint ranges that every custom node accepts |
| Resolution.ResolveAutomatically | python/npunlock/__init__.py:2706-2806 | With nothing explicit or saved, the automatic selection is what it is alone, and a mapping is accepted without error and used unchanged |
| Graph.Sorter.Visit | python/npunlock/graph.py:544-557 | Success appends what was missing below the node, producers first; failure exhibits a cycle |
| Graph.WalkDescends | python/npunlock/graph.py:539-560 | Along any chain of producers the position in the order falls strictly |
| Graph.TopologicalNodes | python/npunlock/graph.py:539-560 | Succeeds if and only if no cycle is reachable from the outputs; the order then holds every reachable node once, after all its producers, and nothing else |
| Topology.Reachability.From | python/npunlock/__init__.py:1668-1683 | The memoised worklist returns exactly the endpoints connected by a path of relations |
| Topology.Ancestors | python/npunlock/__init__.py:1685-1692 | One pass in topological order computes exactly the transitive producers of every node |
| Topology.AncestorComesFirst | python/npunlock/__init__.py:1685-1692 | An ancestor stands earlier in the topological order |
| Topology.FilterViable | python/npunlock/__init__.py:1733-1766 | The viable candidates are those that lead to a graph output and do not contradict named tensors, in candidate order |
| Topology.KnownIsUnique | python/npunlock/__init__.py:1722-1731 | A name counts as evidence exactly when one and only one tensor bears it |
| Topology.IsViable | python/npunlock/__init__.py:1746-1765 | A candidate is viable exactly when it leads to a graph output and every known named output it reaches and input that reaches it is one of the node's |
| Topology.NativeNamesMeaning | python/npunlock/__init__.py:1707-1720 | An endpoint carries a name exactly when a symbol binds the name to it, no other symbol of the same kind bears that name, and no later such symbol renames the endpoint |
| Topology.ConsistentMeans | python/npunlock/__init__.py:1722-1765 | Evidence stated on the symbols and graph tensors themselves: no native name that exactly one graph tensor bears contradicts the candidate |
| Topology.BuildProblem | python/npunlock/__init__.py:1664-1767 | The search problem: dependencies are the ancestor pairs of custom nodes, all pointing to earlier nodes, and candidates are the viable ones of every node |
| Topology.StatusMeaning | python/npunlock/__init__.py:439-449 | The status read from the capped list tells none, exactly one and several of all assignments apart |
| Topology.FullPartialIsAssignment | python/npunlock/__init__.py:1789-1795 | Checking each node against earlier nodes only is enough for every dependency |
| Topology.ExtensionsAreAll | python/npunlock/__init__.py:1773-1802 | The uncapped search lists exactly the completions of a partial assignment, in candidate order |
| Topology.AssignmentSearch.Visit | python/npunlock/__init__.py:1773-1802 | The capped search holds the first 256 of them, and truncated says whether there are more |
| Topology.OneMeansUnique | python/npunlock/__init__.py:439-449 | One entry in the enumeration means exactly one assignment |
| Topology.ProposeMapping | python/npunlock/__init__.py:1664-1804 | The proposal is the first 256 injective viable assignments that map every dependency to a native path, where viable is stated on the symbols, the graph tensors and the relations; truncated if and only if more exist, with status unique if and only if exactly one exists and none if and only if none does |
| Ir.SerializeIr | python/npunlock/ir.py:60-197 | Produces the document of the graph, and refuses exactly the improper overrides, missing carriers and missing constant values |
| Ir.CheckOverrides | python/npunlock/ir.py:67-77 | Overrides pass exactly when each names a custom node of the graph and an operator name without white space |
| Ir.NodeLayers | python/npunlock/ir.py:84-150 | Layers, weights and custom nodes of all nodes, or a refusal exactly when a part is missing |
| Ir.EdgesMeaning | python/npunlock/ir.py:168-193 | Edges are sorted by target, each carries the tensor its port receives, and no input port is left out |
| Ir.EdgesConnect | python/npunlock/ir.py:168-193 | Every edge leads from a lower to a higher id, from an existing output port to an existing input port of equal shape and dtype, and every input port of every layer has exactly one |
| Ir.LayersAreNumbered | python/npunlock/ir.py:78-166 | Layer ids are positions, hence distinct, and ports are numbered inputs first |
| Ir.SourceIsTensor | python/npunlock/ir.py:168-193 | Following the one edge into a port back gives the tensor the graph feeds it |
| Ir.ConstantDecodes | python/npunlock/ir.py:107-125 | The window a constant's layer names holds exactly its bytes |
| Ir.WindowsTile | python/npunlock/ir.py:107-125 | Constant windows lie inside the weights, in layer order, without gap or overlap |
| Ir.DecodeSerialized | python/npunlock/ir.py:60-197 | Decoding layers, ports, edges and weights gives the graph back, nodes numbered by position: each node's type is its operator, or its override or own carrier if it is custom; the version is opset8 exactly for Slice; precision is kept exactly for custom nodes with an f32 output; parameters and constants declare their output's spec, and constants decode to their bytes. The custom nodes are listed in order |
| Ir.ResultsAreMarked | python/npunlock/ir.py:151-166 | Every graph output has a Result layer, after all nodes, with one input port of the output's spec |
| Ir.OverrideChangesOneLayer | python/npunlock/ir.py:86-103 | Overriding one carrier changes the type and version of that node's layer and nothing else in the document |
| Shapes.BroadcastShape | python/npunlock/graph.py:41-53 | The right-to-left loop computes the broadcast of both shapes and is undefined exactly where two dimensions clash |
| Shapes.BroadcastIsLeastUpperBound | python/npunlock/graph.py:41-53 | Broadcasting is the least shape both stretch to, and there is no such shape where it is undefined |
| Shapes.BroadcastIdempotent | python/npunlock/graph.py:41-53 | A shape broadcast with itself is itself |
| Shapes.BroadcastCommutative | python/npunlock/graph.py:41-53 | The order of the two shapes does not matter, definedness included |
| Shapes.BroadcastAssociative | python/npunlock/graph.py:41-53 | Grouping does not matter, definedness included |
| Shapes.TransposeKeepsElements | python/npunlock/graph.py:172-177 | An accepted transpose keeps the element count, rank and dtype |
| Shapes.TransposeInverse | python/npunlock/graph.py:172-177 | Every accepted order has an inverse order, and transposing with it restores the tensor |
| ShapeMeaning.TransposeMeans | python/npunlock/graph.py:172-177 | An order is accepted exactly when it lists every axis once, and puts dimension order[i] in place i |
| Shapes.ResolvePattern | python/npunlock/graph.py:184-203 | A pattern is read exactly when it is proper, and the known dimensions and their product are right |
| Shapes.Reshape | python/npunlock/graph.py:178-211 | Answers exactly the requests some shape of equal element count fits, with the only shape that does |
| Shapes.SqueezeKeepsElements | python/npunlock/graph.py:212-230 | An accepted squeeze keeps the element count and dtype and drops one dimension per axis |
| Shapes.UnsqueezeKeepsElements | python/npunlock/graph.py:231-247 | An accepted unsqueeze keeps the element count and positive dimensions |
| Shapes.UnsqueezeSqueeze | python/npunlock/graph.py:212-247 | Unsqueezing an accepted squeeze with the same axes, negative ones included, restores the tensor |
| Shapes.SqueezeUnsqueeze | python/npunlock/graph.py:212-247 | Squeezing an accepted unsqueeze with the same axes restores the tensor if and only if it is not a scalar |
| ShapeMeaning.SqueezeMeans | python/npunlock/graph.py:212-230 | A squeeze is accepted exactly when its axes, counted from either end, name different dimensions of one and leave a dimension; the others keep their order, each moved down by the number dropped before it |
| ShapeMeaning.UnsqueezeMeans | python/npunlock/graph.py:231-247 | An unsqueeze is accepted exactly when its axes, counted from either end of the new rank, are different; it puts ones there and keeps the other dimensions in order |
| Shapes.Concat | python/npunlock/graph.py:154-171 | The loops compute the joined spec, and refuse exactly unequal dtypes, ranks or other dimensions and axes out of range |
| Shapes.ConcatKeepsElements | python/npunlock/graph.py:154-171 | Joining loses and invents no element |
| ShapeMeaning.JoinedMeans | python/npunlock/graph.py:154-171 | Along the dimension an axis names from either end: joining is accepted exactly when all inputs agree but for it, and the result agrees with them and adds it up |
| ShapeMeaning.SplitMeans | python/npunlock/graph.py:248-264 | Splitting is accepted exactly when the count divides the dimension, and every part has an equal share |
| ShapeMeaning.VariadicSplitMeans | python/npunlock/graph.py:265-293 | A variadic split is accepted exactly when positive lengths can be filled in for the at most one left open so that they add up to the dimension, and the parts have those lengths |
| Shapes.ConcatSplit | python/npunlock/graph.py:248-264 | Joining the parts of an accepted split restores the tensor, and the parts have positive dimensions |
| Shapes.ConcatVariadicSplit | python/npunlock/graph.py:265-293 | Joining the parts of an accepted variadic split, inferred length included, restores the tensor |
| Fips180.PaddingMeansFips | src/common/sha256.c:122-132 | The padding is, bit for bit, the one of section 5.1.1 of FIPS 180-4: a one bit, the least number of zero bits, and the 64-bit length |
| Fips180Roots.ConstantsAreCubeRoots | src/common/sha256.c:29-39 | Each round constant is the first 32 bits of the fractional part of the cube root of its prime, by integer inequalities |
| Fips180Roots.InitialIsSquareRoots | src/common/sha256.c:112-120 | Each word of the initial hash value is that of the square root of its prime |
| Fips180.WordsAreBigEndian | src/common/sha256.c:16-19 | A word of a block is its four bytes with weights 2^24, 2^16, 2^8 and 1 |
| Fips180.BytesAreBigEndian | src/common/sha256.c:21-26 | A word of the digest is stored with those weights |
| Fips180.SerializedWords | src/common/sha256.c:134-137 | The digest is the hash words in order, each read back from its four bytes |
| Fips180.ChooseAndMajority | src/common/sha256.c:71-93 | Ch picks by the bits of its first argument, and Maj has a one where at least two arguments have |
| Sha256.Context.Transform | src/common/sha256.c:28-94 | The in-place block function is the computation of section 6.2.2 of FIPS 180-4 |
| Sha256.Context.ExpandSchedule | src/common/sha256.c:51-60 | The 64-word array is the message schedule |
| Sha256.Context.Update | src/common/sha256.c:96-110 | The context has absorbed the concatenation of what it was given, however that was cut into pieces |
| Sha256.Context.Finish | src/common/sha256.c:122-133 | Closing the context, in one block or two, hashes exactly the padded message |
| Sha256.Hash | src/common/sha256.c:112-137 | The digest of every message shorter than 2^61 bytes is the one FIPS 180-4 defines |
| Sha256.HashPieces | src/common/sha256.c:96-137 | The digest does not depend on how the message is cut into updates |
| ProgramCache.StepKeeps | python/npunlock/cache.py:167-207 | Every step of any store, and a crash or failure after any step, keeps published programs intact under their digests and metadata only for programs already in place |
| ProgramCache.RunKeeps | python/npunlock/cache.py:167-207 | So does every interleaving of stores |
| ProgramCache.ManifestContracts | python/npunlock/__init__.py:1098-1119 | One side of a manifest is accepted exactly when it is not empty and its tensors have different non-empty names, a dtype graphinfer executes, positive dimensions and rank at most 5 |
| ProgramCache.CheckReports | python/npunlock/__init__.py:1182-1199 | Patch reports are accepted exactly within the limits on their number, size and total size |
| ProgramCache.LoadBundle | python/npunlock/__init__.py:1145-1202 | A bundle can be read back exactly when sizes are within limits and both boundaries are within the contract |
| ProgramCache.LoadProgram | python/npunlock/cache.py:110-165 | The steps of a load give its answer for what it saw at each of its seven looks at the directory |
| ProgramCache.LoadMeans | python/npunlock/cache.py:110-165 | For any directories, damaged ones too: a load misses exactly when there is no metadata, and hits with a program exactly under the listed conditions on what it saw at each look |
| ProgramCache.LoadableMeans | python/npunlock/__init__.py:1098-1202 | The bundles that can be read back, with every limit and the nine dtypes by value |
| ProgramCache.HitsAreStored | python/npunlock/cache.py:110-165 | A load that hits, wherever its seven looks at the directory fall between the steps of stores, returns a program that a store was given for an equal request, with matching provenance and a satisfied contract |
| ProgramCache.CompletedStoresHit | python/npunlock/cache.py:110-207 | After a store completes, a load of that request whose looks at the metadata come before it is replaced, and whose other looks fall anywhere between later stores' steps, hits with that program if and only if it is usable: boundary tensors and sizes within the loadable contract, the request's provenance, and the caller's contract |
| ProgramCache.StoredIsFound | python/npunlock/cache.py:110-207 | A store on its own runs to its end, and a load of its request then hits with its program, until its metadata is replaced, exactly when the program is within the limits by value, has the request's provenance and satisfies the caller's contract |
| ProgramCache.StoredButNeverHit | python/npunlock/cache.py:110-207 | A program outside the loadable contract is stored completely, and until its metadata is replaced no load of its request hits, however its looks are spread |
| ProgramCache.DoubleOutputIsUnloadable | python/npunlock/__init__.py:1111-1116 | A program with an f64 output is one of those |
| Elf32.ParseShaveElf | src/common/elf32.c:139-296 | Accepts an image if and only if the declarative predicate holds, reports the extent of its one .text section, and otherwise returns the status the first fault in file order calls for; every index it uses lies inside the view |
| Elf32.RefusalIsDetermined | src/common/elf32.c:139-296 | The bytes determine whether a refused image is malformed or unsupported |
| ElfLayout.MinimalIsAcceptable | src/common/elf32.c:139-296 | For every non-empty code, the image written out byte by byte with one segment and four sections is acceptable, in one way only, and its text is exactly that code |
| ElfLayout.RulesInNumbers | src/common/elf32.c:242-289 | What is asked of .text, .arg.data and the segment, by value |
| Elf32.FindString | src/common/elf32.c:83-97 | A name is found exactly when it starts inside the string section and is terminated there |
| Elf32.ValidateSymbols | src/common/elf32.c:99-137 | A symbol table passes exactly when it is well formed and has no named undefined symbol; otherwise the first bad symbol decides the status |
| Elf32.ScanSections | src/common/elf32.c:203-241 | The section loop passes exactly when every section is in order and no special name repeats, and locates .text and .arg.data; otherwise the first bad section decides the status |
| Elf32.ScanPrograms | src/common/elf32.c:252-289 | The segment loop finds a readable and executable load segment whose file extent and memory extent each contain .text |
| PercentCodec.ComponentRoundTrip | frontend/src/search.ts:27-47 | decodeURIComponent undoes encodeURIComponent on every Unicode string |
| PercentCodec.Utf8RoundTrip | frontend/src/search.ts:27-47 | Strict UTF-8 decoding undoes encoding on every string |
| PercentCodec.FormRoundTrip | frontend/src/search.ts:22-26 | Form decoding gives back the UTF-8 bytes of every name and value |
| PercentCodec.EncodingsConcat | frontend/src/search.ts:18-28 | Both encodings go letter by letter |
| PercentCodec.EscapedLetters | frontend/src/search.ts:18-28 | What becomes of a space and of a letter beyond ASCII |
| Location.ParametersRoundTrip | frontend/src/search.ts:22-26 | Parsing a printed parameter list restores it, for all names and values |
| Location.MatchIsTheDerivation | frontend/src/search.ts:40-41 | Splitting at the first colon and hyphen reads the regular expression: a text has at most one derivation, and that one is found |
| Location.FormatLocationExpression | frontend/src/search.ts:18-28 | The printer's steps give the printed form |
| Location.ParseLocationExpression | frontend/src/search.ts:30-76 | The parser's steps give the parse, refusals included |
| Location.ParsedIsProper | frontend/src/search.ts:30-76 | Whatever the parser accepts lies inside a known artifact and has a node whenever it has a field or span |
| Location.RoundTrips | frontend/src/search.ts:18-76 | Printing and then parsing a location restores it if and only if it is printable: known non-empty artifact, range inside it, safe integers, and non-empty node and field where required |
| Location.ParsedCanBePrinted | frontend/src/search.ts:18-76 | Every accepted expression for a named artifact has a printed form with the same meaning |
| LocationMeaning.ParseMeans | frontend/src/search.ts:30-76 | The parser answers with a location if and only if the text, between spaces, is a base of the grammar with known parameters, each at most once, that describes exactly this location: the artifact its decoded name or, without one, the current artifact denotes, exactly or but for case, and a range inside it |
| LocationMeaning.WrittenParses | frontend/src/search.ts:30-76 | A location reads back from every way to write it: padded, under any name that denotes its artifact or none while it is current, in hexadecimal of either case with or without prefix, with an end or, for one address, without |
| LocationMeaning.PrintedLocation | frontend/src/search.ts:18-28 | A printed location, letter by letter |
| LittleEndian.LoadStoreU32 | src/common/worker_protocol.h:6-21 | Loading a stored 32-bit number gives it back, wherever it was stored |
| LittleEndian.LoadStoreU64 | src/common/worker_protocol.h:11-26 | Loading a stored 64-bit number gives it back |
| WorkerRequest.AddSize | src/shavecc/movi_stage_win32.c:16-21 | The running total is exact, and refused exactly when it passes the message limit |
| WorkerRequest.MoviTotal | src/shavecc/movi_stage_win32.c:27-52 | The first pass computes the exact size of every acceptable request and refuses the others |
| WorkerRequest.MoviBytesLength | src/shavecc/movi_stage_win32.c:37-80 | The encoding is exactly as long as the first pass computes |
| WorkerRequest.BuildMovi | src/shavecc/movi_stage_win32.c:23-84 | The buffer is exactly the encoding of the request, and the cursor ends at the computed size |
| WorkerRequest.MoviRoundTrip | src/shavecc/movi_stage_win32.c:23-84 | Path, stage, arguments and inputs can be read back from the bytes alone |
| WorkerRequest.MoviInjective | src/shavecc/movi_stage_win32.c:23-84 | Different accepted requests have different bytes |
| RequestLayout.StoredNumber | src/common/worker_protocol.h:11-26 | The stored bytes spell the number, least significant first |
| RequestLayout.MoviLayout | src/shavecc/movi_stage_win32.c:53-84 | What stands at which position of the request, field by field in numbers, and each payload behind its size |
| RequestLayout.MoviAcceptedMeans | src/shavecc/movi_stage_win32.c:23-52 | The acceptable requests, with the message limit by value |
| WorkerRequest.IrTotal | src/ir2blob/ir_worker_win32.c:17-63 | The computed size is the length of header and payloads, refused exactly when a part is missing, misplaced or too long |
| WorkerRequest.BuildIr | src/ir2blob/ir_worker_win32.c:17-63 | The request buffer is exactly the encoding, refused exactly when a part is missing, misplaced or too long |
| WorkerRequest.IrRoundTrip | src/ir2blob/ir_worker_win32.c:17-63 | Mode, indices, IR text, weights and flags can be read back from the bytes alone |
| RequestLayout.IrLayout | src/ir2blob/ir_worker_win32.c:34-63 | What stands at which position of the request, field by field in numbers |

## Left out

- Driver and device discovery, extension tables, DLL loading, worker processes and pipes: foreign calls and I/O.
- The patchblob library (discovery, comparison, coverage, patching): foreign code; its results are inputs here.
- ZIP, JSON and XML text, node names and attribute text, error messages, timing and status fields: the structured values are modelled instead.
- Tearing a session down while a timed-out submission may still be running: the outcome is the driver's.
- Null pointers, structure sizes and host out-of-memory returns of the C entry points: a model on values has no pointers, and its allocations do not fail; refused device allocations are modelled.
- What cached compilation does around the cache (serializing, preparing and building on a miss): the pieces it calls are modelled one by one.
- Worker responses: version, bounds and status checks on the reply, then copies of its parts; the model ends where a request is handed to the worker process.
- Messages of 2^61 bytes or more in SHA-256: FIPS 180-4 defines no digest for them.
- Validation of parameters and names when a graph is built, and shape inference for MatMul, Convert, Pad, Slice and Gather: field-by-field checks.
- The Python recursion limit in the topological sort and in both searches.
- Embedded patch targets and reviewed bindings: resolution with them only passes them through.
- Which groups fulfil a custom node's contract in the topology proposal: given as the candidate lists (`contract`); the contract itself is in `Targets.dfy`.
- Session.Session.Submit: assumes the session lock is held, as every caller does; concurrent entry is not modelled here but in `Lifetime.dfy`.
- Location.ParseLocationExpression: artifact sizes are integers, and negative zero is zero.
- Ir.SerializeIr: the graph it is given is in topological order with existing tensors, which building the graph ensures.
- ProgramCache.LoadProgram: hashing also refuses a file whose modification time changes meanwhile, which can only turn a hit into an invalid load.
- ProgramCache.HitsAreStored: the directory is written by stores only; deletion of files by others is not modelled.
