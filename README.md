# Code stub assembler: join points, Smi tagging and inline allocation

This project models the core of V8's `CodeStubAssembler`
(`v8/src/compiler/code-stub-assembler.cc`). It proves the model's properties in Dafny.

The main part is the hand-built SSA of the assembler.
- A `Variable` is an entry in the assembler-wide registry `variables_`.
- A `Label` is a join point. Every `Goto`, `Branch` and `Switch` calls `Label::MergeVariables` on its targets. Each such call counts one edge and logs the value each bound variable carries on it.
- `Label::Bind` marks every variable whose log holds two distinct values. It creates one phi per marked variable, whose inputs are the log in edge order. It then rebinds every variable to its phi, to its common value, or to nothing.
- After the bind, further edges append their values to the existing phis.

The DCHECKs of the source are the usage errors of the model: `InconsistentMerge(v)`, `DoubleBind`, `DoubleGenerate` and `UnboundVariable(v)`. A call that would trip one returns that error instead of aborting.

The second part covers the machine-word primitives:
- Smi tagging and untagging;
- the Smi check;
- the field and fixed-array element offsets;
- the inline bump-pointer allocators.

Machine words are integers in the signed range of the word, on a 32-bit or a 64-bit target (`Tagging.Arch`). Every operation that can overflow wraps explicitly.

Files:
- `nodes.dfy`: node handles (`Null` is `nullptr`, `Phi(k)` is the k-th phi the labels emitted), phi nodes, the error taxonomy, and `Result`/`Outcome`.
- `join_points.dfy`: the join-point protocol as pure functions on a label's bookkeeping. A merge edge is `MergeEdge`, the bind is `BindLabel`, and several edges in turn are `MergeAll`. Lemmas cover the three.
- `assembler.dfy`: the assembler, `Variable` and `Label` as classes whose fields change in place. Every loop of the source is a `while` loop, and every method is proved against the functions of `join_points.dfy`.
- `tagging.dfy`: word arithmetic, Smi tagging and the offset helpers.
- `allocation.dfy`: the three allocators as functions of the memory. Class `Heap` runs them against memory that changes in place.
- `clients.dfy`: the join of `SmiMin`, worked through the protocol.

Variables are marked for a phi in `Label::Bind` (lines 929-944); `MergeVariables` only logs.

Every phi belongs to the label whose `Bind` created it. The assembler keeps a ghost record of each phi's owner. A label's invariant (`Label.Valid`) says three things:
- its bookkeeping is well formed;
- once bound, each of its phis has the variable's log as inputs;
- each of its phis is one it owns.

An edge into one label, or the bind of one label, keeps every other valid label valid.

## Model

| member | source | states |
|---|---|---|
| Assembler.CodeStubAssembler.constructor | v8/src/compiler/code-stub-assembler.cc:47-55 | a new assembler has an empty variable registry, no phis, and `code_generated_` false |
| Assembler.CodeStubAssembler.GenerateCode | v8/src/compiler/code-stub-assembler.cc:63-73 | the first call succeeds and sets the flag; any later call fails with DoubleGenerate |
| Assembler.CodeStubAssembler.AppendPhiInput | v8/src/compiler/code-stub-assembler.cc:904 | the phi gains the node as its last input; every other phi is unchanged |
| Assembler.CodeStubAssembler.NewPhi | v8/src/compiler/code-stub-assembler.cc:955-956 | a fresh phi, with the given representation and inputs, is appended to the graph |
| Assembler.CodeStubAssembler.Bind | v8/src/compiler/code-stub-assembler.cc:135-137 | binding a label through the assembler has exactly the effect and error of `Label::Bind`; every other valid label stays valid |
| Assembler.CodeStubAssembler.Goto | v8/src/compiler/code-stub-assembler.cc:791-794 | one merge edge into the target (`MergeEdge`); the target stays valid, and so does every other valid label |
| Assembler.CodeStubAssembler.Branch | v8/src/compiler/code-stub-assembler.cc:796-803 | an edge into the true label, then one into the false label (`MergeAll` of the two, which may be the same label); both stay valid, and so does every other valid label |
| Assembler.CodeStubAssembler.Switch | v8/src/compiler/code-stub-assembler.cc:805-818 | for each case in order, an edge into the case label and then one into the default (`MergeAll` over `SwitchTargets`); the first failing edge's error is the result; every label stays valid, targeted or not |
| Assembler.CodeStubAssembler.MergeEdges | v8/src/compiler/code-stub-assembler.cc:810-814 | merging edges one target after another in a loop leaves the label states and the graph that `MergeAll` computes; labels outside the targets stay valid |
| Assembler.OutsideLabelValid | v8/src/compiler/code-stub-assembler.cc:900-904 | edges into other labels leave a valid label valid, because they append only to the phis their targets own |
| Assembler.CodeStubAssembler.MergeNext | v8/src/compiler/code-stub-assembler.cc:812-813 | one more edge extends the merges done so far by exactly one target, and changes no other label |
| Assembler.Variable.constructor | v8/src/compiler/code-stub-assembler.cc:842-846 | a new variable appends one unbound entry, with its representation, to the registry; every valid label stays valid |
| Assembler.Variable.Bind | v8/src/compiler/code-stub-assembler.cc:848 | binding overwrites the stored value unconditionally and touches no other entry; every valid label stays valid |
| Assembler.Variable.Value | v8/src/compiler/code-stub-assembler.cc:850-861 | `value()` succeeds exactly when the variable is bound (non-null) and returns the stored node; otherwise it fails with UnboundVariable. `IsBound` (lines 859-861) is the same null test, and `Rep` (lines 855-857) returns the registered representation |
| Assembler.Label.constructor | v8/src/compiler/code-stub-assembler.cc:863-875 | a new label is unbound, with no edges and no logs, and has a phi slot for each declared merge variable; it is well formed |
| Assembler.Label.LogValue | v8/src/compiler/code-stub-assembler.cc:879-918 | one iteration of the MergeVariables loop does what `MergeVariable` computes, including its assertions |
| Assembler.Label.MergeVariables | v8/src/compiler/code-stub-assembler.cc:877-921 | counts the edge and runs the loop over all variables, with `MergeEdge`'s result and error; the label stays well formed |
| Assembler.Label.MarkDivergentVariables | v8/src/compiler/code-stub-assembler.cc:929-944 | the first loop of Bind adds a phi slot for every variable whose log diverges (`MarkDivergent`) |
| Assembler.Label.MarkIfDivergent | v8/src/compiler/code-stub-assembler.cc:930-943 | scanning one log with `shared_value` marks the variable exactly when the log holds two distinct values |
| Assembler.Label.CreatePhiNodes | v8/src/compiler/code-stub-assembler.cc:946-958 | the second loop of Bind creates the phis `CreatePhis` computes, or fails as it does; every phi it creates is owned by this label |
| Assembler.Label.RebindVariables | v8/src/compiler/code-stub-assembler.cc:959-974 | the third loop of Bind sets every variable to the value `NewValue` gives: its phi, its last logged value if logged on every edge, or null |
| Assembler.Label.Bind | v8/src/compiler/code-stub-assembler.cc:923-977 | the whole bind, with `BindLabel`'s result and error; the label and the registry stay well formed, and every other valid label stays valid |
| JoinPoints.InitialWellFormed | v8/src/compiler/code-stub-assembler.cc:863-875 | a label over registered variables satisfies the label invariant |
| JoinPoints.MergeVariable | v8/src/compiler/code-stub-assembler.cc:879-918 | one step of the merge loop changes only the logs, keeps every phi live, and never grows the graph |
| JoinPoints.MergeVariableEffect | v8/src/compiler/code-stub-assembler.cc:879-918 | a step fails with InconsistentMerge(v) exactly when v's assertions fail; otherwise it appends v's bound value to v's log, leaves other logs alone, and on a bound label appends the value to v's phi |
| JoinPoints.MergePrefixOutcome | v8/src/compiler/code-stub-assembler.cc:877-921 | the merge loop succeeds exactly when no variable fails its assertions; on failure it reports the first such variable |
| JoinPoints.MergePrefixLogs | v8/src/compiler/code-stub-assembler.cc:879-891 | after the loop, each visited variable's log has gained its value (none if unbound), and unvisited logs are unchanged |
| JoinPoints.MergePrefixGraph | v8/src/compiler/code-stub-assembler.cc:900-904 | after the loop, each visited variable's phi has gained one input and every other phi is unchanged |
| JoinPoints.MergeEdgeLogs | v8/src/compiler/code-stub-assembler.cc:877-891 | an edge raises the edge count by exactly one, appends each bound value to its log, skips unbound variables, and keeps every log no longer than the edge count |
| JoinPoints.MissingMergeValueRejected | v8/src/compiler/code-stub-assembler.cc:892-895 | an edge on which a declared merge variable (or one with a phi) is unbound fails |
| JoinPoints.LateDivergenceRejected | v8/src/compiler/code-stub-assembler.cc:905-917 | after the bind, an edge that brings a new value for a variable without a phi fails |
| JoinPoints.MergeEdgeWellFormed | v8/src/compiler/code-stub-assembler.cc:877-921 | a successful edge keeps the label invariant |
| JoinPoints.MergeEdgeAppendsPhiInputs | v8/src/compiler/code-stub-assembler.cc:900-904 | on a bound label an edge appends its value to each of the label's phis and leaves other phis alone; a phi's inputs stay equal to its variable's log, one per edge |
| JoinPoints.MergeEdgeKeepsOthers | v8/src/compiler/code-stub-assembler.cc:900-904 | an edge into a label changes no graph entry owned by another label |
| JoinPoints.MergeEdgeKeepsOtherLabel | v8/src/compiler/code-stub-assembler.cc:900-904 | so an edge into one label keeps every other label's phis equal to that label's logs |
| JoinPoints.DivergesDistinctValues | v8/src/compiler/code-stub-assembler.cc:930-941 | the shared_value scan finds a divergence exactly when the log holds at least two distinct values |
| JoinPoints.MarkDivergentPhis | v8/src/compiler/code-stub-assembler.cc:929-944 | after the first loop of Bind, a variable has a phi slot exactly when it was declared merged or its log holds two distinct values below the variable count; diverging slots are null, other declared slots keep their entry, and the logs, edge count and bound flag are unchanged |
| JoinPoints.CreatePhisOutcome | v8/src/compiler/code-stub-assembler.cc:946-958 | phi creation succeeds exactly when every marked variable was logged on every edge; otherwise it fails with InconsistentMerge on such a variable |
| JoinPoints.CreatePhisFrame | v8/src/compiler/code-stub-assembler.cc:946-958 | phi creation leaves the logs, the count and the existing graph alone, and keeps the set of marked variables |
| JoinPoints.CreatePhisFresh | v8/src/compiler/code-stub-assembler.cc:955-957 | each marked variable gets a new phi, typed with its representation, whose inputs are its log |
| JoinPoints.CreatePhisDistinct | v8/src/compiler/code-stub-assembler.cc:955-957 | no two variables share a phi |
| JoinPoints.BindLabelOutcome | v8/src/compiler/code-stub-assembler.cc:923-958 | Bind on a bound label fails with DoubleBind; otherwise it fails exactly when a marked variable (declared or diverging) missed an edge |
| JoinPoints.BindLabelPhis | v8/src/compiler/code-stub-assembler.cc:946-976 | after the bind the label is bound; exactly the declared and diverging variables have phis; each phi is fresh, with edge-count inputs equal to the log in arrival order |
| JoinPoints.BindLabelValues | v8/src/compiler/code-stub-assembler.cc:960-974 | after the bind, a variable with a phi holds the phi; one logged on every edge (hence one value) holds that value; every other variable is unbound |
| JoinPoints.BindLabelWellFormed | v8/src/compiler/code-stub-assembler.cc:923-977 | the bind keeps the label invariant, and each phi's inputs equal its variable's log |
| JoinPoints.BindLabelOwns | v8/src/compiler/code-stub-assembler.cc:955-957 | the phis the bind creates are new graph entries, all owned by the bound label |
| JoinPoints.BindKeepsOtherLabel | v8/src/compiler/code-stub-assembler.cc:946-958 | the bind of one label keeps every other label well formed, its phis equal to its logs, and its ownership |
| JoinPoints.MergeAll | v8/src/compiler/code-stub-assembler.cc:796-818 | merging edges into several labels in turn keeps every label and adds no phi |
| JoinPoints.MergeAllCounts | v8/src/compiler/code-stub-assembler.cc:796-818 | a label that is targeted c times gains exactly c edges; whether it is bound, and its phis, do not change |
| JoinPoints.MergeAllLogs | v8/src/compiler/code-stub-assembler.cc:796-818 | each of those c edges appends the variable's current value to its log at that label |
| JoinPoints.MergeAllWellFormed | v8/src/compiler/code-stub-assembler.cc:796-818 | merging into several labels keeps every label invariant |
| JoinPoints.MergeAllMatched | v8/src/compiler/code-stub-assembler.cc:796-818 | merging into several labels keeps each one's phis equal to its logs and owned by it, and changes no phi owned by a label outside them |
| JoinPoints.SwitchTargets | v8/src/compiler/code-stub-assembler.cc:810-814 | Switch merges only into its case labels and its default |
| JoinPoints.SwitchTargetsAt | v8/src/compiler/code-stub-assembler.cc:810-814 | Switch makes two edges per case: edge 2i goes to case i, edge 2i+1 to the default |
| JoinPoints.SwitchTargetsCount | v8/src/compiler/code-stub-assembler.cc:810-814 | Switch targets a label as often as it appears among the cases, and the default once more per case |
| JoinPoints.SwitchMergeCounts | v8/src/compiler/code-stub-assembler.cc:805-818 | a successful Switch raises the default label's edge count by the case count, plus its own occurrences among the cases |
| Tagging.SmiScaleValue | v8/src/compiler/code-stub-assembler.cc:151-153 | the Smi shift is 1 bit on 32-bit targets and 32 bits on 64-bit targets |
| Tagging.SmiTagExact | v8/src/compiler/code-stub-assembler.cc:156-158 | tagging a Smi value drops no bits |
| Tagging.SmiUntagTag | v8/src/compiler/code-stub-assembler.cc:156-162 | untagging undoes tagging on every Smi value |
| Tagging.SmiTagIsSmi | v8/src/compiler/code-stub-assembler.cc:219-222 | every word the tagging shift produces passes the Smi check, even when the shift drops bits |
| Tagging.SmiUntagRange | v8/src/compiler/code-stub-assembler.cc:160-162 | untagging any word yields a value a Smi can carry |
| Tagging.SmiTagUntag | v8/src/compiler/code-stub-assembler.cc:156-162 | re-tagging an untagged word gives the word back exactly when the bits the shift drops are zero |
| Tagging.WordIsSmiExact32 | v8/src/compiler/code-stub-assembler.cc:219-222 | on 32-bit targets the mask test accepts exactly the tagged Smis, in both directions |
| Tagging.WordIsSmiTagOnly64 | v8/src/compiler/code-stub-assembler.cc:219-222 | on 64-bit targets the mask test checks the tag bit only: the word 2 passes but is not a tagged value |
| Tagging.SmiToInt32 | v8/src/compiler/code-stub-assembler.cc:164-170 | untagging plus truncation on 64-bit targets always yields a 32-bit integer |
| Tagging.SmiToInt32Tag | v8/src/compiler/code-stub-assembler.cc:164-170 | SmiToInt32 recovers every tagged Smi value on both word widths |
| Tagging.ObjectFieldAddress | v8/src/compiler/code-stub-assembler.cc:229-233 | a field load through the tagged pointer of an object reads the byte at the object's start plus the field offset: the displacement cancels the tag |
| Tagging.ElementAddress | v8/src/compiler/code-stub-assembler.cc:265-270 | element i of a fixed array lies after the map and length words, i pointer-sized slots in |
| Tagging.ElementSlotsDisjoint | v8/src/compiler/code-stub-assembler.cc:265-270 | elements occupy disjoint pointer-sized slots in index order, and none overlaps the header |
| Tagging.SmiIndexOffset | v8/src/compiler/code-stub-assembler.cc:250-263 | the Smi-indexed load reaches the constant-index slot plus the additional offset; one shift by the difference of the two shifts both untags and scales |
| Tagging.WordIndexOffset | v8/src/compiler/code-stub-assembler.cc:272-280 | the untagged-index store reaches the constant-index slot |
| Tagging.StoreLoadSameElement | v8/src/compiler/code-stub-assembler.cc:250-280 | a store at index i and a load at Smi index i touch the same element |
| Allocation.UnalignedAllocation | v8/src/compiler/code-stub-assembler.cc:302-340 | the runtime path leaves memory alone and returns the runtime's object; the inline path adds the top word and leaves every other word of memory holding its old value |
| Allocation.UnalignedRuntimePath | v8/src/compiler/code-stub-assembler.cc:311-314 | the runtime is called exactly when `limit - top < size` |
| Allocation.UnalignedFastPath | v8/src/compiler/code-stub-assembler.cc:328-337 | otherwise the object is `top + kHeapObjectTag`, the top becomes `top + size` within the limit, and nothing else changes |
| Allocation.UnalignedRuntimeRequest | v8/src/compiler/code-stub-assembler.cc:316-326 | the runtime request carries the tagged size, no double alignment, and old space exactly when pretenured |
| Allocation.AdjustedSize | v8/src/compiler/code-stub-assembler.cc:349-366 | one more pointer is reserved only when double alignment is asked for |
| Allocation.PaddingAligns | v8/src/compiler/code-stub-assembler.cc:349-366 | the one-pointer padding moves a pointer-aligned top onto an 8-byte boundary |
| Allocation.AlignedAllocationAsWritten | v8/src/compiler/code-stub-assembler.cc:342-395 | the code as written stores the new top whichever path was taken |
| Allocation.AlignedAllocation | v8/src/compiler/code-stub-assembler.cc:342-395 | the corrected allocator changes no memory and returns the runtime's object when it calls the runtime |
| Allocation.AlignedFastPath | v8/src/compiler/code-stub-assembler.cc:342-395 | when area and padding fit, the object follows the filler, is 8-byte aligned when asked, and stays within the limit; only the filler word and the top change |
| Allocation.AlignedRuntimePath | v8/src/compiler/code-stub-assembler.cc:368-393 | the corrected allocator calls the runtime exactly when size plus padding does not fit; it then changes no memory and asks for the pretenured space |
| Allocation.SpaceAllocation | v8/src/compiler/code-stub-assembler.cc:397-417 | Allocate, with the corrected aligned allocator on 32-bit hosts: its runtime path leaves memory alone and returns the runtime's object |
| Allocation.AllocateTargetsOneSpace | v8/src/compiler/code-stub-assembler.cc:397-417 | Allocate, with the corrected aligned allocator on 32-bit hosts, reads, falls back to and advances only the space the pretenure flag selects; it aligns only on 32-bit hosts |
| Allocation.Heap.AllocateRawUnaligned | v8/src/compiler/code-stub-assembler.cc:302-340 | run against a heap, it returns and stores what `UnalignedAllocation` computes |
| Allocation.Heap.AllocateRawAligned | v8/src/compiler/code-stub-assembler.cc:342-395 | run against a heap, it returns and stores what `AlignedAllocation` computes |
| Allocation.Heap.Allocate | v8/src/compiler/code-stub-assembler.cc:397-417 | run against a heap, it returns and stores what `SpaceAllocation` computes, with the corrected aligned allocator |
| Allocation.AlignedAsWrittenMisreadsTop | v8/src/compiler/code-stub-assembler.cc:368 | an input on which the code as written returns an object outside the area and corrupts the word at the old top |
| Allocation.AlignedAsWrittenRuntimeFallback | v8/src/compiler/code-stub-assembler.cc:368-393 | an input on which the code as written asks a pretenured fallback for new space and moves the top past the limit |
| Clients.SmiMinJoin | v8/src/compiler/code-stub-assembler.cc:188-201 | the SmiMin join yields one tagged phi over [a, b] when a and b differ, and no phi when they are the same node |

## Left out

- Call emission (`CallN`, `TailCallN`, `CallRuntime*`, `CallStub*`, `TailCall*`, lines 574-789): forwarding to the lower-level assembler; the runtime call of the allocators is only recorded as a request.
- `GenerateCode`'s scheduling and code-generation pipeline: a foreign call; only the once-only flag is modelled.
- `LoadRoot` (lines 282-300): a heap query; the filler map word is a parameter of the aligned allocator.
- Floating-point constants, comparisons and conversions: not modelled.
- `v8/src/compiler/s390/instruction-scheduler-s390.cc` and `v8/src/ic/s390/ic-compiler-s390.cc`: a lookup table and instruction emission, not part of this model.
- The constructors' call descriptors, graph objects and delegate accessors (lines 27-55, 821-829): object plumbing.
- The machine-level labels, jumps and switch (`raw_assembler_->Goto/Branch/Switch`): not modelled. The case values of `Switch` are taken but unused. The deferred flag of a label is kept but has no effect.
- Phi creation order: the source walks `variable_phis_`, a map keyed by `Impl*` pointers (lines 946-958). The model creates phis in registry order, so phi indices may be numbered differently. When several marked variables are not ready, the variable named in `InconsistentMerge(v)` is the first in registry order, which need not be the one the source reaches first.
- After a DCHECK fails, the model says nothing about the state. In debug builds the source aborts there. In release builds the checks are compiled out and the source goes on; the model does not cover that case.
- `Assembler.CodeStubAssembler.Branch`: the two merge calls are written as the two-target case of the shared edge loop `MergeEdges`.
- The runtime flags word is a record, not its bit encoding. The runtime result and the filler map word are parameters.
- Memory is a map from addresses to words; an address never written reads as 0.
- Allocation.SpaceAllocation: one `Arch` stands for both the host width (the `#ifdef` at line 408) and the target word width.
- Allocation.SpaceAllocation: on a 32-bit host with double alignment it runs the corrected `AlignedAllocation`. As written, such a request behaves as `AlignedAllocationAsWritten` (see Findings).
- Allocation.Heap.AllocateRawAligned: runs the corrected `AlignedAllocation`. As written, it behaves as `AlignedAllocationAsWritten` (see Findings).
- Allocation.Heap.Allocate: runs the corrected aligned allocator, as `SpaceAllocation` does. As written, a double-aligned 32-bit request behaves as `AlignedAllocationAsWritten`.
- Allocation.AllocateTargetsOneSpace: its promises hold for the corrected aligned allocator. As written, a pretenured double-aligned 32-bit request falls back to new space, and the new top is stored after a runtime call too (`AlignedAsWrittenRuntimeFallback`).
- Allocation.AlignedAllocation: its runtime fallback still requests no double alignment, as `AllocateRawUnaligned` encodes it.
- Allocation.AlignedFastPath: assumes a pointer-aligned top, an area whose limit leaves room for a pointer in the word range, and a non-negative size.

## Findings

| source | as written | input that shows it | evidently intended | confidence | as-written member | corrected member |
|---|---|---|---|---|---|---|
| v8/src/compiler/code-stub-assembler.cc:368 | `AllocateRawUnaligned(adjusted_size, kNone, top, limit)` passes the loaded top and limit words where their addresses are expected | 32-bit, double alignment, 16 bytes, top address 100 holding 1000, limit address 104 holding 2000, word 1000 holding 5000, word 2000 holding 6000: the object comes back at 5000 and the word at 1000 is overwritten | pass `top_address` and `limit_address` | high (not executed) | Allocation.AlignedAsWrittenMisreadsTop | Allocation.AlignedFastPath |
| v8/src/compiler/code-stub-assembler.cc:368 | `kNone` replaces the caller's flags, so a pretenured request falls back to new space | 32-bit, double alignment and pretenure, 16 bytes, top 1000, limit 1008: the runtime is asked for new space | pass `flags` | high (not executed) | Allocation.AlignedAsWrittenRuntimeFallback | Allocation.AlignedRuntimePath |
| v8/src/compiler/code-stub-assembler.cc:370-393 | the filler store and the top update run after the runtime path too | the same input: after the runtime call the top is set to 1016, past the limit 1008 | store the filler and the top only on the inline path | medium (not executed) | Allocation.AlignedAsWrittenRuntimeFallback | Allocation.AlignedRuntimePath |
