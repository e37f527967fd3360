# gcm: the store, its reads and its queries

This project models the content store of gcm and proves what its writes keep and what its reads return.
One state holds nodes (type, display text, revision, JSON fields), edges (source, field, target, sort, two flags)
and a full-text index. Five writes change it: create, patch, add an edge, remove an edge, delete. A write is a
transaction, so it is one atomic step that yields the next state or an error and no change; UNIQUE constraints,
partial indexes, triggers and foreign keys are guards on inserting a row.

`dafny verify dfyconfig.toml` checks everything. The files, in the order they build on each other:

| files | what they hold |
|---|---|
| `Common`, `Graph`, `Decimal`, `Like` | sequences, paths and acyclic graphs, decimal texts, LIKE patterns |
| `Types`, `Bigram` | field definitions, value checks, merging of patches; the index pre-tokenizer |
| `Store`, `Service` | each write as a function on the tables, and the same write as methods on a store object |
| `Invariants`, `Reads`, `RoundTrip`, `Required`, `RequiredExact`, `Revisions`, `ReachableStates`, `StaleEdges`, `SoundReads` | what holds in every reachable state and over runs |
| `Contents`, `EdgeWrites`, `Acceptance` | what each write leaves in the store, when it goes through, and why it is refused, told by what the caller sends and what reads show |
| `Hydrate`, `Traverse`, `Ancestors`, `Forests`, `Trees`, `Expand`, `ExpandRun` | reads of batches, hierarchies, trees and paths |
| `Query`, `Sql`, `Compile`, `Meaning`, `CompileCorrect`, `CompileExact`, `WrongAnswers`, `QueryCompilers`, `NodeQuery`, `Sorting`, `Comparisons`, `RowOrder`, `Values` | filters, the SQL they compile to, what they mean, and what they select on values; the order of rows; instants |
| `Lisp`, `LispParsers`, `LispTokens`, `LispTexts`, `Spec`, `SpecForms` | the two front ends of the filter language, and exactly which texts and forms they accept |
| `EdgeSchema`, `EdgeSync` | deriving edge flags from the schema |
| `Mask`, `MaskWalk` | hiding fields and nodes from a reader |
| `BigramSearch`, `SearchIndex` | phrase search against substring search, on the stored index |

Where the source keeps state in an object (`Service`, `queryCompiler`, `lispParser`, the node counter of a decoding,
`Tree`, the edge table of a metadata sync, the nodes a mask or an expansion walks over), the model has a class whose
methods follow the source's loops and are proved against the functions the lemmas are about.

## Where the code and its intent differ

* The predicate text of a directed `exists` or `related` binds the field name but never tests `e.field`
  (`core/node_query_compile.go:329`, `:339`, `:376`, `:378`); a directed incoming `in` binds the source type but never
  tests it (`:302-304`), and an outgoing undirected `in` does not test `e.symmetric` (`:278-285`). The model keeps
  the text as emitted (`AsWritten`). In every schema where no other field can be mistaken for the path's it has its
  meaning; in any schema it is decided, state by state and node by node, exactly where it is right, and two runs
  from the empty store end in a state where it selects a row the filter is not true of. A second text
  (`FieldTested`), the same with those arguments tested, has its meaning in every schema.
* A restricting scope is combined by `and`, which costs one node and one level (`core/policy.go:51`). A filter and a
  scope that are each accepted alone are refused together exactly when a limit leaves no room for both; the limit on
  nested `related` is the first to be met.
* `AddEdge` and `RemoveEdge` do not raise the revision (`core/edge.go:209-295`). A patch prepared before either still
  lands; it drops the new edge exactly when it sets the field without naming the target, and brings the removed one
  back exactly when it names it.
* `RemoveEdge` counts the edges left at an end of an undirected field by name alone (`core/edge.go:266-280`), so a directed
  edge of another type's namesake counts as one of them, and the last required reference can be removed. A state that
  satisfies the invariant and shows it is given, with the exact condition; no run from the empty store gets there,
  since no node of a type that needs a peer can be created.
* Two types may declare fields that share name and target. Clearing an undirected field of the one then removes edges of
  the other (`core/edge.go:233-240`). So a write-back, and a patch that sets the field, drop directed edges of other
  nodes, exactly those stated; required references hold under the absence of such a clash, a run that breaks one with
  it is given, and the exact condition under which every run keeps them is proved.
* Under the same clash the subtree query, which tests only the field name, also returns nodes of other types
  (`core/traverse.go:35-44`), and they count towards the 100 values of a subtree set. Exactly when it does is proved,
  and a run from the empty store ends in a state where it does.
* Masking deletes hidden names from a node's fields only (`web/mask.go:43-52`): a hidden reference whose target is
  expanded and readable still shows that target under its own name. Exactly when a hidden name is left is proved.
* Running the metadata sync twice is not always the same as once: a row of an undirected field whose target has another
  type is swapped onto a source the second run does not recognise (`core/edge_schema.go:111-125`).
* Bigram phrase search also finds texts in which the query does not occur, across gaps that leave no token.

## Model

| member | source | states |
|---|---|---|
| `Types.MergeKeepsValue` | types/types.go:380-433 | a valid value merged by section 2 of RFC 7396 into a valid value is valid, at every depth, and not emptied |
| `Types.MergeKeepsScalars` | types/types.go:469-496 | a stored row that passes the field checks still passes after any patch that passes the patch checks |
| `Types.SplitKeepsScalarsValid` | core/edge.go:18-33 | splitting valid fields leaves valid scalars for the row |
| `Values.SimpleKindsAccept` | types/types.go:380-433 | what a field of each simple kind accepts |
| `Values.AcceptedIffShapedBelow` | types/types.go:380-433 | a value is accepted exactly when every value nested in it, at any depth, has the shape declared for its place |
| `Values.EmptyValues` | types/types.go:571-585 | of the accepted values exactly blank texts and empty containers count as missing |
| `Values.SlugIs` | types/utils.go:75-101 | a slug is letters, digits, underscores and dashes after a first letter, without a double dash |
| `Types.MergeSelf` | core/node_sql.go:239-270 | merging a valid value into itself changes nothing |
| `Graph.AcyclicInsert` | core/edge.go:124-137 | an edge whose target does not reach its source keeps a graph acyclic |
| `Graph.AcyclicPathsAreSimple` | core/traverse.go:11-27 | in an acyclic graph no path visits a node twice |
| `Service.Closure` | core/edge.go:124-137 | the worklist ends and holds exactly the nodes reachable from the start |
| `Service.Store.WouldCreateCycle` | core/edge.go:124-137 | true exactly when the new edge would close a cycle |
| `Service.Store.InsertEdge` | core/edge.go:79-118 | the row stored, the error, or no change, as the specification has it |
| `Service.Store.AddEdges` | core/edge.go:36-62 | the loop over fields and targets agrees with the specification, on failure too |
| `Service.Store.ClearFields` | core/edge.go:233-240 | exactly the edges of the patched fields at the node are gone |
| `Service.Store.AddEdge` | core/edge.go:209-231 | one edge added or an error, the rest unchanged; which and when: `EdgeWrites.AddedIsRead`, `Acceptance.AddErrorIs` |
| `Service.Store.RemoveEdge` | core/edge.go:243-295 | the edge is gone or the error of the specification; when: `EdgeWrites.RemoveSucceedsIff` |
| `Service.Store.CreateNode` | core/node_sql.go:136-206 | the new state or the error of the specification, nothing changed on error; what that state holds and when there is one: `Contents.CreatedRowHolds`, `Contents.CreatedReads`, `Acceptance.CreateSucceedsIff` |
| `Service.Store.PatchNode` | core/node_sql.go:212-312 | validation, merge, revision check, edge replacement and index, in one step; what they leave and when they go through: `Contents.PatchedRowHolds`, `Contents.PatchedFieldReads`, `Acceptance.PatchSucceedsIff` |
| `Service.Store.DeleteNode` | core/node_delete.go:38-71 | the node and its edges are gone, or the referrers that forbid it are listed |
| `Service.Store.IncomingReferences` | core/node_delete.go:74-102 | exactly the edges through which other nodes refer to the node |
| `Service.Store.IncomingListed` | core/node_delete.go:74-102 | each listed reference names its edge, the node at the other end, that node's type and the field, and every edge of another node into this one is listed |
| `Service.Store.IncomingIsRead` | core/node_delete.go:74-102 | a node and a field are listed exactly when that node reads this one under that field |
| `Service.Store.Rebuild` | core/search.go:339-359 | the index becomes the one the node table determines |
| `Invariants.StepKeepsInv` | core/edge.go:36-118 | every write keeps valid rows, valid edges, no conflicts, no cycles and the index |
| `Invariants.InsertKeepsGraph` | core/edge.go:79-118 | an accepted edge keeps types, flags, canonical ends, cardinality and acyclicity |
| `Invariants.PatchKeepsInv` | core/node_sql.go:212-312 | a patch keeps all of it across deleting and re-adding its edges |
| `Invariants.ReachableInv` | core/edge.go:79-137 | in every reachable state: schema-valid nodes and edges, no conflicts, no cycles, index equal to a rebuild |
| `SoundReads.ReadsAreSound` | core/node_read.go:117-148 | every reference field reads distinct existing nodes of its target type, at most one under a single reference; symmetric and equivalence fields read mutually and never the node itself |
| `SoundReads.ReadsDoNotCycle` | core/edge.go:79-137 | following what reads show under a transitive or parent field never leads back to the start |
| `SoundReads.ReadShows` | core/node_read.go:59-115 | a read shows the stored scalars, every list field with its list, a single reference with its target or not at all, and nothing else |
| `Contents.CreatedRowHolds` | core/node_sql.go:136-206 | a create stores a fresh row of the given type and display holding of the scalar fields exactly those given or defaulted, each with the given value, else the default; no other row changes |
| `Contents.CreatedReads` | core/edge.go:36-62 | a new node's reference field reads as the targets named by the given value, else by the default, in that order |
| `Contents.MergeOverlays` | core/node_sql.go:264-270 | at every path of keys a merged object holds the patch's value where it sets one, nothing at or below its null, and what was there everywhere else |
| `Contents.PatchedRowHolds` | core/node_sql.go:212-287 | a patch that lands leaves exactly that at every path of the row's scalars, the type, the display it gives or the old one, one revision more, and every other row as it was |
| `Contents.PatchedFieldIs` | core/node_sql.go:245-270 | field by field: kept when not named, gone under null, and the patch's value for every kind but objects |
| `Contents.PatchedFieldReads` | core/node_sql.go:289-301 | a reference field a patch sets reads as the targets its value names, in that order |
| `EdgeWrites.AddSucceedsIff` | core/edge.go:79-118 | an edge can be added exactly when the source declares the field, the target has its type, is not the source nor above it where that is ruled out, and reads show neither the link nor a single reference in use at an end |
| `EdgeWrites.AddedIsRead` | core/edge.go:209-231 | it is then read at either end it belongs to, after the references with no greater position, and every other list is as before |
| `EdgeWrites.GraphIsRead` | core/edge.go:124-137 | the graph in which cycles are looked for is what reads show, its upward half for an undirected field |
| `EdgeWrites.RemoveSucceedsIff` | core/edge.go:243-295 | an edge can be removed exactly when it exists and a required field counts two at each end it is read from: what is read there and, under an undirected field, directed edges into the end under the same name; then exactly that row goes |
| `EdgeWrites.CountsReadsOnly` | core/edge.go:266-280 | where no two types' fields clash only what is read counts |
| `EdgeWrites.ReachableRemoveIff` | core/edge.go:243-295 | in a reachable state, exactly when it exists and a required field reads at least two references at its source |
| `EdgeWrites.ForeignLinksCount` | core/edge.go:266-280 | a state in which the last required link of a page can be removed because a menu links to the page under the same name |
| `Acceptance.AddSucceedsForAllIff` | core/edge.go:36-62 | the references of a node are added exactly when each value fits by itself, in whatever order the fields are walked |
| `Acceptance.CreateSucceedsIff` | core/node_sql.go:136-206 | a create goes through exactly when there is a display, nothing required is missing, and every given or defaulted value is one its field can take, targets included |
| `Acceptance.PatchSucceedsIff` | core/node_sql.go:212-312 | a patch goes through exactly when it carries the current revision, does not empty the display, and every field it names is declared, may change and can take its value; targets are judged by what the store reads before the patch |
| `Acceptance.AddErrorIs` | core/edge.go:64-118 | why an edge is refused: the first cause that applies, in the source's order |
| `Acceptance.PatchErrorIs` | core/node_sql.go:212-287 | why a patch is refused before its references are looked at; a revision conflict is reported exactly for a sound patch with another revision |
| `Acceptance.CreateErrorIs` | core/node_sql.go:136-206 | why a create is refused before its references are looked at, and what else it can be refused for |
| `Acceptance.ListErrorIs` | core/edge.go:36-118 | the first target that a list cannot take decides the error: repeated, absent, of another type, the node itself, or closing a cycle |
| `Acceptance.DeleteErrorIs` | core/node_delete.go:38-102 | why a delete is refused: there is no such node, or another node reads it |
| `Bigram.Scan` | core/search.go:88-131 | the one-pass scan writes the text that cutting into runs defines |
| `Reads.OrderIsUnique` | core/node_read.go:132-141 | rows in (sort, id) order are determined by which rows they are |
| `Reads.FullFieldsSplit` | core/edge.go:18-33 | splitting what a read returns gives back the stored scalars and the references |
| `Hydrate.BatchIsPerNode` | core/node_read.go:59-115 | one sorted batch gives each node and field the list it reads alone |
| `Hydrate.HydrateFields` | core/node_read.go:59-115 | every node of the array ends with exactly its own stored fields and references |
| `RoundTrip.WriteBack` | core/node_patch.go:14-23 | patching a node with what was read succeeds exactly when every field may be patched; then its scalars and ordered lists stay, its revision is one higher, and of all edges exactly those are lost that an undirected namesake of the node's type clears |
| `RoundTrip.WriteBackNeighbours` | core/node_sql.go:289-301 | after a write-back every field of every node relates it to the neighbours it had, less exactly those behind the lost edges |
| `RoundTrip.WriteBackKeepsNeighbours` | core/node_sql.go:289-301 | without name clashes the write-back leaves every node's neighbour sets as they were |
| `ReachableStates.ReadsAreValid` | types/types.go:436-465 | what a read returns in a reachable state passes the checks of a create |
| `ReachableStates.WriteBackIsAllowedIff` | core/node_sql.go:212-287 | in a reachable state the write-back is accepted exactly when no field it carries is immutable |
| `ReachableStates.RequiredFailsWithNameClash` | core/edge.go:233-240 | a run of three writes that empties a required reference when two fields clash |
| `Required.ReachableRequired` | core/edge.go:243-295 | without clashes every directed required reference holds an edge in every reachable state |
| `RequiredExact.PatchesKeepRequiredIff` | core/edge.go:233-240 | from a reachable state that holds its required references, every sequence of patches keeps them exactly when no node's required reference shares its name with an undirected field of its target type that a patch may set |
| `RequiredExact.AlwaysRequiredIff` | core/edge.go:233-295 | all runs of the five writes keep required references exactly when no run creates a node with such a reference |
| `Required.ReachableRequiredAll` | types/types.go:436-496 | no node of a type that needs a peer exists, so every required reference of every node is held and read |
| `Required.DeleteKeepsOthers` | core/node_delete.go:38-71 | a delete leaves no edge at the node and no other node's references changed |
| `Required.DeleteAllowedIff` | core/node_delete.go:38-102 | a delete is refused exactly when another node's read references contain the node |
| `Revisions.RevisionIsOnePlusPatches` | core/node_sql.go:274-287 | while a node lives its revision is one plus the patches that landed on it |
| `Revisions.SameRevisionLandsOnce` | core/node_sql.go:212-287 | of two patches of one life of a node with the same revision at most one lands |
| `Revisions.NoLostRowUpdate` | core/node_sql.go:274-287 | a patch that lands was computed from the row it replaces |
| `StaleEdges.PatchedReads` | core/node_sql.go:289-301 | after a patch that lands a reference field reads as the targets the patch names for it, in their order, or as before |
| `StaleEdges.AddedEdgeSurvivesIff` | core/edge.go:209-231 | of the patches that land next after AddEdge with the revision read before it, exactly those keep the edge that leave the field alone or name the target |
| `StaleEdges.RemovedEdgeReturnsIff` | core/edge.go:243-295 | of the patches that land next after RemoveEdge with the revision read before it, exactly those that name the target bring it back |
| `StaleEdges.StalePatchAfterRun` | core/node_sql.go:212-301 | whatever writes lie between, a patch that lands at the revision read finds the row as it was read and leaves the field as it names it, or as those writes left it |
| `StaleEdges.AddedEdgeAfterRunIff` | core/edge.go:209-231 | after AddEdge and any further writes, such a patch leaves the reference exactly when it names it, or leaves the field alone and the reference is still there |
| `StaleEdges.RemovedEdgeAfterRunIff` | core/edge.go:243-295 | after RemoveEdge and any further writes, the reference is there exactly when the patch names it, or leaves the field alone and another write brought it back |
| `StaleEdges.PatchedElsewhereIff` | core/edge.go:233-240 | a patch of one node takes a reference from a directed field of another exactly when it leads to the patched node and the patch sets an undirected field of the same name |
| `StaleEdges.AddedEdgeLostToTargetIff` | core/edge.go:209-240 | a directed edge just added is lost to a patch of its target exactly when that patch sets an undirected namesake |
| `StaleEdges.AddedEdgeIsNotProtected` | core/edge.go:209-231 | an empty list prepared before AddEdge lands wherever the field may be emptied, and drops the edge |
| `StaleEdges.StaleListLosesLink` | core/edge.go:209-231 | a run of four writes in which a patch at the revision read loses the link another client added |
| `Decimal.MarkIffInPath` | core/traverse.go:17-27 | the comma-delimited substring test is membership in the path |
| `Traverse.TraverseIsBoundedReach` | core/traverse.go:11-27 | Traverse returns exactly the nodes 1 to maxHops references away, never the start |
| `Traverse.SubtreeIsBoundedReach` | core/traverse.go:30-46 | Subtree returns exactly the other nodes, of whatever type, from which 1 to maxHops edges of the field's name lead to the start; of the nodes of the type, exactly those 1 to maxHops references below it |
| `Traverse.SubtreeStaysIff` | core/traverse.go:30-46 | the result stays in the type exactly when no edge of that name from another type leads to the start or to a node fewer than maxHops below it |
| `Traverse.SubtreeStaysWithoutClash` | core/traverse.go:30-46 | without name clashes it always does |
| `Traverse.SubtreeIffTraverse` | core/traverse.go:30-46 | x is in the subtree of r exactly when r is among the nodes x leads to |
| `Traverse.ClassIsBoundedReach` | core/traverse.go:87-104 | EquivalenceClass returns exactly the nodes within maxHops undirected steps, the start included |
| `Traverse.DirectedWalk` | core/traverse.go:17-27 | pruning repeated nodes from the walk loses no node within reach |
| `Traverse.WalkAcceptedIff` | core/traverse.go:106-134 | a walk is accepted exactly for 1 to 100 steps from a node of the type along an equivalence field, or a transitive or parent field |
| `Ancestors.AncestorsAreTheParentChain` | core/traverse.go:49-79 | for a single reference the rows by falling depth are the chain of parents, root first, cut off only by maxHops |
| `Ancestors.AncestorsAreTheWaysUp` | core/traverse.go:49-79 | for every hierarchical field, lists included: one row for each way up of at most maxHops references, the longest first |
| `Trees.Tree.Load` | core/tree.go:28-82 | whatever rows the scope admits, the maps are those of a forest over them |
| `Trees.ParentEdgesAreLoadable` | core/tree.go:62-72 | in a valid store the parent edges are functional and acyclic |
| `Trees.Tree.Ancestors` | core/tree.go:145-167 | the chain from the root to the node; the cycle guard is never taken |
| `Trees.Tree.SubtreeIds` | core/tree.go:170-185 | the recursion ends with the depth-first ids of the subtree |
| `Trees.Tree.JsonNodes` | core/tree.go:107-117 | every root with its subtree, children in sibling order |
| `Trees.SubtreeIffAncestor` | core/tree.go:145-185 | x is among the subtree ids of r exactly when r is among the ancestors of x, and once |
| `Trees.JsonHoldsEachOnce` | core/tree.go:107-117 | the serialized trees hold every loaded node exactly once |
| `Expand.LevelIsImage` | core/expand.go:141-225 | level k of an expansion that goes through is the k-fold image of the roots |
| `Expand.ListIsRead` | core/expand.go:141-225 | an outgoing expansion lists what a read of the field lists, in the same order |
| `Expand.ListIsLinked` | core/expand.go:227-294 | an expanded list holds exactly the linked nodes of the target type |
| `Expand.OutwardsShowsReads` | core/expand.go:141-225 | under the name of a reference field an expanded node shows the list a read gives, or its one target |
| `Expand.InwardsShowsReaders` | core/expand.go:141-294 | under an incoming path it shows the nodes of the source type that read it under the field |
| `ExpandRun.TypedEdges` | core/expand.go:227-281 | each node gets its edges in (sort, id) order, or the limit is exceeded |
| `ExpandRun.Expander.ExpandTyped` | core/expand.go:141-225 | every node of every level shows its list, or an error exactly when some level does not resolve or fit |
| `Like.EscapeLikeIsOnePass` | core/node_query_compile.go:423-427 | the three replacements put one backslash before each special character |
| `Like.ContainsPatternIsExact` | core/node_query_compile.go:142-149 | the contains pattern matches exactly the texts the value occurs in, up to ASCII case |
| `Like.PrefixPatternIsExact` | core/node_query_compile.go:142-149 | the prefix pattern matches exactly the texts that start with the value, up to ASCII case |
| `Reads.RefersIffRead` | core/node_read.go:132-141 | the relation filters speak of is the list reads show |
| `CompileCorrect.CompiledIsMeant` | core/node_query_compile.go:46-379 | for every filter that compiles, time columns and nested aliases included, the predicate has the filter's three-valued meaning where the text is exact |
| `Comparisons.NumbersCompare` | core/node_query_compile.go:121-152 | each of the six operators on a number column or field, and its negation, selects a row exactly by the size of the number it holds |
| `Comparisons.TextsCompare` | core/node_query_compile.go:121-152 | on texts: equality, the order of the first difference, occurrence and beginning up to ASCII case; and the negations |
| `Comparisons.NullCompares` | core/node_query_compile.go:129-134 | a comparison with null selects exactly the rows without a value, or with one |
| `Comparisons.MissingIsNotSelected` | core/node_query_compile.go:121-152 | a row without a value is selected by no comparison with a value, nor by its negation |
| `Comparisons.ListSelects` | core/node_query_compile.go:238-271 | a list selects the rows that hold one of its numbers or texts |
| `Comparisons.ListRefuses` | core/node_query_compile.go:238-271 | its negation selects the rows that hold another, and never one without a value |
| `Comparisons.ConnectivesAreKleene` | core/node_query_compile.go:200-236 | and, or, not on the three truth values |
| `Comparisons.PathResolvesIff` | core/node_query_compile.go:80-119 | a path resolves exactly when it names a column or a declared field of its sort, and then to that |
| `Comparisons.CompareCompilesIff` | core/node_query_compile.go:154-198 | which operators compile on which kinds and columns, with which operands |
| `Comparisons.InCompilesIff` | core/node_query_compile.go:238-308 | which lists compile: at most 100 values, that the field could hold, or that are row ids |
| `Comparisons.SetCompilesIff` | core/node_query_compile.go:238-308 | a set compiles on a reference only, when its address resolves and lists at most 100 ids |
| `Comparisons.ExistsCompilesIff` | core/node_query_compile.go:310-346 | exists and missing compile exactly where the path leads somewhere |
| `Comparisons.CompareErrorIs` | core/node_query_compile.go:121-198 | why a comparison does not compile: the path, then the operator, then the operand |
| `Values.TextOrderIsTimeOrder` | types/timestamp.go:5-15 | the texts of instants compare as the instants do |
| `Values.TimeIsWrittenInstant` | types/timestamp.go:30-47 | the accepted texts are exactly those an instant of the calendar is written as, and reading one gives it back |
| `CompileCorrect.RelatedIsMeant` | core/node_query_compile.go:348-379 | a nested related holds exactly when some linked node satisfies the child, aliases never clashing |
| `CompileCorrect.NextAliasIsFresh` | core/node_query_compile.go:363-364 | a new alias differs from every name in scope |
| `CompileCorrect.ResolvedSetSays` | core/node_query_compile.go:381-411 | a resolved subtree set holds the addressed node and exactly the nodes, of whatever type, from which at most 20 edges of the parent field's name lead to it; of its own type, exactly its subtree |
| `CompileCorrect.ResolvedSetStaysIff` | core/node_query_compile.go:381-411 | the set stays in the type of its root exactly when no edge of that name from another type leads into the tree above its last level |
| `CompileCorrect.SetIsTooLargeIff` | core/node_query_compile.go:238-308 | of the addresses with a tree exactly those are refused as too large below which, counting nodes of every type, there are 100 or more |
| `CompileExact.SelectedAreMatching` | core/node_query.go:107-132 | a row is returned exactly when its type matches and the filter is true of it |
| `CompileExact.ExistsTextIsRightIff` | core/node_query_compile.go:310-346 | in any valid state and at any node the emitted exists or missing text is right exactly when the node has a link of the relation or no edge of another intrudes |
| `CompileExact.RelatedTextIsRightIff` | core/node_query_compile.go:348-379 | for a child whose own text is exact, the emitted related text is right exactly when a linked node satisfies the child or no intruding edge leads to one the child's text accepts |
| `CompileExact.RelatedTextIsRightIffLed` | core/node_query_compile.go:348-379 | for any child, exact or not: the text is true exactly when an edge of the relation or an intruding one leads to a node the child's text accepts, and right exactly when that agrees with a linked node satisfying the child |
| `CompileExact.InTextIsRightIff` | core/node_query_compile.go:238-308 | the emitted in text is right exactly when a linked node is a member, of a list or a subtree set, or no intruding edge leads to a listed node |
| `CompileExact.WrongExistsSelects` | core/node_query_compile.go:320-341 | where the exists text is wrong it selects a row the filter is not true of |
| `CompileExact.WrongInSelects` | core/node_query_compile.go:272-305 | where the in text is wrong it selects a row the filter is not true of |
| `WrongAnswers.QuotingNoteIsSelected` | core/node_query_compile.go:329-329 | a run after which a note that only quotes is selected among the notes that cite |
| `WrongAnswers.QuotingNoteIsRelated` | core/node_query_compile.go:376-376 | after the same run that note is selected among the notes related to some note by citing |
| `WrongAnswers.LinkedPageIsSelected` | core/node_query_compile.go:278-285 | a run after which a page a menu links to is selected among the pages linked with that id |
| `WrongAnswers.CommentIsInSubtree` | core/traverse.go:35-44 | a run after which a comment is returned below a page, and listed by the page's subtree set |
| `QueryCompilers.QueryCompiler.Compile` | core/node_query_compile.go:46-72 | the compiler object with its counters computes the specified predicate or error |
| `QueryCompilers.QueryCompiler.CompileLogic` | core/node_query_compile.go:200-236 | the arguments are compiled in order, each counting on from the one before |
| `QueryCompilers.QueryCompiler.CompileRelated` | core/node_query_compile.go:348-379 | the depth limit, the next alias and the child, as specified |
| `QueryCompilers.QueryCompiler.CompileMembership` | core/node_query_compile.go:238-308 | the checks of in, in the source's order |
| `QueryCompilers.GuardIsExact` | core/node_query_compile.go:46-379 | a filter compiles exactly when it is well typed, has at most 256 nodes and 12 levels and every related above level 4; each limit is blamed only when it is exceeded |
| `NodeQuery.RowsAreScopedMatches` | core/policy.go:45-57 | a row is returned exactly when type, user filter and server scope all hold |
| `NodeQuery.DeniedSeesNothing` | core/policy.go:24-31 | under a policy without an expression no filter returns a row |
| `NodeQuery.UnsetIsRefused` | core/policy.go:43-57 | a scope that was never set is an error, whatever the query |
| `NodeQuery.PolicyIsItsExpression` | core/policy.go:24-57 | under a policy with an expression exactly the rows are returned of which the type, the filter and the expression hold |
| `NodeQuery.ScopeFitsIff` | core/policy.go:45-57 | a filter and a scope accepted alone are accepted together exactly when one node and one level more leave room for both under all three limits |
| `NodeQuery.ScopeRefusesDeepRelated` | core/policy.go:45-57 | a related below three negations compiles alone and is refused under a scope that allows every row |
| `NodeQuery.CountNodes` | core/node_query.go:62-91 | the number of returned rows, cut at the limit |
| `Sorting.CompileSort` | core/node_query.go:134-181 | refused exactly for too many, repeated, unresolved or unsortable fields; otherwise one term each and the id |
| `Sorting.ListingIsUnique` | core/node_query.go:134-181 | a compiled sort orders any set of rows in one way only |
| `Sorting.ListingExists` | core/node_query.go:134-181 | a compiled sort never ties two rows, so every set of rows has a list |
| `Sorting.PagesCoverTheList` | core/node_query.go:35-58 | consecutive pages make up the list without gap or repeat |
| `Sorting.PageHolds` | core/node_query.go:35-58 | a page starts at the offset and holds what is left, at most the limit, in the order of the list |
| `RowOrder.ListedInOrder` | core/node_query.go:134-181 | each listed row precedes those after it: at the first sort field on which the values they hold differ it has the lower one, or the higher where the field sorts downwards; by default the latest update, then the latest id |
| `RowOrder.SortRefusedIff` | core/node_query.go:134-181 | a sort is refused exactly for more than 8 fields, a repeated one, or one that is no column or field of a sortable kind |
| `Lisp.PrintedParsesBack` | query/lisp.go:33-379 | a printed filter, its operands written as placeholders, words, literals or lists, parses back to itself exactly within 4096 bytes, 256 nodes and 12 levels, and fails beyond; which operand a written atom stands for: `Lisp.LiteralIsBound`, `Lisp.PlaceholderIsBound` |
| `Lisp.PlaceholderIsBound` | query/lisp.go:166-175 | an operand can always be written as a placeholder: its parameter is read back whatever the literal syntax |
| `Lisp.LiteralIsBound` | query/lisp.go:166-191 | `true`, `false` and `null` stand for those values, numerals and quoted texts for what Go's syntax reads them as |
| `Lisp.ListIsBound` | query/lisp.go:333-379 | a list of at most 100 written operands stands for the list of their values |
| `Lisp.LiteralComparisonParses` | query/lisp.go:191-215 | the text of a comparison of a path with a literal parses to that comparison |
| `Lisp.ShownParses` | query/lisp.go:50-119 | a shown s-expression parses exactly when it fits the node and depth limits, then to itself, counting exactly its own nodes |
| `Lisp.AcceptedIsWithinGuard` | query/lisp.go:33-62 | every accepted text gives a filter the compiler's guard lets through |
| `LispParsers.LispParser.Parse` | query/lisp.go:50-119 | the parser object ends on every text with the specified result and position |
| `LispParsers.LispParser.ReadToken` | query/lisp.go:121-158 | the token loops read what the token function defines |
| `LispParsers.Parse` | query/lisp.go:33-48 | the whole front end computes the specified filter or error; which texts give which filter: `LispTexts.ParsesIff` |
| `LispTokens.SpaceIff` | query/lisp.go:160-164 | exactly the leading blanks, tabs and newlines are skipped |
| `LispTokens.TokenIff` | query/lisp.go:121-158 | a token is a quoted text closed by the first quote that no backslash escapes, or the run of characters up to the next delimiter |
| `LispTokens.AtomIff` | query/lisp.go:166-189 | what a token stands for: a quoted text, else a placeholder, else a number, else one of the three constants, else the word itself |
| `LispTexts.ParsesIff` | query/lisp.go:33-379 | a text parses to a filter exactly when it has at most 4096 bytes and is made, white space aside, of the lexemes of an s-expression of at most 256 nodes and 12 levels that says the filter |
| `Spec.EncodedDecodes` | query/spec.go:88-154 | an encoded filter decodes to itself exactly within 256 nodes and 12 levels, and fails beyond |
| `Spec.DecodedIsWithinGuard` | query/spec.go:88-154 | what decodes is within the compiler's guard and is counted as the compiler counts |
| `Spec.PathDecodes` | query/spec.go:156-186 | each path has its place in the transport form |
| `Spec.DecodeSpec` | query/spec.go:88-154 | the recursion with the shared counter computes the specified filter or error; which forms give which filter: `SpecForms.DecodesIff` |
| `SpecForms.DecodesIff` | query/spec.go:88-186 | a form decodes to a filter exactly when it says it and the filter is within 256 nodes and 12 levels |
| `EdgeSchema.SyncedIsConsistent` | core/edge_schema.go:20-152 | a pass that succeeds on any raw rows leaves the same links in canonical order, one row per pair and single references once per end; exactly the undirected rows stored the wrong way round are turned; a row has the schema's flags exactly when it was stable |
| `EdgeSchema.SettledRowIs` | core/edge_schema.go:103-133 | what a pass makes of any one row: its ends, turned round only if undirected and stored the wrong way round, its place, and its flags |
| `EdgeSchema.TypedRowIsRepaired` | core/edge_schema.go:103-133 | of a row of a declared field between nodes of the declared types, whatever its flags and the order of its ends, a pass makes the row an insert would have stored |
| `EdgeSchema.ValidTableIsSettled` | core/edge_schema.go:20-101 | a pass over rows that inserts have stored changes nothing |
| `EdgeSchema.StrayBecomesDirectedIff` | core/edge_schema.go:111-125 | a row swapped onto a source of another type ends under a directed field, in the opposite direction, exactly when that type comes later and declares one for it |
| `EdgeSchema.SecondRunChangesNothingIff` | core/edge_schema.go:20-152 | the pass repeated changes nothing exactly when no row strays onto a source that does not recover it |
| `EdgeSchema.SecondRunClearsFlags` | core/edge_schema.go:103-133 | a mistyped undirected row whose flags the second run clears |
| `EdgeSync.EdgeTable.Sync` | core/edge_schema.go:20-101 | on any raw rows: everything settled and consistent, directed rows in their direction, or nothing changed, and it fails exactly when two settled rows take one pair or a single reference is used twice |
| `EdgeSync.EdgeTable.SyncField` | core/edge_schema.go:103-133 | the rows of one field rewritten, or a failure exactly when two rows of the table would then take one pair |
| `Mask.MaskedIsClean` | web/mask.go:27-53 | at every depth no hidden name among the fields and nothing of an unreadable type is left |
| `Mask.HiddenIsShownIff` | web/mask.go:43-52 | below a masked node a hidden name is never a field, and is an expanded entry exactly when it names a readable one, which is then masked itself |
| `Mask.MaskedIsSealedIff` | web/mask.go:43-52 | at every depth no hidden name at all is left exactly when the input has none on a readable entry |
| `Mask.HiddenAuthorIsShown` | web/mask.go:43-52 | a post whose author is hidden still shows the author, expanded under that name |
| `Mask.MaskedIsGreatest` | web/mask.go:95-160 | anything clean that shows no more than the input shows no more than the result: nothing else is dropped |
| `Mask.MaskedTwice` | web/mask.go:27-53 | masking twice is masking once |
| `MaskWalk.Memory.MaskNode` | web/mask.go:27-53 | the same cell or a fresh copy that shows the masked node; no existing cell changes |
| `MaskWalk.Memory.MaskExpand` | web/mask.go:95-160 | entries with an unreadable target are dropped whole, the map copied only if something changes |
| `MaskWalk.Memory.MaskTrees` | web/mask.go:163-191 | every tree node masked, an item rebuilt only if something in it changes, an error exactly for an unreadable node |
| `MaskWalk.MaskedTreesAreClean` | web/mask.go:163-191 | masked trees are clean, in the sense of `Mask.MaskedIsClean`, at every depth and masking them again changes nothing |
| `MaskWalk.Memory.MaskNodes` | web/mask.go:57-66 | each element overwritten by its masked copy up to the first unreadable one; no existing cell changes |
| `BigramSearch.SubstringIsFound` | core/search.go:88-131 | a CJK query of two characters or more finds every text it occurs in |
| `BigramSearch.ExactInCjkText` | core/search.go:88-131 | in a CJK text phrase search is substring search |
| `BigramSearch.PhraseIffInGlued` | core/search.go:88-131 | a query finds a text exactly when it occurs in its stretches glued across gaps without words |
| `BigramSearch.ExactWithoutSeams` | core/search.go:88-131 | without such a seam phrase search is substring search |
| `BigramSearch.SpacedTextIsFound` | core/search.go:106-131 | a text found by a query that does not occur in it |
| `SearchIndex.IndexedTokens` | core/search.go:88-131 | the tokenizer cuts the text the scan writes into exactly the tokens the search results are about |
| `SearchIndex.SplitBlanksIsTokenizer` | core/search.go:106-131 | the search results are not empty: splitting at blanks is a tokenizer they hold of |
| `SearchIndex.IndexFindsSubstrings` | core/search.go:88-131 | on the stored index row of a node a CJK query finds every text it occurs in, and without seams no other |
| `SearchIndex.IndexFindsDisplays` | core/search.go:88-180 | the same of the display text of the row |
| `SearchIndex.SearchableAppend` | core/search.go:143-156 | the searchable text takes the declared fields in order, with a blank between the texts they hold |
| `SearchIndex.BigramIsEmptyIff` | core/search.go:88-131 | nothing is written exactly for a text of white space only |
| `SearchIndex.TrimIs` | core/search.go:97-100 | of each run the white space at both ends is dropped, and nothing else |
| `SearchIndex.IndexedIff` | core/search.go:159-180 | a node has an index row exactly when its type is searchable and its display or a declared text field holds more than white space |

## Left out

- HTTP, rendering, cookies, uploads, the admin interface and all JavaScript: input, output and presentation.
- SQLite, dba, goose, YAML and reflection: foreign code. A SELECT is the set of rows its condition describes, in the order it asks for; row ids are one more than the largest in use, as for INTEGER PRIMARY KEY without AUTOINCREMENT.
- `created_at`, `updated_at`: the writes do not track them; filters and sorts take the stored texts as given. A `time.Time` operand, which only Go callers can pass, is not a value here.
- Integer width: ids, revisions and sort positions are unbounded.
- Custom kinds registered by a site: the built-in kinds only, all of which reject null.
- `constraints.unique`, `constraints.indexes` and address uniqueness: guards of the database on scalar columns.
- Hooks other than the built-in search sync: taken to succeed and to write nothing.
- Concurrency inside one write: PatchNode and AddEdge read the row before their transaction begins; the model takes the read together with the step.
- Iteration order of Go maps: a parameter wherever the result could depend on it.
- bm25 ranking and FTS5's own tokenizer: a function the search lemmas take, of which they ask that a blank separates and a run of CJK characters is one token.
- The text of JSON stored in the `fields` column, and how SQLite compares arrays: such values compare with nothing.
- SQL spelling and placeholder numbers: the predicates are syntax trees with named rows; the addressed node of a subtree set is a parameter.
- Go's number and string literal syntax (ParseFloat, Unquote) and JSON decoding: functions the Lisp lemmas take, and the decoded value the transport form starts from.
- `Lisp.PrintedParsesBack`: for the filters the syntax has a form for, so no filter that is itself true or false, no path that reads as another kind of path or as a literal, and no list of more than 100 items written out; which text a literal has is the printer's choice, as long as the lexicon reads it back.
- `Tree.Get` by address, `Children`, `Parent`, `Len`: lookups in the maps `Load` is proved to build.
- nil entries of expanded lists and of tree slices, and Go's sharing of a tree item's own pointer: the masks copy values of tree items.
- `autoExpand`, several expand paths at once and re-expanding a node: the containers of an expansion start empty.
- SQLite's column affinity: a text that looks like a number, listed by an `in` on `id` or `revision` (which the source does not validate) or compared with a time column, is compared as that number by SQLite and as a text here; likewise a number listed for `type` or `display`.
- Sessions, credentials, settings, backup, sitemap, image processing, hook ordering, merge preview: no state, loop or invariant beyond a table lookup or a call into foreign code.
