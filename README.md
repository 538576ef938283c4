# Workflow executor and editor cycle guard, in Dafny

This project models the execution engine of a small visual workflow editor, along
with the editor's guard against cycles. A workflow is a sequence of nodes
(`httpNode`, `transformNode`, `filterNode`) joined by directed edges. The engine:

- orders the nodes with Kahn's algorithm (`topologicalSort`);
- runs each node in that order, passing it the results of the nodes that feed it
  in edge order;
- records either a result or an error message per node (`execute`).

The node executors have these behaviours:

- **HTTP node**: builds a request with a `GET` default and a JSON `Content-Type`
  default, then merges in user headers (`parseHeaders`).
- **Transform node**: evaluates its expression against a context that holds
  `inputs` and one `$<sourceId>` binding per defined upstream input.
- **Filter node**: either filters an array with a per-item condition, or deletes a
  comma-separated list of fields from a record.

The editor refuses to add an edge when the new edge's target can already reach its
source (`wouldCreateCycle`, `handleConnect`).

Modules, one per file:

- `Wrappers`: `Option` and `Result`.
- `JsValues`: the dynamic values the engine handles. This covers JavaScript
  truthiness, `typeof`, destructuring defaults, `String.prototype.trim`, `split` /
  `join` on one character, and object spread.
- `WorkflowGraph`: nodes, edges and the incoming and outgoing lists of each node.
  It also defines paths, reachability, acyclicity, and the nodes reachable from a
  cycle.
- `Scheduler`: `topologicalSort` as an imperative method, phase by phase, with the
  Kahn invariant stated as predicates on its maps and queue.
- `NodeExecutors`: `parseHeaders` and the three executors. It also has the
  `executeNode` dispatch, both as specification functions and as methods proved
  equal to them.
- `Coordinator`: `execute`, i.e. the edge map, the input gathering and the run loop
  that fills the result and error maps.
- `CycleGuard`: the editor's depth-first reachability search and the connect
  handler.

Every `Host` field stands in for behaviour the engine takes from its runtime:

- `fetch` plus `response.json()`;
- `JSON.parse`;
- compiling a filter condition into a per-item predicate;
- evaluating a transform expression on a context.

Each has an error outcome. The model takes them as parameters, so every property
holds for every choice of these functions. Each is a total function over values,
though. That means it is deterministic and has no side effects, and values cannot
be shared or aliased: "## Left out" states what this does not capture.

The object filter is modelled as the code is written. It deletes the fields it is
given: the field list is split on `,`, each name is trimmed, and each is removed
from a shallow copy of the record. A reading of the configuration as a "keep only
these fields" list disagrees with this, and the model follows the code.

## Model

| member | source | states |
|---|---|---|
| JsValues.TypeOf | workflow-editor/src/utils/executor.js:252-256 | `typeof` is "object" exactly for null, arrays and records |
| JsValues.WithDefault | workflow-editor/src/utils/executor.js:56 | a destructuring default replaces the field only when it is undefined; any other value, falsy ones included, is kept |
| JsValues.Trim | workflow-editor/src/utils/executor.js:265 | the result is the input with its leading and trailing whitespace removed, and it neither starts nor ends with whitespace |
| JsValues.Split | workflow-editor/src/utils/executor.js:262-263 | splitting always gives at least one part, and no part contains the separator |
| JsValues.JoinSplit | workflow-editor/src/utils/executor.js:263-265 | rejoining the split parts with the separator gives back the original line |
| JsValues.SplitJoin | workflow-editor/src/utils/executor.js:263-265 | splitting a join of separator-free parts gives back exactly those parts |
| JsValues.Spread | workflow-editor/src/utils/executor.js:67 | spreading a record copies it. Spreading an array or string gives exactly its decimal index keys, with index `i` holding item or character `i`. Spreading anything else contributes no keys |
| JsValues.IndexRecordValues | workflow-editor/src/utils/executor.js:162 | the record of an array's own properties holds item `i` under the decimal name of `i` |
| JsValues.DecimalValueNatToString | workflow-editor/src/utils/executor.js:162 | reading back the decimal name of an index gives the index, so distinct indices have distinct names |
| WorkflowGraph.Sources | workflow-editor/src/utils/executor.js:202-207 | a node's incoming list holds exactly the sources of the edges into it, in edge order |
| WorkflowGraph.Targets | workflow-editor/src/utils/executor.js:22-25 | a node's outgoing list holds exactly the targets of the edges out of it, in edge order |
| WorkflowGraph.SourcesTargetsCount | workflow-editor/src/utils/executor.js:22-25 | the number of edges u→v counted from u's outgoing list equals the number counted from v's incoming list |
| Scheduler.InitMaps | workflow-editor/src/utils/executor.js:16-19 | every node id starts with in-degree 0 and an empty successor list, and no other key is present |
| Scheduler.EdgeCounted | workflow-editor/src/utils/executor.js:22-25 | counting one more edge keeps every in-degree and successor list exact for the edges seen so far |
| Scheduler.CountEdges | workflow-editor/src/utils/executor.js:22-25 | after the edge pass, each node's in-degree is the number of edges into it, and its successor list is its edge targets in edge order |
| Scheduler.Roots | workflow-editor/src/utils/executor.js:28-33 | the roots are exactly the node ids with no incoming edge, in declaration order |
| Scheduler.RootsDistinct | workflow-editor/src/utils/executor.js:28-33 | with unique node ids, the seeded queue holds no id twice |
| Scheduler.SeedQueue | workflow-editor/src/utils/executor.js:28-33 | the initial queue is the roots in declaration order |
| Scheduler.InitialState | workflow-editor/src/utils/executor.js:16-33 | the state before the main loop satisfies the Kahn invariant: each in-degree counts the edges from unemitted nodes, and the queue holds the ready unemitted nodes |
| Scheduler.ReleaseEntry | workflow-editor/src/utils/executor.js:42-45 | decrementing one successor keeps the counts exact, and enqueues the successor precisely when its last pending predecessor is emitted |
| Scheduler.ReleaseSuccessors | workflow-editor/src/utils/executor.js:41-46 | after a node's successors have been released, the Kahn invariant holds again with that node appended to the order |
| Scheduler.OutsideAdd | workflow-editor/src/utils/executor.js:42 | emitting a node lowers the count of a target's pending predecessors by exactly the number of edges from that node |
| Scheduler.Drain | workflow-editor/src/utils/executor.js:36-47 | the main loop preserves the Kahn invariant and stops with an empty queue |
| Scheduler.PredecessorsFirstOrders | workflow-editor/src/utils/executor.js:36-47 | in an order where every predecessor comes first, each edge between emitted nodes goes from an earlier position to a later one |
| Scheduler.PredecessorsFirstExcludesCycles | workflow-editor/src/utils/executor.js:36-47 | such an order never contains a node that is reachable from a cycle |
| Scheduler.StuckNodesReachableFromCycle | workflow-editor/src/utils/executor.js:36-47 | when the queue runs dry, every node not emitted is reachable from a cycle |
| Scheduler.FinalState | workflow-editor/src/utils/executor.js:36-49 | the final order has distinct ids, puts predecessors first and starts with the roots. It holds a node exactly when the node is not reachable from a cycle |
| Scheduler.AcyclicAllSorted | workflow-editor/src/utils/executor.js:36-49 | for an acyclic graph the order holds every node |
| Scheduler.TopologicalSort | workflow-editor/src/utils/executor.js:10-50 | returns distinct input nodes, with every edge going forward and the roots first in declaration order. A node is returned iff no cycle reaches it, so an acyclic graph is sorted completely |
| NodeExecutors.LineEntryNoColon | workflow-editor/src/utils/executor.js:263-266 | a header line without a colon contributes no entry |
| NodeExecutors.LineEntryFirstColon | workflow-editor/src/utils/executor.js:263-266 | a header line splits at its first colon into a trimmed key and a trimmed value, and a line beginning with a colon is skipped |
| NodeExecutors.RecordHas | workflow-editor/src/utils/executor.js:262-267 | every key some line sets is present in the parsed headers |
| NodeExecutors.RecordSource | workflow-editor/src/utils/executor.js:262-267 | every parsed header comes from some line that set it to that value |
| NodeExecutors.RecordLastWins | workflow-editor/src/utils/executor.js:262-267 | when several lines set the same key, the last one wins |
| NodeExecutors.HeaderLines | workflow-editor/src/utils/executor.js:256-269 | for a string that is not JSON, header `k` gets the trimmed value of the last line whose trimmed key is `k` |
| NodeExecutors.HeaderLineSource | workflow-editor/src/utils/executor.js:256-269 | for a string that is not JSON, each parsed header traces back to one of its lines |
| NodeExecutors.ParseLines | workflow-editor/src/utils/executor.js:261-268 | the line loop builds exactly the record the header lines specify |
| NodeExecutors.ParseHeaders | workflow-editor/src/utils/executor.js:251-273 | an object-typed value is returned as is. A string gives its JSON value if it parses, or else its key:value lines. Anything else gives an empty record |
| NodeExecutors.HttpRequest | workflow-editor/src/utils/executor.js:56-69 | the request carries the node's url and its method, GET when absent. The headers are the user headers plus Content-Type, with user values overriding, and exactly the JSON default when none are given |
| NodeExecutors.HttpOutcome | workflow-editor/src/utils/executor.js:55-82 | a falsy url fails with "HTTP node requires a URL". Otherwise the node succeeds iff the fetch does, with {status, statusText, data}, and fetch errors are rethrown under "HTTP request failed: " |
| NodeExecutors.ExecuteHttpNode | workflow-editor/src/utils/executor.js:55-82 | the executor's outcome is the HTTP outcome of the node's configuration |
| NodeExecutors.TransformContextKeys | workflow-editor/src/utils/executor.js:96-103 | the context binds `inputs` to all inputs. It binds `$id` exactly for the source ids whose input is defined, and nothing else |
| NodeExecutors.TransformContextLastWins | workflow-editor/src/utils/executor.js:99-103 | a source id listed twice is bound to the input at its last defined position |
| NodeExecutors.TransformContextConsistent | workflow-editor/src/utils/executor.js:99-103 | every `$id` binding holds a defined input that belongs to that id |
| NodeExecutors.BuildContext | workflow-editor/src/utils/executor.js:96-103 | the binding loop builds exactly the transform context |
| NodeExecutors.TransformOutcome | workflow-editor/src/utils/executor.js:87-116 | without logic, the node passes its first input through, or null if that input is falsy. With logic, it succeeds iff evaluation does. It then returns exactly the evaluated value, or the evaluation's error rethrown under "Transform failed: " |
| NodeExecutors.ExecuteTransformNode | workflow-editor/src/utils/executor.js:87-116 | the executor's outcome is the transform outcome |
| NodeExecutors.FilterItems | workflow-editor/src/utils/executor.js:146-150 | filtering succeeds iff the predicate succeeds on every item, and it keeps only items of the input for which the predicate is truthy |
| NodeExecutors.FilterItemsCount | workflow-editor/src/utils/executor.js:150 | every item occurs in the result as often as in the input when the predicate keeps it, and not at all otherwise |
| NodeExecutors.FilterItemsAppend | workflow-editor/src/utils/executor.js:150 | filtering a concatenation filters each part and concatenates the results, so order is preserved |
| NodeExecutors.FilterItemsFirstError | workflow-editor/src/utils/executor.js:150 | the error reported is the one the predicate raises on the first failing item |
| NodeExecutors.RemoveFields | workflow-editor/src/utils/executor.js:161-166 | the deletion loop leaves exactly the record's keys minus the listed names, with their values unchanged |
| NodeExecutors.Unwrapped | workflow-editor/src/utils/executor.js:131-133 | a record whose `data` field is an array is replaced by that array, and any other input is kept |
| NodeExecutors.FilterArray | workflow-editor/src/utils/executor.js:135-150 | a non-array fails with "Filter input must be an array, got <typeof>". A falsy condition returns the input. Otherwise a compile error is rethrown. A compiled predicate gives exactly the array FilterItems keeps, or its error rethrown under "Filter failed: " |
| NodeExecutors.FilterObject | workflow-editor/src/utils/executor.js:151-167 | a value whose typeof is not "object" fails. Falsy fields return the input. Non-string fields fail as `split` would. Otherwise the result is the spread input minus the trimmed comma-separated names, with values unchanged |
| NodeExecutors.FilterOutcome | workflow-editor/src/utils/executor.js:121-174 | a falsy first input gives null. Array and object modes are exactly FilterArray and FilterObject on the unwrapped input, and any other mode returns the unwrapped input. Every error is rethrown under "Filter failed: " |
| NodeExecutors.ExecuteFilterNode | workflow-editor/src/utils/executor.js:121-174 | the executor's outcome is the filter outcome |
| NodeExecutors.NodeOutcome | workflow-editor/src/utils/executor.js:179-190 | each known kind gives exactly its executor's outcome and fails only with its own prefix. An unknown kind fails with "Unknown node type: <type>" |
| NodeExecutors.ExecuteNode | workflow-editor/src/utils/executor.js:179-190 | the dispatcher's outcome is the node outcome for its kind |
| Coordinator.BuildEdgeMap | workflow-editor/src/utils/executor.js:201-207 | a node has an entry iff some edge enters it, and the entry is its edge sources in edge order |
| Coordinator.Inputs | workflow-editor/src/utils/executor.js:218-219 | there is one input per source id, equal to that source's recorded result or undefined |
| Coordinator.InputsUnchanged | workflow-editor/src/utils/executor.js:218-223 | recording the result of a node that is not among the sources leaves the inputs unchanged |
| Coordinator.TransformSeesSources | workflow-editor/src/utils/executor.js:99-103 | a transform node's context binds `$id` to the recorded result of each upstream node whose result is defined |
| Coordinator.StoreKeeps | workflow-editor/src/utils/executor.js:222-230 | storing a node's outcome leaves every earlier node's entry as it was |
| Coordinator.StoreStep | workflow-editor/src/utils/executor.js:222-230 | storing a node's outcome records it, and it keeps the result and error maps disjoint |
| Coordinator.RunInOrder | workflow-editor/src/utils/executor.js:210-240 | the run loop gives every scheduled node exactly one entry: its result when executed on its sources' results, or its error message |
| Coordinator.RunCovers | workflow-editor/src/utils/executor.js:196-210 | a node has an entry exactly when it was scheduled, i.e. when no cycle reaches it |
| Coordinator.Execute | workflow-editor/src/utils/executor.js:195-246 | results and errors are disjoint. A node has an entry iff no cycle reaches it, and each entry is its own outcome, so an acyclic workflow records every node |
| CycleGuard.BuildAdjacency | workflow-editor/src/modules/Editor/Editor.jsx:39-45 | a node has an entry iff some edge leaves it, and the entry is its edge targets in edge order |
| CycleGuard.ClosedUnderEdges | workflow-editor/src/modules/Editor/Editor.jsx:51-67 | a walk that starts in a node set closed under the edges ends inside that set |
| CycleGuard.SearchExpand | workflow-editor/src/modules/Editor/Editor.jsx:62-66 | visiting a node and pushing its successors keeps the search invariant |
| CycleGuard.SearchSkip | workflow-editor/src/modules/Editor/Editor.jsx:58-60 | popping an already visited node keeps the search invariant |
| CycleGuard.SearchDone | workflow-editor/src/modules/Editor/Editor.jsx:51-69 | when the stack empties without meeting the source, the source is unreachable from the target |
| CycleGuard.WouldCreateCycle | workflow-editor/src/modules/Editor/Editor.jsx:37-70 | answers true iff the target already reaches the source, and expands each node at most once |
| CycleGuard.AddEdge | workflow-editor/src/App.jsx:38-40 | the edge is present afterwards, and no other edge is added or lost |
| CycleGuard.ReachesTrans | workflow-editor/src/modules/Editor/Editor.jsx:51-67 | reachability is transitive |
| CycleGuard.SplitAtNewEdge | workflow-editor/src/modules/Editor/Editor.jsx:89-103 | a path that uses the new edge splits into a path to its source and a path from its target |
| CycleGuard.ReachesAfterAdd | workflow-editor/src/modules/Editor/Editor.jsx:89-103 | after adding s→t, x reaches y only if it did before, or x reaches s and t reaches y |
| CycleGuard.AcceptKeepsAcyclic | workflow-editor/src/modules/Editor/Editor.jsx:89-103 | adding an edge whose target does not reach its source keeps an acyclic graph acyclic |
| CycleGuard.GuardExact | workflow-editor/src/modules/Editor/Editor.jsx:89-103 | on an acyclic graph, the guard refuses exactly the edges that would create a cycle |
| CycleGuard.HandleConnect | workflow-editor/src/modules/Editor/Editor.jsx:86-106 | a refused connection leaves the edges unchanged, and an accepted one adds the edge. An acyclic edge list stays acyclic |

## Left out

- Network, `response.json()`, `JSON.parse`, and the `new Function` / `with` evaluation of conditions and transforms are runtime behaviour. They are the `Host` parameters, each with an error outcome, and the model does not interpret JavaScript expressions.
- `async`/`await` is left out: execution is sequential, so each awaited call is modelled as a plain call.
- The `onProgress` notifications in `execute` are left out. The callback is assumed not to throw; under that assumption the events do not affect the results. A throwing callback would break this in three ways. A throw in the `success` call puts the node in both maps. A throw in the `running` call records an error without running the node. A throw in the `error` call ends the run.
- Coordinator.Execute: assumes that expressions, conditions and services have no side effects and answer the same request the same way. Stored results are shared objects in the source: passthrough and array filtering return the very objects they were given. So a transform or condition that mutates its argument changes an upstream node's stored result. The model does not capture that aliasing, nor a server that answers two identical requests differently.
- `console.warn` on a refused connection is left out.
- The edge decoration in `handleConnect` (`smoothstep`, `animated`, `markerEnd`) and the React components, state hooks and other UI files are left out.
- `addEdge` from the flow library is modelled as "append the edge unless the same edge is already present". Handle ids and generated edge ids are not modelled.
- `Object.fromEntries` at the end of `execute` and the key order of records are not modelled: records are maps.
- Numbers are `real`s. NaN, infinities and number-to-string formatting are not modelled.
- Strings are sequences of characters. UTF-16 surrogate pairs are not distinguished.
- Inherited property names (`__proto__`, `constructor`, `toString`) are not modelled. Two places in the source treat them differently from the model. First, the header assignment `result[key.trim()] = ...` with the key `__proto__` (executor.js:265) drops that header, while the model keeps it. Second, the `adjacencyList[...]` lookups in the editor (Editor.jsx:41, :64) find inherited members for names such as `constructor`.
- A node's `type` is a string. An undefined or non-string type is not modelled, including how it prints in the unknown-type message.
- Filter conditions receive only the item. The index and array arguments that `Array.prototype.filter` also passes are not modelled.
- The text of the TypeError raised when `fields` is a truthy non-string is taken to be "fields.split is not a function".
- Scheduler.TopologicalSort: requires unique node ids. With duplicate ids the source's node map keeps the last node per id, and the model does not describe that output.
- Scheduler.TopologicalSort: requires every edge source to be a node id. For any other source the source throws a TypeError, which is not modelled. An edge whose target is not a node is modelled: it just never enters the queue, as the source's NaN in-degree never equals 0.
- Coordinator.Execute: inherits both requirements from Scheduler.TopologicalSort.
