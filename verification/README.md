# Flow editor store, modelled in Dafny

The flow editor screen (`FlowEditor` in `src/pages/index.tsx`) shows a graph canvas next to a
sidebar listing its nodes. Behind both sits a small store with five pieces of state:

- the node list;
- the edge list;
- a counter `nodeId` that numbers new nodes;
- the selected node id;
- the id of the node whose label is being edited.

This project models that store as an immutable `Editor` record. Each handler is a pure
transition over it:

- "add" appends a node numbered from the counter and bumps the counter.
- "delete" filters out a node and every edge touching it, and clears the selection.
- Committing a label maps the node list, giving the matching node its new label, and closes
  the edit.
- The canvas click, the sidebar click and the edit button each set one field.

The model then proves these properties over arbitrary sequences of events:

- Every node id is the decimal numeral of a number the counter has already passed, and ids
  are pairwise distinct. So "add" never repeats an id, and an id that was deleted never
  comes back.
- No edge ever dangles, as long as every drawn connection joins nodes on the canvas.

Files:

- `wrappers.dfy`: `Option`, for the editor's nullable selection and edit ids.
- `decimal.dfy`: `Show`, the decimal numeral of a natural (what `nodeId.toString()` and
  `` `Node ${nodeId}` `` produce), and `Parse`, its inverse, with both round trips.
- `seqs.dfy`: `Filter` and `Map`, standing in for `Array.prototype.filter` and `map`. It also
  defines order-preserving sub-sequences (`IsSubsequence`).
- `flow_store.dfy`: the data model, the transitions and the invariants `IdsFresh` and
  `EdgesClosed`.
- `flow_events.dfy`: the UI events wired to the transitions, `Run` over an event sequence,
  and the reachability lemmas.

Naming: the node's `type` field is called `kind`, and its `data.label` is called `caption`.
Both `type` and `label` are reserved words in Dafny.

## Model

| member | source | states |
|---|---|---|
| Decimal.Show | src/pages/index.tsx:48 | the id text is a canonical decimal numeral: non-empty, digits only, no leading zero; it starts with '0' exactly for 0 and has one digit exactly below 10 |
| Decimal.ParseShow | src/pages/index.tsx:48 | reading back the numeral of n gives n |
| Decimal.ShowParse | src/pages/index.tsx:48 | every canonical numeral is the numeral of the number it denotes |
| Decimal.ShowInjective | src/pages/index.tsx:48 | two counters give the same id text exactly when they are equal |
| Seqs.Filter | src/pages/index.tsx:58-60 | filter keeps exactly the elements the predicate accepts, each as often as it occurred, and never lengthens the list |
| Seqs.FilterConcat | src/pages/index.tsx:58-60 | filtering a concatenation is concatenating the filtered parts, so no element moves across another |
| Seqs.FilterKeepsAll | src/pages/index.tsx:58-60 | filtering with a predicate every element meets returns the list unchanged |
| Seqs.FilterIsSubsequence | src/pages/index.tsx:58-60 | the filtered list sits inside the original in its original relative order |
| Seqs.Map | src/pages/index.tsx:67-71 | map keeps the length and puts f of the i-th element at position i |
| FlowStore.Init | src/pages/index.tsx:21-43 | the initial editor (one node "1" of type "default" labelled "Node Inicial" at (250, 5), no edges, counter 2, nothing selected or edited) has fresh ids and closed edges |
| FlowStore.AddNode | src/pages/index.tsx:46-55 | exactly one node is appended after the unchanged old ones; it has id toString(counter), type "default", label "Node " + toString(counter) and the given position; the counter goes up by one; edges, selection and editing are untouched |
| FlowStore.NumberedBelowIsNotNext | src/pages/index.tsx:48-54 | an id numbered below the counter is never the id the counter yields next |
| FlowStore.AddNodeIsFresh | src/pages/index.tsx:46-55 | under the invariant, the new id is not already present, and the invariant holds afterwards |
| FlowStore.AddNodeKeepsEdgesClosed | src/pages/index.tsx:46-55 | the node ids after an add are the old ids plus the counter's numeral, so every edge whose ends were present keeps them, and an editor with closed edges still has closed edges |
| FlowStore.RemoveNode | src/pages/index.tsx:57-63 | exactly the nodes with another id survive, and exactly the edges touching neither end survive, each as many times as before; the id is gone; the selection is cleared whatever it was; counter and editing are untouched |
| FlowStore.RemoveAbsentKeepsCollections | src/pages/index.tsx:58-60 | removing an id no node has leaves the nodes unchanged, and one no edge touches leaves the edges unchanged; in an editor whose edges are closed, removing an absent id leaves the edges unchanged too |
| FlowStore.RemoveNodeKeepsOrder | src/pages/index.tsx:57-61 | surviving nodes and edges keep their original relative order |
| FlowStore.RemoveNodeIdempotent | src/pages/index.tsx:57-63 | removing the same id twice is removing it once |
| FlowStore.RemoveNodeKeepsIdsFresh | src/pages/index.tsx:57-58 | removal keeps ids numbered below the counter and pairwise distinct |
| FlowStore.RemoveNodeKeepsEdgesClosed | src/pages/index.tsx:57-61 | in an editor whose edges are closed, cascading removal leaves no edge pointing at a missing node |
| FlowStore.UpdateNodeLabel | src/pages/index.tsx:65-74 | the node list keeps its length; matching nodes get the new label with id, type and position kept; other nodes, edges, selection and counter are untouched; editing is closed |
| FlowStore.UpdateNodeLabelKeepsIds | src/pages/index.tsx:65-72 | relabelling keeps the set of ids, and with it both invariants |
| FlowStore.UpdateNodeLabelIdempotent | src/pages/index.tsx:65-74 | committing the same label twice gives the same editor as committing it once |
| FlowStore.Select | src/pages/index.tsx:80-82 | the selection becomes the clicked id; nodes, edges, counter and editing are untouched |
| FlowStore.StartEditing | src/pages/index.tsx:133 | editing becomes the entry's id; nodes, edges, counter and selection are untouched |
| FlowStore.Connect | src/pages/index.tsx:76-78 | the connection is appended after the unchanged old edges; nodes, counter, selection and editing are untouched |
| FlowStore.AddThenRemove | src/pages/index.tsx:46-63 | under the invariants, deleting a just-added node restores nodes and edges; the counter stays advanced and the selection is cleared |
| FlowEvents.Dispatch | src/pages/index.tsx:106-169 | only "add" moves the counter, by one; delete removes the id and clears the selection; a commit closes editing; the edit button opens editing on its entry; either click selects its node |
| FlowEvents.Run | src/pages/index.tsx:41-54 | after a run, the counter has advanced by exactly the number of "add" clicks |
| FlowEvents.CanvasAndListSelectAgree | src/pages/index.tsx:80-106 | clicking a canvas node and clicking its sidebar entry lead to the same editor |
| FlowEvents.DispatchKeepsIdsFresh | src/pages/index.tsx:46-74 | every handler preserves the id invariant |
| FlowEvents.RunKeepsIdsFresh | src/pages/index.tsx:46-74 | every run of handlers preserves the id invariant |
| FlowEvents.ReachableIdsFresh | src/pages/index.tsx:21-74 | from the initial editor, after any events, ids are numbered below the counter and distinct, and the next "add" creates an id not present |
| FlowEvents.DispatchKeepsEdgesClosed | src/pages/index.tsx:57-78 | every handler keeps edges closed, provided a drawn connection joins present nodes |
| FlowEvents.RunKeepsEdgesClosed | src/pages/index.tsx:57-78 | a run whose connections join present nodes never leaves an edge dangling |
| FlowEvents.RetiredIdStaysRetired | src/pages/index.tsx:46-63 | an id below the counter that is absent stays absent through any events |
| FlowEvents.DeletedIdNeverReturns | src/pages/index.tsx:57-63 | in an editor whose ids are fresh, once a present node is deleted, no later events bring its id back |

## Left out

- Rendering: the JSX, the sidebar markup, CSS classes, and the `ScrollArea` and `Button`
  components. They are presentation only.
- `scrollIntoView` (lines 84-91): a DOM side effect keyed on the selection. It does not
  change the store.
- `Math.random()` positions (line 51). A new node's position is a parameter of `AddNode`.
  The model places no bound on it; the source draws each coordinate from [0, 400).
- `onNodesChange` and `onEdgesChange` (lines 162-167) are left out. They apply the drawing
  library's change lists (`applyNodeChanges`, `applyEdgeChanges`), whose behaviour is not
  visible here.
- Connect: `addEdge` (line 77) belongs to the drawing library. Its duplicate and validity
  checks and the edge ids it generates are not modelled. A connection is a plain append of
  (source, target).
- The edge invariant assumes that the canvas only lets the user connect rendered nodes. That
  assumption is stated as `Admissible`.
- React batching and the closure over `nodeId` in `addNode` (lines 48, 54). Handlers are
  modelled as strictly sequential, each seeing the previous handler's state.
- The counter is an unbounded natural. In the source it is a JavaScript number. Past 2^53
  it would stop counting exactly, and from 10^21 `toString` switches to exponent notation.
- Node categories other than "default", the Delete key, edge clicks, and sorting or grouping
  the sidebar by category all belong to another version of this screen. That version is not
  part of this model.
- `removeNode` does not close an open label edit. The model keeps this behaviour as
  written. It is harmless because a deleted id never returns (`DeletedIdNeverReturns`), so
  the stale edit never matches a later node.
