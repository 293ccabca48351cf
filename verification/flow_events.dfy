/** The screen's event handlers, each routed to a store transition, and runs of events from
    the initial editor. Handlers run one at a time, to completion. */
module FlowEvents {
  import opened Wrappers
  import opened Decimal
  import opened FlowStore

  datatype Event =
    | AddClicked(position: Position)          // the sidebar's "add" button
    | DeleteClicked(id: string)               // a sidebar entry's delete button
    | LabelCommitted(id: string, text: string) // Enter or blur in a sidebar entry's input
    | EditClicked(id: string)                 // a sidebar entry's edit button
    | CanvasNodeClicked(node: Node)           // a click on a node drawn on the canvas
    | ListItemClicked(id: string)             // a click on a sidebar entry
    | Connected(edge: Edge)                   // a connection drawn on the canvas

  /** The state after handling one event. Only "add" moves the counter, and it moves it
      by one. */
  function Dispatch(s: Editor, ev: Event): (r: Editor)
    ensures r.nextId == if ev.AddClicked? then s.nextId + 1 else s.nextId
    ensures ev.DeleteClicked? ==> ev.id !in Ids(r.nodes) && r.selected == None
    ensures ev.LabelCommitted? ==> r.editing == None
    ensures ev.EditClicked? ==> r.editing == Some(ev.id)
    ensures ev.CanvasNodeClicked? ==> r.selected == Some(ev.node.id)
    ensures ev.ListItemClicked? ==> r.selected == Some(ev.id)
  {
    match ev
    case AddClicked(pos) => AddNode(s, pos)
    case DeleteClicked(id) => RemoveNode(s, id)
    case LabelCommitted(id, text) => UpdateNodeLabel(s, id, text)
    case EditClicked(id) => StartEditing(s, id)
    case CanvasNodeClicked(node) => Select(s, node.id)
    case ListItemClicked(id) => Select(s, id)
    case Connected(e) => Connect(s, e)
  }

  /** The number of "add" clicks among `evs`. */
  function Adds(evs: seq<Event>): nat
    decreases |evs|
  {
    if |evs| == 0 then 0 else (if evs[0].AddClicked? then 1 else 0) + Adds(evs[1..])
  }

  /** The state after handling `evs` in order. */
  function Run(s: Editor, evs: seq<Event>): (r: Editor)
    ensures r.nextId == s.nextId + Adds(evs)
    decreases |evs|
  {
    if |evs| == 0 then s else Run(Dispatch(s, evs[0]), evs[1..])
  }

  /** Clicking a node on the canvas and clicking its sidebar entry select the same thing. */
  lemma CanvasAndListSelectAgree(s: Editor, n: Node)
    ensures Dispatch(s, CanvasNodeClicked(n)) == Dispatch(s, ListItemClicked(n.id))
    ensures Dispatch(s, CanvasNodeClicked(n)).nodes == s.nodes
  {
  }

  lemma DispatchKeepsIdsFresh(s: Editor, ev: Event)
    requires IdsFresh(s)
    ensures IdsFresh(Dispatch(s, ev))
  {
    match ev
    case AddClicked(pos) => AddNodeIsFresh(s, pos);
    case DeleteClicked(id) => RemoveNodeKeepsIdsFresh(s, id);
    case LabelCommitted(id, text) => UpdateNodeLabelKeepsIds(s, id, text);
    case _ =>
  }

  /** Any run keeps node ids numbered below the counter and pairwise distinct. */
  lemma {:induction false} RunKeepsIdsFresh(s: Editor, evs: seq<Event>)
    requires IdsFresh(s)
    ensures IdsFresh(Run(s, evs))
    decreases |evs|
  {
    if |evs| > 0 {
      DispatchKeepsIdsFresh(s, evs[0]);
      RunKeepsIdsFresh(Dispatch(s, evs[0]), evs[1..]);
    }
  }

  /** Every editor reachable from the initial one has fresh, distinct node ids, and its
      next "add" creates an id not already present. */
  lemma ReachableIdsFresh(evs: seq<Event>)
    ensures IdsFresh(Run(Init(), evs))
    ensures var s := Run(Init(), evs); Show(s.nextId) !in Ids(s.nodes)
  {
    RunKeepsIdsFresh(Init(), evs);
    AddNodeIsFresh(Run(Init(), evs), Position(0.0, 0.0));
  }

  /** A connection the canvas can offer: both ends are nodes on it. */
  predicate Offered(s: Editor, ev: Event) {
    ev.Connected? ==> ev.edge.source in Ids(s.nodes) && ev.edge.target in Ids(s.nodes)
  }

  /** Every connection in the run joins nodes present when it is drawn. */
  ghost predicate Admissible(s: Editor, evs: seq<Event>)
    decreases |evs|
  {
    |evs| == 0 || (Offered(s, evs[0]) && Admissible(Dispatch(s, evs[0]), evs[1..]))
  }

  lemma DispatchKeepsEdgesClosed(s: Editor, ev: Event)
    requires EdgesClosed(s) && Offered(s, ev)
    ensures EdgesClosed(Dispatch(s, ev))
  {
  }

  /** No admissible run leaves an edge dangling. */
  lemma {:induction false} RunKeepsEdgesClosed(s: Editor, evs: seq<Event>)
    requires EdgesClosed(s) && Admissible(s, evs)
    ensures EdgesClosed(Run(s, evs))
    decreases |evs|
  {
    if |evs| > 0 {
      DispatchKeepsEdgesClosed(s, evs[0]);
      RunKeepsEdgesClosed(Dispatch(s, evs[0]), evs[1..]);
    }
  }

  /** An id whose node was deleted never comes back: later "add" clicks number past it.
      So an edit left open on a deleted node can never attach to a later node. */
  lemma {:induction false} RetiredIdStaysRetired(s: Editor, id: string, evs: seq<Event>)
    requires NumberedBelow(id, s.nextId) && id !in Ids(s.nodes)
    ensures id !in Ids(Run(s, evs).nodes)
    decreases |evs|
  {
    if |evs| > 0 {
      var t := Dispatch(s, evs[0]);
      assert id !in Ids(t.nodes) by {
        match evs[0]
        case AddClicked(pos) =>
          NumberedBelowIsNotNext(id, s.nextId);
          assert t.nodes == s.nodes + [t.nodes[|s.nodes|]];
        case LabelCommitted(x, text) => UpdateNodeLabelKeepsIds(s, x, text);
        case _ =>
      }
      assert NumberedBelow(id, t.nextId) by {
        var k: nat :| 1 <= k < s.nextId && id == Show(k);
        assert 1 <= k < t.nextId;
      }
      RetiredIdStaysRetired(t, id, evs[1..]);
    }
  }

  /** Deleting a present node of a well-numbered editor retires its id for good. */
  lemma DeletedIdNeverReturns(s: Editor, id: string, evs: seq<Event>)
    requires IdsFresh(s) && id in Ids(s.nodes)
    ensures id !in Ids(Run(Dispatch(s, DeleteClicked(id)), evs).nodes)
  {
    var n :| n in s.nodes && n.id == id;
    var i :| 0 <= i < |s.nodes| && s.nodes[i] == n;
    RetiredIdStaysRetired(Dispatch(s, DeleteClicked(id)), id, evs);
  }
}
