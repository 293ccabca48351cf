/** The node/edge store of the flow editor screen: the nodes drawn on the canvas and listed
    in the sidebar, the edges between them, the id counter, and which node is selected or
    having its label edited. Every transition replaces whole collections, as the screen's
    state setters do. */
module FlowStore {
  import opened Wrappers
  import opened Decimal
  import opened Seqs

  /** A canvas position. The screen draws new positions at random; here they are inputs. */
  datatype Position = Position(x: real, y: real)

  /** A graph node. `kind` is the node's rendering type ("default" for every node here);
      `caption` is the text shown for it (the node's `data.label`). */
  datatype Node = Node(id: string, kind: string, caption: string, position: Position)

  /** A directed edge between two node ids. */
  datatype Edge = Edge(source: string, target: string)

  /** The editor's whole state. `nextId` is the counter the next added node is numbered
      from; `selected` is the highlighted node; `editing` is the node whose label is open
      for editing. */
  datatype Editor = Editor(
    nodes: seq<Node>,
    edges: seq<Edge>,
    nextId: nat,
    selected: Option<string>,
    editing: Option<string>)

  const DefaultKind: string := "default"
  const InitialLabel: string := "Node Inicial"

  /** The editor as first shown: one node "1" at (250, 5), no edges, counter 2, nothing
      selected or being edited. It already meets both store invariants. */
  function Init(): (r: Editor)
    ensures IdsFresh(r) && EdgesClosed(r)
  {
    assert Show(1) == "1";
    Editor([Node("1", DefaultKind, InitialLabel, Position(250.0, 5.0))], [], 2, None, None)
  }

  /** The ids of the nodes in `ns`. */
  function Ids(ns: seq<Node>): set<string> {
    set n | n in ns :: n.id
  }

  predicate Touches(e: Edge, id: string) {
    e.source == id || e.target == id
  }

  /** The "add node" button: append a node numbered from the counter, then bump the counter. */
  function AddNode(s: Editor, pos: Position): (r: Editor)
    ensures |r.nodes| == |s.nodes| + 1 && r.nodes[..|s.nodes|] == s.nodes
    ensures var n := r.nodes[|s.nodes|];
      && n.id == Show(s.nextId)
      && n.kind == DefaultKind
      && n.caption == "Node " + Show(s.nextId)
      && n.position == pos
    ensures r.nextId == s.nextId + 1
    ensures r.edges == s.edges && r.selected == s.selected && r.editing == s.editing
  {
    var numeral := Show(s.nextId);
    var added := Node(numeral, DefaultKind, "Node " + numeral, pos);
    s.(nodes := s.nodes + [added], nextId := s.nextId + 1)
  }

  /** Removing node `id`: the node and every edge touching it go, and the selection is
      cleared whatever it was. */
  function RemoveNode(s: Editor, id: string): (r: Editor)
    ensures forall n :: n in r.nodes <==> n in s.nodes && n.id != id
    ensures forall e :: e in r.edges <==> e in s.edges && !Touches(e, id)
    ensures forall n :: multiset(r.nodes)[n] == if n.id == id then 0 else multiset(s.nodes)[n]
    ensures forall e :: multiset(r.edges)[e] == if Touches(e, id) then 0 else multiset(s.edges)[e]
    ensures id !in Ids(r.nodes)
    ensures r.selected == None
    ensures r.nextId == s.nextId && r.editing == s.editing
  {
    var keepNode := (n: Node) => n.id != id;
    var keepEdge := (e: Edge) => e.source != id && e.target != id;
    s.(nodes := Filter(keepNode, s.nodes),
       edges := Filter(keepEdge, s.edges),
       selected := None)
  }

  /** Removing an id no node has leaves the nodes alone, and removing an id no edge touches
      leaves the edges alone. */
  lemma RemoveAbsentKeepsCollections(s: Editor, id: string)
    ensures id !in Ids(s.nodes) ==> RemoveNode(s, id).nodes == s.nodes
    ensures (forall e :: e in s.edges ==> !Touches(e, id)) ==> RemoveNode(s, id).edges == s.edges
    ensures EdgesClosed(s) && id !in Ids(s.nodes) ==> RemoveNode(s, id).edges == s.edges
  {
    if id !in Ids(s.nodes) {
      FilterKeepsAll((n: Node) => n.id != id, s.nodes);
    }
    if forall e :: e in s.edges ==> !Touches(e, id) {
      FilterKeepsAll((e: Edge) => e.source != id && e.target != id, s.edges);
    }
  }

  /** Committing a label edit: every node with id `id` gets label `text`; the edit closes. */
  function UpdateNodeLabel(s: Editor, id: string, text: string): (r: Editor)
    ensures |r.nodes| == |s.nodes|
    ensures forall i :: 0 <= i < |s.nodes| && s.nodes[i].id == id ==>
      && r.nodes[i].caption == text
      && r.nodes[i].id == s.nodes[i].id
      && r.nodes[i].kind == s.nodes[i].kind
      && r.nodes[i].position == s.nodes[i].position
    ensures forall i :: 0 <= i < |s.nodes| && s.nodes[i].id != id ==> r.nodes[i] == s.nodes[i]
    ensures r.edges == s.edges && r.selected == s.selected && r.nextId == s.nextId
    ensures r.editing == None
  {
    var relabel := (n: Node) => if n.id == id then n.(caption := text) else n;
    s.(nodes := Map(relabel, s.nodes), editing := None)
  }

  /** Selecting node `id` (a click on the canvas node or on its sidebar entry). */
  function Select(s: Editor, id: string): (r: Editor)
    ensures r.selected == Some(id)
    ensures r.nodes == s.nodes && r.edges == s.edges && r.nextId == s.nextId
    ensures r.editing == s.editing
  {
    s.(selected := Some(id))
  }

  /** The edit button of a sidebar entry: open node `id`'s label for editing. */
  function StartEditing(s: Editor, id: string): (r: Editor)
    ensures r.editing == Some(id)
    ensures r.nodes == s.nodes && r.edges == s.edges && r.nextId == s.nextId
    ensures r.selected == s.selected
  {
    s.(editing := Some(id))
  }

  /** A connection drawn on the canvas, appended as an edge. The drawing library's own
      checks on connections are not modelled. */
  function Connect(s: Editor, e: Edge): (r: Editor)
    ensures |r.edges| == |s.edges| + 1 && r.edges[..|s.edges|] == s.edges
    ensures r.edges[|s.edges|] == e
    ensures r.nodes == s.nodes && r.nextId == s.nextId
    ensures r.selected == s.selected && r.editing == s.editing
  {
    s.(edges := s.edges + [e])
  }

  // ---------------------------------------------------------------------------------------
  // Invariants

  /** `id` is the numeral of some k with 1 <= k < bound. */
  ghost predicate NumberedBelow(id: string, bound: nat) {
    exists k: nat :: 1 <= k < bound && id == Show(k)
  }

  /** Node ids are numerals of numbers already handed out by the counter, and pairwise
      distinct. */
  ghost predicate IdsFresh(s: Editor) {
    && 1 <= s.nextId
    && (forall i :: 0 <= i < |s.nodes| ==> NumberedBelow(s.nodes[i].id, s.nextId))
    && (forall i, j :: 0 <= i < j < |s.nodes| ==> s.nodes[i].id != s.nodes[j].id)
  }

  /** No edge refers to a node that is not there. */
  ghost predicate EdgesClosed(s: Editor) {
    forall e :: e in s.edges ==> e.source in Ids(s.nodes) && e.target in Ids(s.nodes)
  }

  /** A numeral below the counter is never the counter's own numeral. */
  lemma NumberedBelowIsNotNext(id: string, bound: nat)
    requires NumberedBelow(id, bound)
    ensures id != Show(bound)
  {
    var k: nat :| 1 <= k < bound && id == Show(k);
    ShowInjective(k, bound);
  }

  /** The node `AddNode` appends never shares its id with a node already present. */
  lemma AddNodeIsFresh(s: Editor, pos: Position)
    requires IdsFresh(s)
    ensures Show(s.nextId) !in Ids(s.nodes)
    ensures IdsFresh(AddNode(s, pos))
  {
    if Show(s.nextId) in Ids(s.nodes) {
      var n :| n in s.nodes && n.id == Show(s.nextId);
      var i :| 0 <= i < |s.nodes| && s.nodes[i] == n;
      NumberedBelowIsNotNext(n.id, s.nextId);
      assert false;
    }
    var r := AddNode(s, pos);
    forall i | 0 <= i < |r.nodes|
      ensures NumberedBelow(r.nodes[i].id, r.nextId)
    {
      if i < |s.nodes| {
        assert r.nodes[i] == s.nodes[i];
        var k: nat :| 1 <= k < s.nextId && s.nodes[i].id == Show(k);
        assert 1 <= k < r.nextId && r.nodes[i].id == Show(k);
      } else {
        assert 1 <= s.nextId < r.nextId && r.nodes[i].id == Show(s.nextId);
      }
    }
    forall i, j | 0 <= i < j < |r.nodes|
      ensures r.nodes[i].id != r.nodes[j].id
    {
      assert r.nodes[i] == s.nodes[i];
      if j == |s.nodes| {
        assert s.nodes[i] in s.nodes;
      } else {
        assert r.nodes[j] == s.nodes[j];
      }
    }
  }

  /** Removal keeps the surviving nodes and edges in their original relative order. */
  lemma RemoveNodeKeepsOrder(s: Editor, id: string)
    ensures IsSubsequence(RemoveNode(s, id).nodes, s.nodes)
    ensures IsSubsequence(RemoveNode(s, id).edges, s.edges)
  {
    FilterIsSubsequence((n: Node) => n.id != id, s.nodes);
    FilterIsSubsequence((e: Edge) => e.source != id && e.target != id, s.edges);
  }

  /** Removing the same node twice is removing it once. */
  lemma RemoveNodeIdempotent(s: Editor, id: string)
    ensures RemoveNode(RemoveNode(s, id), id) == RemoveNode(s, id)
  {
    RemoveAbsentKeepsCollections(RemoveNode(s, id), id);
  }

  lemma RemoveNodeKeepsIdsFresh(s: Editor, id: string)
    requires IdsFresh(s)
    ensures IdsFresh(RemoveNode(s, id))
  {
    var keep := (n: Node) => n.id != id;
    var r := RemoveNode(s, id);
    var f := KeptPositions(keep, s.nodes);
    FilterEmbeds(keep, s.nodes);
    assert Embeds(r.nodes, s.nodes, f);
    forall i | 0 <= i < |r.nodes|
      ensures NumberedBelow(r.nodes[i].id, r.nextId)
    {
      assert r.nodes[i] == s.nodes[f[i]];
    }
    forall i, j | 0 <= i < j < |r.nodes|
      ensures r.nodes[i].id != r.nodes[j].id
    {
      assert r.nodes[i] == s.nodes[f[i]] && r.nodes[j] == s.nodes[f[j]] && f[i] < f[j];
    }
  }

  lemma RemoveNodeKeepsEdgesClosed(s: Editor, id: string)
    requires EdgesClosed(s)
    ensures EdgesClosed(RemoveNode(s, id))
  {
  }

  /** A label edit never changes which ids are present. */
  lemma UpdateNodeLabelKeepsIds(s: Editor, id: string, text: string)
    ensures Ids(UpdateNodeLabel(s, id, text).nodes) == Ids(s.nodes)
    ensures IdsFresh(s) ==> IdsFresh(UpdateNodeLabel(s, id, text))
    ensures EdgesClosed(s) ==> EdgesClosed(UpdateNodeLabel(s, id, text))
  {
  }

  /** Committing the same label edit twice is committing it once; so an Enter followed by a
      blur of the same input changes nothing further. */
  lemma UpdateNodeLabelIdempotent(s: Editor, id: string, text: string)
    ensures UpdateNodeLabel(UpdateNodeLabel(s, id, text), id, text) == UpdateNodeLabel(s, id, text)
  {
  }

  /** Adding a node only adds the new id and leaves the edges alone, so an edge whose ends
      were present still has them, and closed edges stay closed. */
  lemma AddNodeKeepsEdgesClosed(s: Editor, pos: Position)
    ensures Ids(AddNode(s, pos).nodes) == Ids(s.nodes) + {Show(s.nextId)}
    ensures forall e :: e in AddNode(s, pos).edges && e.source in Ids(s.nodes) && e.target in Ids(s.nodes) ==>
      e.source in Ids(AddNode(s, pos).nodes) && e.target in Ids(AddNode(s, pos).nodes)
    ensures EdgesClosed(s) ==> EdgesClosed(AddNode(s, pos))
  {
    var r := AddNode(s, pos);
    assert r.nodes == s.nodes + [r.nodes[|s.nodes|]];
  }

  /** Adding a node and then removing it gives back the nodes and edges, though the
      counter stays advanced and the selection is cleared. */
  lemma AddThenRemove(s: Editor, pos: Position)
    requires IdsFresh(s) && EdgesClosed(s)
    ensures var r := RemoveNode(AddNode(s, pos), Show(s.nextId));
      && r.nodes == s.nodes
      && r.edges == s.edges
      && r.nextId == s.nextId + 1
      && r.selected == None
      && r.editing == s.editing
  {
    var id := Show(s.nextId);
    var a := AddNode(s, pos);
    var keep := (n: Node) => n.id != id;
    AddNodeIsFresh(s, pos);
    assert a.nodes == s.nodes + [a.nodes[|s.nodes|]];
    FilterConcat(keep, s.nodes, [a.nodes[|s.nodes|]]);
    RemoveAbsentKeepsCollections(s, id);
    assert forall e :: e in s.edges ==> !Touches(e, id);
    RemoveAbsentKeepsCollections(a, id);
  }
}
