/**
 * The editor canvas (DialogueGraphView.cs): the nodes and edges on it, node
 * creation, the id validator its nodes consult, which ports a drag may
 * connect to, and copy / paste of the selection.
 */
module DialogueGraphViews {
  import opened Wrappers
  import opened Text
  import opened DialogueContainers
  import opened DialogueNodes

  /** An edge drawn from an output port to an input port (Port.ConnectTo). */
  datatype Edge = Edge(output: Port, input: Port)

  /** Offset of a pasted clone from its original. */
  const PasteOffset := Vec(50, 50)

  /** The ids of the nodes, in node order. */
  function Ids(ns: seq<DialogueNode>): (r: seq<string>)
    reads ns
    ensures |r| == |ns|
    ensures forall i :: 0 <= i < |ns| ==> r[i] == ns[i].id
  {
    if ns == [] then [] else Ids(ns[..|ns| - 1]) + [ns[|ns| - 1].id]
  }

  /** Every port under an element, in tree (pre-)order. */
  function Preorder(e: Element): seq<Port>
    decreases e, 1
  {
    match e
    case PortElement(p) => [p]
    case Field => []
    case Panel(ch) => PreorderBelow(e, |ch|)
  }

  function PreorderBelow(e: Element, k: nat): seq<Port>
    requires e.Panel? && k <= |e.children|
    decreases e, 0, k
  {
    if k == 0 then [] else PreorderBelow(e, k - 1) + Preorder(e.children[k - 1])
  }

  /** The ports on the canvas: per node, its input container's then its output container's. */
  function GraphPorts(ns: seq<DialogueNode>): seq<Port>
    reads ns
  {
    if ns == [] then []
    else
      var n := ns[|ns| - 1];
      GraphPorts(ns[..|ns| - 1]) + Preorder(n.inputContainer) + Preorder(n.outputContainer)
  }

  /** A port may be offered to startPort unless it sits on the same node (which includes startPort itself). */
  function CompatiblePorts(ports: seq<Port>, startPort: Port): (r: seq<Port>)
  {
    if ports == [] then []
    else
      var p := ports[|ports| - 1];
      CompatiblePorts(ports[..|ports| - 1], startPort) + (if p == startPort || p.node == startPort.node then [] else [p])
  }

  lemma {:induction false} CompatiblePortsMembers(ports: seq<Port>, startPort: Port)
    ensures forall p :: p in CompatiblePorts(ports, startPort) <==> p in ports && p.node != startPort.node
  {
    if ports != [] {
      var init := ports[..|ports| - 1];
      CompatiblePortsMembers(init, startPort);
      assert ports == init + [ports[|ports| - 1]];
    }
  }

  /** The copied edges: those whose two ends both lie on copied nodes, in edge order. */
  function EdgesWithin(es: seq<Edge>, ns: seq<DialogueNode>): (r: seq<Edge>)
  {
    if es == [] then []
    else
      var e := es[|es| - 1];
      EdgesWithin(es[..|es| - 1], ns) + (if e.output.node in ns && e.input.node in ns then [e] else [])
  }

  lemma {:induction false} EdgesWithinMembers(es: seq<Edge>, ns: seq<DialogueNode>)
    ensures forall e :: e in EdgesWithin(es, ns) <==> e in es && e.output.node in ns && e.input.node in ns
  {
    if es != [] {
      var init := es[..|es| - 1];
      EdgesWithinMembers(init, ns);
      assert es == init + [es[|es| - 1]];
    }
  }

  /**
   * The edge a paste re-creates for a copied edge e, under the map from
   * originals to clones: the clone's output port at the position e.output
   * had among the original's direct output-container ports, to the clone
   * of the input node's first input port.
   */
  function PasteEdge(e: Edge, cloneMap: map<DialogueNode, DialogueNode>): Option<Edge>
    reads e.output.node, e.input.node, cloneMap.Values
  {
    var oldOutNode := e.output.node;
    var oldInNode := e.input.node;
    if oldOutNode in cloneMap && oldInNode in cloneMap then
      var newOutNode := cloneMap[oldOutNode];
      var newInNode := cloneMap[oldInNode];
      var oldOutPortIndex := IndexOf(DirectPorts(ChildrenOf(oldOutNode.outputContainer)), e.output);
      var newOutPort := ElementAtOrDefault(DirectPorts(ChildrenOf(newOutNode.outputContainer)), oldOutPortIndex);
      var newInPort := FirstOrDefault(DirectPorts(ChildrenOf(newInNode.inputContainer)));
      if newOutPort.Some? && newInPort.Some? then Some(Edge(newOutPort.value, newInPort.value)) else None
    else None
  }

  /** The nodes at either end of some edge. */
  function EndNodes(es: seq<Edge>): (r: set<DialogueNode>)
    ensures forall e :: e in es ==> e.output.node in r && e.input.node in r
  {
    if es == [] then {} else EndNodes(es[..|es| - 1]) + {es[|es| - 1].output.node, es[|es| - 1].input.node}
  }

  function PastedEdges(es: seq<Edge>, cloneMap: map<DialogueNode, DialogueNode>): seq<Edge>
    reads EndNodes(es), cloneMap.Values
  {
    if es == [] then []
    else
      var e := es[|es| - 1];
      var r := PasteEdge(e, cloneMap);
      PastedEdges(es[..|es| - 1], cloneMap) + (if r.Some? then [r.value] else [])
  }

  lemma PastedEdgesStep(es: seq<Edge>, j: nat, cloneMap: map<DialogueNode, DialogueNode>)
    requires j < |es|
    ensures PastedEdges(es[..j + 1], cloneMap)
      == PastedEdges(es[..j], cloneMap) + (var r := PasteEdge(es[j], cloneMap); if r.Some? then [r.value] else [])
  {
    assert es[..j + 1][..j] == es[..j];
  }

  /**
   * PastedEdges depends only on the nodes at the edges' ends and on the
   * clones. The edges and the clone map travel as one pair.
   * (Like every two-state lemma of this model it takes one parameter, a
   * tuple or record: with --warn-contradictory-assumptions, Dafny 4.11 fails
   * on a call to a two-state lemma with two or more parameters.)
   */
  twostate lemma {:induction false} PastedEdgesFrame(paste: (seq<Edge>, map<DialogueNode, DialogueNode>))
    requires forall e :: e in paste.0 ==> unchanged(e.output.node) && unchanged(e.input.node)
    requires forall o :: o in paste.1 ==> unchanged(paste.1[o])
    ensures PastedEdges(paste.0, paste.1) == old(PastedEdges(paste.0, paste.1))
    decreases |paste.0|
  {
    var (es, cloneMap) := paste;
    if es != [] {
      PastedEdgesFrame((es[..|es| - 1], cloneMap));
    }
  }

  /** Each node of clones is a valid clone of the original at the same position, with an id not in takenIds. */
  ghost predicate ClonesOf(originals: seq<DialogueNode>, clones: seq<DialogueNode>, takenIds: seq<string>)
    reads originals, clones
    decreases |clones|
  {
    && |clones| == |originals|
    && (|clones| > 0 ==>
      && ClonesOf(originals[..|originals| - 1], clones[..|clones| - 1], takenIds)
      && ClonedFrom(originals[|originals| - 1], clones[|clones| - 1])
      && clones[|clones| - 1].id !in takenIds)
  }

  lemma ClonesOfAppend(originals: seq<DialogueNode>, clones: seq<DialogueNode>, takenIds: seq<string>,
                       original: DialogueNode, clone: DialogueNode)
    requires ClonesOf(originals, clones, takenIds)
    requires ClonedFrom(original, clone) && clone.id !in takenIds
    ensures ClonesOf(originals + [original], clones + [clone], takenIds)
  {
    assert (originals + [original])[..|originals|] == originals;
    assert (clones + [clone])[..|clones|] == clones;
  }

  /**
   * The paste's clone map, filled in copy order: each original maps to its
   * clone, and an original copied twice maps to its last clone.
   */
  function CloneMap(originals: seq<DialogueNode>, clones: seq<DialogueNode>): map<DialogueNode, DialogueNode>
    requires |clones| == |originals|
    decreases |originals|
  {
    if originals == [] then map[]
    else CloneMap(originals[..|originals| - 1], clones[..|clones| - 1])[originals[|originals| - 1] := clones[|clones| - 1]]
  }

  lemma CloneMapStep(originals: seq<DialogueNode>, i: nat, clones: seq<DialogueNode>, clone: DialogueNode)
    requires i < |originals| && |clones| == i
    ensures CloneMap(originals[..i + 1], clones + [clone]) == CloneMap(originals[..i], clones)[originals[i] := clone]
  {
    var o, c := originals[..i + 1], clones + [clone];
    assert o[..|o| - 1] == originals[..i];
    assert c[..|c| - 1] == clones;
    assert o[|o| - 1] == originals[i] && c[|c| - 1] == clone;
  }

  /** The clone map is keyed by exactly the originals, and maps each to a clone of it. */
  lemma {:induction false} CloneMapClones(originals: seq<DialogueNode>, clones: seq<DialogueNode>, takenIds: seq<string>)
    requires ClonesOf(originals, clones, takenIds)
    ensures forall o :: o in CloneMap(originals, clones) <==> o in originals
    ensures forall o :: o in CloneMap(originals, clones) ==>
      CloneMap(originals, clones)[o] in clones && ClonedFrom(o, CloneMap(originals, clones)[o])
    decreases |originals|
  {
    if originals != [] {
      var n := |originals| - 1;
      CloneMapClones(originals[..n], clones[..n], takenIds);
      assert originals == originals[..n] + [originals[n]];
      assert clones == clones[..n] + [clones[n]];
    }
  }

  /**
   * ClonesOf depends only on the originals and the clones.
   * (Like every two-state lemma of this model it takes one parameter, a
   * tuple or record: with --warn-contradictory-assumptions, Dafny 4.11 fails
   * on a call to a two-state lemma with two or more parameters.)
   */
  twostate lemma {:induction false} ClonesOfFrame(paste: PasteRecord)
    requires old(ClonesOf(paste.originals, paste.clones, paste.taken))
    requires forall k :: 0 <= k < |paste.originals| ==> unchanged(paste.originals[k])
    requires forall k :: 0 <= k < |paste.clones| ==> unchanged(paste.clones[k])
    ensures ClonesOf(paste.originals, paste.clones, paste.taken)
    decreases |paste.clones|
  {
    var cs := paste.clones;
    if |cs| > 0 {
      ClonesOfFrame(paste.(originals := paste.originals[..|paste.originals| - 1], clones := cs[..|cs| - 1]));
    }
  }

  lemma SliceStep<T>(s: seq<T>, i: nat)
    requires i < |s|
    ensures s[..i] + [s[i]] == s[..i + 1]
  {
  }

  lemma AppendAssoc<T>(a: seq<T>, b: seq<T>, c: seq<T>)
    ensures a + b + c == a + (b + c)
  {
  }

  /** Every node is well formed and has the canvas as its id validator. */
  ghost predicate AllValid(ns: seq<DialogueNode>)
    reads ns
  {
    forall k :: 0 <= k < |ns| ==> ns[k].Valid() && ns[k].hasIdValidator
  }

  lemma AllValidAt(ns: seq<DialogueNode>, k: nat)
    requires AllValid(ns) && k < |ns|
    ensures ns[k].Valid() && ns[k].hasIdValidator
  {
  }

  lemma AllValidAppend(ns: seq<DialogueNode>, n: DialogueNode)
    requires AllValid(ns) && n.Valid() && n.hasIdValidator
    ensures AllValid(ns + [n])
  {
  }

  /** Nodes that changed but are again valid and validated keep the whole list valid. */
  twostate lemma AllValidUpdate(ns: seq<DialogueNode>)
    requires old(AllValid(ns))
    requires forall j :: 0 <= j < |ns| ==> unchanged(ns[j]) || (ns[j].Valid() && ns[j].hasIdValidator)
    ensures AllValid(ns)
  {
  }

  twostate lemma AllValidFrame(ns: seq<DialogueNode>)
    requires old(AllValid(ns))
    requires forall k :: 0 <= k < |ns| ==> unchanged(ns[k])
    ensures AllValid(ns)
  {
  }

  /** Changing anything but the canvas's node list and its nodes keeps the node invariants and ids. */
  twostate lemma CanvasFrame(view: GraphView)
    requires old(view.Valid())
    requires unchanged(view`nodes)
    requires forall k :: 0 <= k < |view.nodes| ==> unchanged(view.nodes[k])
    ensures view.Valid() && Ids(view.nodes) == old(Ids(view.nodes))
  {
    IdsFrame(view.nodes);
    AllValidFrame(view.nodes);
  }

  twostate lemma {:induction false} IdsFrame(ns: seq<DialogueNode>)
    requires forall k :: 0 <= k < |ns| ==> unchanged(ns[k])
    ensures Ids(ns) == old(Ids(ns))
  {
    if ns != [] {
      IdsFrame(ns[..|ns| - 1]);
    }
  }

  /**
   * What a paste in progress started from: the canvas, the copied nodes,
   * their clones so far, the ids in use. It bundles the arguments of the
   * two-state lemma ClonesOfFrame, which may take only one parameter.
   */
  datatype PasteRecord = PasteRecord(nodes0: seq<DialogueNode>, originals: seq<DialogueNode>, clones: seq<DialogueNode>,
                                     taken: seq<string>, wasDistinct: bool)

  /** The fields a paste copies, plus how many choice rows a branch has. */
  datatype NodeContent = NodeContent(isBranch: bool, speaker: string, dialogueText: string, functionName: string,
                                     position: Vec, choices: seq<string>, rows: nat)

  ghost function Content(n: DialogueNode): NodeContent
    reads n
  {
    NodeContent(n.isBranch, n.speaker, n.dialogueText, n.functionName, n.position, n.choices,
                if n.isBranch then |n.outputPorts| else 0)
  }

  /**
   * What a paste gives the clone of original: the same kind, speaker, text
   * and function, the position moved by PasteOffset, for a branch the
   * choice list but no rows, and for a plain node no choices.
   */
  ghost function PastedContent(original: DialogueNode): NodeContent
    reads original
  {
    NodeContent(original.isBranch, original.speaker, original.dialogueText, original.functionName,
                original.position.Plus(PasteOffset), if original.isBranch then original.choices else [], 0)
  }

  ghost predicate ClonedFrom(original: DialogueNode, clone: DialogueNode)
    reads original, clone
  {
    Content(clone) == PastedContent(original)
  }

  /** The edge leaves a plain node from that node's current output port. */
  ghost predicate LeavesPlainPort(e: Edge)
    reads e.output.node
  {
    var n := e.output.node;
    !n.isBranch && |n.outputPorts| == 1 && e.output == n.outputPorts[0]
  }

  /**
   * Which copied edges between two copied nodes a paste re-creates: exactly
   * those leaving a plain node from its current output port, and then from
   * the clone's output port to the other clone's input port.  An edge
   * leaving a branch is never re-created (a branch keeps its ports inside
   * rows, and its clone has no rows).
   */
  lemma PasteEdgeCases(e: Edge, cloneMap: map<DialogueNode, DialogueNode>)
    requires e.output.node in cloneMap && e.input.node in cloneMap
    requires e.output.node.Valid() && cloneMap[e.output.node].Valid() && cloneMap[e.input.node].Valid()
    requires ClonedFrom(e.output.node, cloneMap[e.output.node])
    ensures PasteEdge(e, cloneMap).Some? <==> LeavesPlainPort(e)
    ensures PasteEdge(e, cloneMap).Some? ==>
      PasteEdge(e, cloneMap).value == Edge(cloneMap[e.output.node].outputPorts[0], cloneMap[e.input.node].inputPort)
  {
    var o := e.output.node;
    if o.isBranch {
      PasteEdgeFromBranch(e, cloneMap);
    } else {
      PasteEdgeFromPlain(e, cloneMap);
    }
  }

  lemma PasteEdgeFromBranch(e: Edge, cloneMap: map<DialogueNode, DialogueNode>)
    requires e.output.node in cloneMap && e.input.node in cloneMap
    requires e.output.node.Valid() && e.output.node.isBranch
    ensures PasteEdge(e, cloneMap) == None
  {
    BranchNodePorts(e.output.node);
  }

  lemma PasteEdgeFromPlain(e: Edge, cloneMap: map<DialogueNode, DialogueNode>)
    requires e.output.node in cloneMap && e.input.node in cloneMap
    requires e.output.node.Valid() && !e.output.node.isBranch
    requires cloneMap[e.output.node].Valid() && !cloneMap[e.output.node].isBranch
    requires cloneMap[e.input.node].Valid()
    ensures PasteEdge(e, cloneMap) ==
      if e.output == e.output.node.outputPorts[0]
      then Some(Edge(cloneMap[e.output.node].outputPorts[0], cloneMap[e.input.node].inputPort))
      else None
  {
    var o, i := e.output.node, e.input.node;
    var co, ci := cloneMap[o], cloneMap[i];
    PlainNodePorts(o);
    PlainNodePorts(co);
    SinglePorts(ci.inputPort);
    var idx := IndexOf(DirectPorts(ChildrenOf(o.outputContainer)), e.output);
    assert idx == if e.output == o.outputPorts[0] then 0 else -1;
  }

  /** Ids is determined pointwise. */
  lemma {:induction false} IdsAre(ns: seq<DialogueNode>, ids: seq<string>)
    requires |ids| == |ns| && forall i :: 0 <= i < |ns| ==> ns[i].id == ids[i]
    ensures Ids(ns) == ids
  {
    if ns != [] {
      IdsAre(ns[..|ns| - 1], ids[..|ns| - 1]);
      assert ids == ids[..|ns| - 1] + [ids[|ns| - 1]];
    }
  }

  lemma {:induction false} DistinctAppend(s: seq<string>, x: string)
    requires Distinct(s) && x !in s
    ensures Distinct(s + [x])
  {
  }

  /** The id field's edit keeps the canvas's ids distinct when the graph is the validator. */
  lemma EditKeepsDistinct(ids: seq<string>, k: nat, value: string)
    requires Distinct(ids) && k < |ids|
    ensures Distinct(ids[k := EditedId(ids[k], value, true, ids)])
  {
  }

  /** Without a validator an edit can duplicate another node's id: renaming "a" to "b" next to "b". */
  lemma EditWithoutValidatorCanDuplicate()
    ensures var ids := ["a", "b"]; Distinct(ids) && !Distinct(ids[0 := EditedId(ids[0], "b", false, ids)])
  {
    var ids := ["a", "b"];
    TrimOfTrimmed("b");
    var replaced := ReplaceChar("b", '\n', ' ');
    assert replaced[0] == 'b';
    assert replaced == "b";
    assert EditedId("a", "b", false, ids) == "b";
    var edited := ids[0 := EditedId(ids[0], "b", false, ids)];
    assert edited[0] == edited[1];
  }

  /** `new DialogueNode()` / `new BranchNode()`, then SetIdValidator(this) and SetPosition(pos). */
  method NewPlacedNode(isBranch: bool, guid: string, pos: Vec) returns (node: DialogueNode)
    requires guid != ""
    ensures fresh(node) && fresh(node.inputPort) && fresh(node.outputPorts)
    ensures node.Valid() && node.hasIdValidator && node.isBranch == isBranch && node.id == guid
    ensures node.speaker == "" && node.dialogueText == "" && node.functionName == "" && node.position == pos
    ensures node.choices == [] && node.choiceCounter == 1
    ensures |node.outputPorts| == if isBranch then 0 else 1
  {
    node := new DialogueNode(isBranch, guid);
    node.SetIdValidator();
    node.position := pos;
  }

  /**
   * The node work of cloning one original: CreateBranchNode /
   * CreateDialogueNode (first GUID, validator, position plus the offset),
   * the copied fields, then SetID with the second GUID.  The canvas only
   * lists the clone once this is done (CloneNode); nothing reads the list
   * in between.
   */
  method MakeClone(original: DialogueNode, first: string, second: string, ghost canvas: seq<DialogueNode>)
    returns (clone: DialogueNode)
    requires first != "" && second != ""
    ensures fresh(clone) && clone !in canvas
    ensures ClonedFrom(original, clone) && clone.Valid() && clone.hasIdValidator && clone.id == second
  {
    clone := NewPlacedNode(original.isBranch, first, original.position.Plus(PasteOffset));
    clone.speaker := original.speaker;
    clone.dialogueText := original.dialogueText;
    clone.functionName := original.functionName;
    if original.isBranch {
      clone.choices := original.choices;
    }
    clone.SetID(second);
  }

  class GraphView {
    var nodes: seq<DialogueNode>
    var edges: seq<Edge>
    /** The selected nodes (selected edges play no part in copy / paste). */
    var selection: seq<DialogueNode>
    var copyBuffer: seq<DialogueNode>
    var copiedEdges: seq<Edge>

    /** Every node on the canvas is well formed, appears once, and has the canvas as id validator. */
    ghost predicate Valid()
      reads this`nodes, nodes
    {
      Distinct(nodes) && AllValid(nodes)
    }

    constructor ()
      ensures Valid()
      ensures nodes == [] && edges == [] && selection == [] && copyBuffer == [] && copiedEdges == []
    {
      nodes, edges, selection, copyBuffer, copiedEdges := [], [], [], [], [];
    }

    /** INodeIdValidator.IsIdUsed: some node on the canvas has this id. */
    function IsIdUsed(id: string): (r: bool)
      reads this, nodes
      ensures r <==> exists i :: 0 <= i < |nodes| && nodes[i].id == id
    {
      id in Ids(nodes)
    }

    /** A new plain node with a fresh GUID, the canvas as validator, at pos. */
    method CreateDialogueNode(pos: Vec) returns (node: DialogueNode)
      requires Valid()
      modifies this`nodes
      ensures Valid() && fresh(node) && fresh(node.outputPorts) && fresh(node.inputPort)
      ensures nodes == old(nodes) + [node]
      ensures !node.isBranch && node.id !in old(Ids(nodes))
      ensures node.speaker == "" && node.dialogueText == "" && node.functionName == "" && node.position == pos
      ensures node.choices == [] && node.choiceCounter == 1 && |node.outputPorts| == 1
    {
      node := NewPlacedNode(false, NewGuid(Ids(nodes)), pos);
      AddNode(node);
    }

    /** A new branch node (no rows yet) with a fresh GUID, the canvas as validator, at pos. */
    method CreateBranchNode(pos: Vec) returns (node: DialogueNode)
      requires Valid()
      modifies this`nodes
      ensures Valid() && fresh(node) && fresh(node.inputPort)
      ensures nodes == old(nodes) + [node]
      ensures node.isBranch && node.id !in old(Ids(nodes))
      ensures node.speaker == "" && node.dialogueText == "" && node.functionName == "" && node.position == pos
      ensures node.choices == [] && node.choiceCounter == 1 && node.outputPorts == []
    {
      node := NewPlacedNode(true, NewGuid(Ids(nodes)), pos);
      AddNode(node);
    }

    /** AddElement(node), for a node not yet on the canvas. */
    method AddNode(node: DialogueNode)
      requires Valid() && node.Valid() && node.hasIdValidator && node !in nodes
      modifies this`nodes
      ensures Valid() && nodes == old(nodes) + [node]
      ensures Ids(nodes) == old(Ids(nodes)) + [node.id]
    {
      AllValidAppend(nodes, node);
      nodes := nodes + [node];
      assert Ids(nodes) == old(Ids(nodes)) + [node.id];
    }

    /** AddToSelection(node): the selection grows by node; the canvas is untouched. */
    method Select(node: DialogueNode)
      requires Valid()
      modifies this`selection
      ensures selection == old(selection) + [node]
      ensures Valid() && Ids(nodes) == old(Ids(nodes))
    {
      label Before:
      selection := selection + [node];
      CanvasFrame@Before(this);
    }

    /** AddElement(edge). */
    method AddEdge(e: Edge)
      modifies this`edges
      ensures edges == old(edges) + [e]
    {
      edges := edges + [e];
    }

    /** RemoveElement on every graph element: no node and no edge remains. */
    method RemoveAllElements()
      modifies this`nodes, this`edges
      ensures Valid() && nodes == [] && edges == []
    {
      nodes := [];
      edges := [];
    }

    /** Typing into node k's id field, with this canvas as its validator. */
    method EditNodeId(k: nat, value: string)
      requires Valid() && k < |nodes|
      modifies nodes[k]
      ensures Valid()
      ensures Ids(nodes) == old(Ids(nodes))[k := EditedId(old(nodes[k].id), value, true, old(Ids(nodes)))]
      ensures old(Distinct(Ids(nodes))) ==> Distinct(Ids(nodes))
    {
      var ids := Ids(nodes);
      AllValidAt(nodes, k);
      nodes[k].OnIdFieldChanged(value, ids);
      IdsAre(nodes, ids[k := nodes[k].id]);
      AllValidUpdate(nodes);
      if Distinct(ids) {
        EditKeepsDistinct(ids, k, value);
      }
    }

    /** GetCompatiblePorts: every canvas port not on startPort's node, in canvas order. */
    method GetCompatiblePorts(startPort: Port) returns (portsList: seq<Port>)
      ensures portsList == CompatiblePorts(GraphPorts(nodes), startPort)
      ensures forall p :: p in portsList <==> p in GraphPorts(nodes) && p.node != startPort.node
    {
      var ports := GraphPorts(nodes);
      portsList := [];
      for i := 0 to |ports|
        invariant portsList == CompatiblePorts(ports[..i], startPort)
      {
        assert ports[..i + 1][..i] == ports[..i];
        var p := ports[i];
        if p == startPort { continue; }
        if p.node == startPort.node { continue; }
        portsList := portsList + [p];
      }
      assert ports[..|ports|] == ports;
      CompatiblePortsMembers(ports, startPort);
    }

    /** Ctrl+C: the selected nodes and the edges among them. */
    method CopySelection()
      modifies this`copyBuffer, this`copiedEdges
      ensures copyBuffer == selection
      ensures copiedEdges == if selection == [] then [] else EdgesWithin(edges, selection)
      ensures forall e :: e in copiedEdges <==> selection != [] && e in edges && e.output.node in selection && e.input.node in selection
    {
      copyBuffer := [];
      copiedEdges := [];
      copyBuffer := selection;
      if |copyBuffer| == 0 {
        return;
      }
      copiedEdges := EdgesWithin(edges, copyBuffer);
      EdgesWithinMembers(edges, copyBuffer);
    }

    /**
     * One clone of a copied node: created through CreateBranchNode or
     * CreateDialogueNode at the original's position plus (50, 50), given the
     * original's speaker, text and function (and, for a branch, a copy of
     * its choice list, without rebuilding rows), then a second fresh GUID.
     */
    method CloneNode(original: DialogueNode) returns (clone: DialogueNode)
      requires Valid()
      modifies this`nodes, this`selection
      ensures Valid() && fresh(clone)
      ensures nodes == old(nodes) + [clone] && selection == old(selection) + [clone]
      ensures ClonedFrom(original, clone) && clone.Valid()
      ensures Ids(nodes) == old(Ids(nodes)) + [clone.id] && clone.id !in old(Ids(nodes))
    {
      var ids := Ids(nodes);
      var first := NewGuid(ids);
      var second := NewGuid(ids + [first]);
      clone := MakeClone(original, first, second, nodes);
      AddNode(clone);
      Select(clone);
    }

    /**
     * What holds part-way through the first half of a paste: the canvas is
     * well formed, the clones made so far follow the original nodes and make
     * up the selection, each is a clone of the matching original with an id
     * that was not on the canvas, and the ids stay distinct if they were.
     */
    ghost predicate Pasting(nodes0: seq<DialogueNode>, originals: seq<DialogueNode>, cs: seq<DialogueNode>,
                            taken: seq<string>, newIds: seq<string>, wasDistinct: bool)
      reads this`nodes, this`selection, nodes, originals, cs
    {
      && Valid() && nodes == nodes0 + cs && selection == cs
      && ClonesOf(originals, cs, taken)
      && Ids(nodes) == taken + newIds
      && (wasDistinct ==> Distinct(Ids(nodes)))
    }

    /**
     * One step of the first half of a paste: clone the next copied node and
     * select it.
     */
    method CloneStep(buffer: seq<DialogueNode>, i: nat, ghost nodes0: seq<DialogueNode>,
                     ghost cs: seq<DialogueNode>, ghost taken: seq<string>, ghost wasDistinct: bool)
      returns (clone: DialogueNode)
      requires i < |buffer| && Pasting(nodes0, buffer[..i], cs, taken, Ids(cs), wasDistinct)
      modifies this`nodes, this`selection
      ensures Pasting(nodes0, buffer[..i + 1], cs + [clone], taken, Ids(cs + [clone]), wasDistinct)
    {
      var original := buffer[i];
      ghost var originals := buffer[..i];
      SliceStep(buffer, i);
      label Before:
      clone := CloneNode(original);
      ClonesOfFrame@Before(PasteRecord(nodes0, originals, cs, taken, wasDistinct));
      IdsFrame@Before(cs);
      PastingGrows(nodes0, originals, cs, taken, wasDistinct, original, clone);
    }

    /** A clone that follows the canvas and the selection extends what holds part-way through a paste. */
    lemma PastingGrows(nodes0: seq<DialogueNode>, originals: seq<DialogueNode>, cs: seq<DialogueNode>,
                       taken: seq<string>, wasDistinct: bool, original: DialogueNode, clone: DialogueNode)
      requires Valid() && nodes == (nodes0 + cs) + [clone] && selection == cs + [clone]
      requires ClonesOf(originals, cs, taken) && ClonedFrom(original, clone)
      requires Ids(nodes) == (taken + Ids(cs)) + [clone.id] && clone.id !in taken + Ids(cs)
      requires wasDistinct ==> Distinct(taken + Ids(cs))
      ensures Pasting(nodes0, originals + [original], cs + [clone], taken, Ids(cs + [clone]), wasDistinct)
    {
      AppendAssoc(nodes0, cs, [clone]);
      AppendAssoc(taken, Ids(cs), [clone.id]);
      ClonesOfAppend(originals, cs, taken, original, clone);
      if wasDistinct {
        DistinctAppend(taken + Ids(cs), clone.id);
      }
    }

    /**
     * The first half of a paste: one clone per copied node, in order, each
     * added to the (cleared) selection and recorded in the clone map.
     */
    method CloneCopiedNodes(buffer: seq<DialogueNode>) returns (clones: map<DialogueNode, DialogueNode>, ghost cs: seq<DialogueNode>)
      requires Valid()
      modifies this`nodes, this`selection
      ensures Pasting(old(nodes), buffer, cs, old(Ids(nodes)), Ids(cs), old(Distinct(Ids(nodes))))
      ensures |cs| == |buffer| && clones == CloneMap(buffer, cs)
    {
      ghost var nodes0 := nodes;
      ghost var ids0 := Ids(nodes);
      ghost var wasDistinct := Distinct(ids0);
      clones := map[];
      label Start:
      selection := [];
      CanvasFrame@Start(this);
      cs := [];
      assert nodes0 + cs == nodes0 && ids0 + Ids(cs) == ids0;
      for i := 0 to |buffer|
        invariant |cs| == i
        invariant Pasting(nodes0, buffer[..i], cs, ids0, Ids(cs), wasDistinct)
        invariant clones == CloneMap(buffer[..i], cs)
      {
        var clone := CloneStep(buffer, i, nodes0, cs, ids0, wasDistinct);
        CloneMapStep(buffer, i, cs, clone);
        clones := clones[buffer[i] := clone];
        cs := cs + [clone];
      }
      assert buffer[..|buffer|] == buffer;
    }

    /** One copied edge: re-created between the clones when PasteEdge maps it, skipped otherwise. */
    method ReconnectEdge(edge: Edge, clones: map<DialogueNode, DialogueNode>)
      modifies this`edges
      ensures edges == old(edges) + (var r := PasteEdge(edge, clones); if r.Some? then [r.value] else [])
    {
      var oldOutNode := edge.output.node;
      var oldInNode := edge.input.node;
      if oldOutNode in clones && oldInNode in clones {
        var newOutNode := clones[oldOutNode];
        var newInNode := clones[oldInNode];
        var oldOutPorts := DirectPorts(ChildrenOf(oldOutNode.outputContainer));
        var oldOutPortIndex := IndexOf(oldOutPorts, edge.output);
        var newOutPorts := DirectPorts(ChildrenOf(newOutNode.outputContainer));
        var newOutPort := ElementAtOrDefault(newOutPorts, oldOutPortIndex);
        var newInPorts := DirectPorts(ChildrenOf(newInNode.inputContainer));
        var newInPort := FirstOrDefault(newInPorts);
        if newOutPort.Some? && newInPort.Some? {
          AddEdge(Edge(newOutPort.value, newInPort.value));
        }
      }
    }

    /** The second half of a paste: the copied edges that PasteEdge maps, added in order. */
    method ReconnectCopiedEdges(clones: map<DialogueNode, DialogueNode>)
      modifies this`edges
      ensures edges == old(edges) + PastedEdges(copiedEdges, clones)
      ensures forall k :: 0 <= k < |nodes| ==> unchanged(nodes[k])
      ensures forall k :: 0 <= k < |selection| ==> unchanged(selection[k])
      ensures forall k :: 0 <= k < |copyBuffer| ==> unchanged(copyBuffer[k])
    {
      var es := copiedEdges;
      for j := 0 to |es|
        invariant edges == old(edges) + PastedEdges(es[..j], clones)
      {
        ghost var step := var r := PasteEdge(es[j], clones); if r.Some? then [r.value] else [];
        PastedEdgesStep(es, j, clones);
        AppendAssoc(old(edges), PastedEdges(es[..j], clones), step);
        label Before:
        ReconnectEdge(es[j], clones);
        PastedEdgesFrame@Before((es[..j + 1], clones));
      }
      assert es[..|es|] == es;
    }

    /** Re-creating the copied edges keeps every fact about the pasted nodes. */
    method ReconnectPasted(clones: map<DialogueNode, DialogueNode>, ghost paste: PasteRecord)
      requires paste.originals == copyBuffer
      requires Pasting(paste.nodes0, paste.originals, paste.clones, paste.taken, Ids(paste.clones), paste.wasDistinct)
      modifies this`edges
      ensures Pasting(paste.nodes0, paste.originals, paste.clones, paste.taken, Ids(paste.clones), paste.wasDistinct)
      ensures edges == old(edges) + PastedEdges(copiedEdges, clones)
    {
      label Cloned:
      ReconnectCopiedEdges(clones);
      CanvasFrame@Cloned(this);
      IdsFrame@Cloned(paste.clones);
      ClonesOfFrame@Cloned(paste);
    }

    /**
     * Ctrl+V: nothing when nothing was copied; otherwise the selection is
     * cleared, the copied nodes are cloned into it, and the copied edges
     * are re-created between the clones where PasteEdge maps them.
     */
    method PasteSelection() returns (ghost cloneMap: map<DialogueNode, DialogueNode>)
      requires Valid()
      modifies this`nodes, this`selection, this`edges
      ensures Valid()
      ensures old(copyBuffer) == [] ==>
        nodes == old(nodes) && edges == old(edges) && selection == old(selection) && cloneMap == map[]
      ensures old(copyBuffer) != [] ==>
        && Pasting(old(nodes), copyBuffer, selection, old(Ids(nodes)), Ids(selection), old(Distinct(Ids(nodes))))
        && cloneMap == CloneMap(copyBuffer, selection)
        && edges == old(edges) + PastedEdges(copiedEdges, cloneMap)
    {
      cloneMap := map[];
      if |copyBuffer| == 0 {
        return;
      }
      ghost var nodes0 := nodes;
      ghost var ids0 := Ids(nodes);
      ghost var wasDistinct := Distinct(ids0);
      var clones, cs := CloneCopiedNodes(copyBuffer);
      ReconnectPasted(clones, PasteRecord(nodes0, copyBuffer, cs, ids0, wasDistinct));
      cloneMap := clones;
    }
  }
}
