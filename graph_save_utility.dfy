/**
 * GraphSaveUtility: writing the canvas into a native container and
 * rebuilding the canvas from one.  The asset database is outside the model:
 * a save returns the container it would write, a load receives the
 * container found at the path, or None when there is none.
 */
module GraphSaveUtilities {
  import opened Wrappers
  import opened DialogueContainers
  import opened DialogueNodes
  import opened DialogueGraphViews

  /** Mathf.Max(0, i). */
  function AtLeastZero(i: int): (r: int)
    ensures r >= 0 && (i >= 0 ==> r == i)
  {
    if i < 0 then 0 else i
  }

  /** Mathf.Clamp(v, 0, Mathf.Max(0, count - 1)). */
  function ClampIndex(v: int, count: nat): (r: int)
    ensures 0 <= r && (count > 0 ==> r < count)
    ensures 0 <= v < count ==> r == v
  {
    var hi := if count == 0 then 0 else count - 1;
    if v < 0 then 0 else if v > hi then hi else v
  }

  // ------------------------------------------------------------ save

  /** The record SaveGraph writes for a node: a plain node's record keeps no labels. */
  function NodeRecord(n: DialogueNode): DialogueNodeData
    reads n
  {
    DialogueNodeData(n.id, n.speaker, n.dialogueText, n.functionName, n.position, n.isBranch,
                     if n.isBranch then n.choices else [])
  }

  function NodeRecords(ns: seq<DialogueNode>): (r: seq<DialogueNodeData>)
    reads ns
    ensures |r| == |ns|
    ensures forall k :: 0 <= k < |ns| ==> r[k] == NodeRecord(ns[k])
  {
    if ns == [] then [] else NodeRecords(ns[..|ns| - 1]) + [NodeRecord(ns[|ns| - 1])]
  }

  /** The record SaveGraph writes for an edge: its two ports' positions in their nodes' port lists, at least 0. */
  function LinkRecord(e: Edge): DialogueLinkData
    reads e.output.node, e.input.node
  {
    var outputNode := e.output.node;
    var inputNode := e.input.node;
    DialogueLinkData(outputNode.id, AtLeastZero(IndexOf(outputNode.OutputPortList(), e.output)),
                     inputNode.id, AtLeastZero(IndexOf(inputNode.InputPortList(), e.input)))
  }

  /** The nodes an edge list touches. */
  function EdgeEnds(es: seq<Edge>): set<DialogueNode>
  {
    (set e | e in es :: e.output.node) + (set e | e in es :: e.input.node)
  }

  function LinkRecords(es: seq<Edge>): (r: seq<DialogueLinkData>)
    reads EdgeEnds(es)
    ensures |r| == |es|
    ensures forall j :: 0 <= j < |es| ==> r[j] == LinkRecord(es[j])
  {
    if es == [] then []
    else
      assert EdgeEnds(es[..|es| - 1]) <= EdgeEnds(es);
      LinkRecords(es[..|es| - 1]) + [LinkRecord(es[|es| - 1])]
  }

  /**
   * An edge leaving choice row r of a branch is saved with source port
   * index |rows| - 1 - r, because the port list comes back last row first.
   */
  lemma SavedBranchRowIndex(n: DialogueNode, r: nat)
    requires n.Valid() && n.isBranch && r < |n.outputPorts|
    ensures IndexOf(n.OutputPortList(), n.outputPorts[r]) == |n.outputPorts| - 1 - r
  {
    BranchNodePorts(n);
    var ps := n.OutputPortList();
    var m := |n.outputPorts|;
    assert ps[m - 1 - r] == n.outputPorts[r];
    forall j | 0 <= j < |ps| && ps[j] == n.outputPorts[r]
      ensures j == m - 1 - r
    {
      assert ps[j] == n.outputPorts[m - 1 - j];
    }
  }

  /** An edge leaving a plain node or entering any node is saved with port index 0. */
  lemma SavedPlainIndex(n: DialogueNode)
    requires n.Valid()
    ensures !n.isBranch ==> IndexOf(n.OutputPortList(), n.outputPorts[0]) == 0
    ensures IndexOf(n.InputPortList(), n.inputPort) == 0
  {
    if n.isBranch {
      BranchNodePorts(n);
    } else {
      PlainNodePorts(n);
    }
  }

  // ------------------------------------------------------------ load

  /**
   * The node a record loads as: its own id unless that is empty (then the
   * fresh GUID), and labels only on a branch.
   */
  function AsLoaded(nd: DialogueNodeData, guid: string): DialogueNodeData
  {
    nd.(id := if nd.id == "" then guid else nd.id, choices := if nd.isBranch then nd.choices else [])
  }

  /** The position of the node with this id (the dictionary lookup), or -1. */
  function NodeWithId(ns: seq<DialogueNode>, id: string): (r: int)
    reads ns
    ensures -1 <= r < |ns|
    ensures r >= 0 ==> ns[r].id == id
    ensures r == -1 ==> forall k :: 0 <= k < |ns| ==> ns[k].id != id
  {
    IndexOf(Ids(ns), id)
  }

  /**
   * The edge ConnectNodes draws for a link: none when either id names no
   * node or either end has no port; otherwise from the source's output port
   * and to the target's input port at the clamped indices.
   */
  function LoadedEdge(ns: seq<DialogueNode>, l: DialogueLinkData): Option<Edge>
    reads ns
  {
    var s := NodeWithId(ns, l.sourceNodeId);
    var t := NodeWithId(ns, l.targetNodeId);
    if s < 0 || t < 0 then None
    else
      var outPorts := ns[s].OutputPortList();
      var inPorts := ns[t].InputPortList();
      if |outPorts| == 0 || |inPorts| == 0 then None
      else Some(Edge(outPorts[ClampIndex(l.sourcePortIndex, |outPorts|)], inPorts[ClampIndex(l.targetPortIndex, |inPorts|)]))
  }

  function LoadedEdges(ns: seq<DialogueNode>, links: seq<DialogueLinkData>): seq<Edge>
    reads ns
  {
    if links == [] then []
    else
      var e := LoadedEdge(ns, links[|links| - 1]);
      LoadedEdges(ns, links[..|links| - 1]) + (if e.Some? then [e.value] else [])
  }

  lemma LoadedEdgesStep(ns: seq<DialogueNode>, links: seq<DialogueLinkData>, j: nat)
    requires j < |links|
    ensures LoadedEdges(ns, links[..j + 1]) ==
      LoadedEdges(ns, links[..j]) + (var e := LoadedEdge(ns, links[j]); if e.Some? then [e.value] else [])
  {
    assert links[..j + 1][..j] == links[..j];
  }

  lemma NodeWithIdUnique(ns: seq<DialogueNode>, k: nat)
    requires Distinct(Ids(ns)) && k < |ns|
    ensures NodeWithId(ns, ns[k].id) == k
  {
    IndexOfDistinct(Ids(ns), k);
  }

  /** In a list without repeats, IndexOf finds each element at its own position. */
  lemma IndexOfDistinct<T>(s: seq<T>, i: nat)
    requires Distinct(s) && i < |s|
    ensures IndexOf(s, s[i]) == i
  {
    assert s[i] in s;
  }

  /** The port list a valid node hands out holds each port once, and only ports of that node. */
  lemma PortListsDistinct(n: DialogueNode)
    requires n.Valid()
    ensures Distinct(n.OutputPortList()) && Distinct(n.InputPortList())
    ensures forall p :: p in n.OutputPortList() ==> p.node == n
    ensures forall p :: p in n.InputPortList() ==> p.node == n
  {
    if n.isBranch {
      BranchNodePorts(n);
      MirroredPorts(n.OutputPortList(), n.outputPorts, n);
    } else {
      PlainNodePorts(n);
    }
  }

  /** A list of ports read backwards from a list without repeats has none either, and the same owner. */
  lemma MirroredPorts(ps: seq<Port>, qs: seq<Port>, n: DialogueNode)
    requires |ps| == |qs| && forall k :: 0 <= k < |qs| ==> ps[k] == qs[|qs| - 1 - k]
    requires Distinct(qs) && forall k :: 0 <= k < |qs| ==> qs[k].node == n
    ensures Distinct(ps) && forall p :: p in ps ==> p.node == n
  {
    var m := |qs|;
    forall i, j | 0 <= i < j < m ensures ps[i] != ps[j] {
      assert ps[i] == qs[m - 1 - i] && ps[j] == qs[m - 1 - j];
    }
    forall p | p in ps ensures p.node == n {
      var i :| 0 <= i < m && ps[i] == p;
      assert ps[i] == qs[m - 1 - i];
    }
  }

  /**
   * Load, then save: a link that loads as an edge is saved again with the
   * same ids, its source index clamped into the source's port list and
   * target index 0 (a node has one input port).
   */
  lemma LoadThenSaveLink(ns: seq<DialogueNode>, l: DialogueLinkData)
    requires AllValid(ns) && Distinct(Ids(ns)) && LoadedEdge(ns, l).Some?
    ensures var s := NodeWithId(ns, l.sourceNodeId);
      LinkRecord(LoadedEdge(ns, l).value) ==
        DialogueLinkData(l.sourceNodeId, ClampIndex(l.sourcePortIndex, |ns[s].OutputPortList()|), l.targetNodeId, 0)
  {
    var s := NodeWithId(ns, l.sourceNodeId);
    var t := NodeWithId(ns, l.targetNodeId);
    AllValidAt(ns, s);
    AllValidAt(ns, t);
    PortListsDistinct(ns[s]);
    PortListsDistinct(ns[t]);
    var outPorts := ns[s].OutputPortList();
    var inPorts := ns[t].InputPortList();
    var i := ClampIndex(l.sourcePortIndex, |outPorts|);
    var j := ClampIndex(l.targetPortIndex, |inPorts|);
    assert outPorts[i] in outPorts && inPorts[j] in inPorts;
    IndexOfDistinct(outPorts, i);
    IndexOfDistinct(inPorts, j);
    if ns[t].isBranch { BranchNodePorts(ns[t]); } else { PlainNodePorts(ns[t]); }
  }

  /**
   * Save, then load into the same canvas: an edge between two canvas nodes,
   * from a port its source lists to a port its target lists, is drawn again
   * between the same two ports.
   */
  lemma SaveThenLoadEdge(ns: seq<DialogueNode>, e: Edge)
    requires AllValid(ns) && Distinct(Ids(ns))
    requires e.output.node in ns && e.input.node in ns
    requires e.output in e.output.node.OutputPortList() && e.input in e.input.node.InputPortList()
    ensures LoadedEdge(ns, LinkRecord(e)) == Some(e)
  {
    var l := LinkRecord(e);
    var s :| 0 <= s < |ns| && ns[s] == e.output.node;
    var t :| 0 <= t < |ns| && ns[t] == e.input.node;
    NodeWithIdUnique(ns, s);
    NodeWithIdUnique(ns, t);
    AllValidAt(ns, s);
    AllValidAt(ns, t);
    var outPorts := ns[s].OutputPortList();
    var inPorts := ns[t].InputPortList();
    var i := IndexOf(outPorts, e.output);
    var j := IndexOf(inPorts, e.input);
    assert l.sourcePortIndex == i && l.targetPortIndex == j;
  }

  /** Node k was loaded from record k, for every k. */
  ghost predicate LoadedFrom(ns: seq<DialogueNode>, records: seq<DialogueNodeData>)
    reads ns
  {
    |ns| == |records| && forall k :: 0 <= k < |ns| ==> NodeRecord(ns[k]) == AsLoaded(records[k], ns[k].id)
  }

  lemma LoadedFromAppend(ns: seq<DialogueNode>, records: seq<DialogueNodeData>, n: DialogueNode, nd: DialogueNodeData)
    requires LoadedFrom(ns, records) && NodeRecord(n) == AsLoaded(nd, n.id)
    ensures LoadedFrom(ns + [n], records + [nd])
  {
  }

  // ------------------------------------------------------------ the utility

  class GraphSaveUtility {
    const targetGraphView: GraphView
    /** The container of the last load. */
    var containerCache: Option<DialogueContainer>

    /** GetInstance. */
    constructor (view: GraphView)
      ensures targetGraphView == view && containerCache == None
    {
      targetGraphView := view;
      containerCache := None;
    }

    /**
     * SaveGraph: nothing for an empty path; otherwise one record per canvas
     * node and one link per edge, in canvas order.
     */
    method SaveGraph(path: string) returns (saved: Option<DialogueContainer>)
      ensures path == "" ==> saved == None
      ensures path != "" ==> saved == Some(DialogueContainer(NodeRecords(targetGraphView.nodes), LinkRecords(targetGraphView.edges)))
    {
      if path == "" {
        return None;
      }
      var view := targetGraphView;
      var records := SaveNodes(view.nodes);
      var links := SaveLinks(view.edges);
      saved := Some(DialogueContainer(records, links));
    }

    /** The node loop of SaveGraph. */
    static method SaveNodes(nodes: seq<DialogueNode>) returns (records: seq<DialogueNodeData>)
      ensures records == NodeRecords(nodes)
    {
      records := [];
      for k := 0 to |nodes|
        invariant records == NodeRecords(nodes[..k])
      {
        var node := nodes[k];
        var nodeData := DialogueNodeData(node.id, node.speaker, node.dialogueText, node.functionName, node.position,
                                         node.isBranch, []);
        if node.isBranch {
          nodeData := nodeData.(choices := node.choices);
        }
        assert nodes[..k + 1][..k] == nodes[..k];
        records := records + [nodeData];
      }
      assert nodes[..|nodes|] == nodes;
    }

    /** The edge loop of SaveGraph. */
    static method SaveLinks(edges: seq<Edge>) returns (links: seq<DialogueLinkData>)
      ensures links == LinkRecords(edges)
    {
      links := [];
      for j := 0 to |edges|
        invariant links == LinkRecords(edges[..j])
      {
        var edge := edges[j];
        var outputNode := edge.output.node;
        var inputNode := edge.input.node;
        var outPorts := outputNode.GetOutputPorts();
        var inPorts := inputNode.GetInputPorts();
        var outIndex := IndexOf(outPorts, edge.output);
        var inIndex := IndexOf(inPorts, edge.input);
        var link := DialogueLinkData(outputNode.id, AtLeastZero(outIndex), inputNode.id, AtLeastZero(inIndex));
        assert edges[..j + 1][..j] == edges[..j];
        links := links + [link];
      }
      assert edges[..|edges|] == edges;
    }

    /**
     * LoadGraph: nothing for an empty path; otherwise the lookup's result is
     * cached, missing or not.  A missing container leaves the canvas as it
     * is; a found one clears the canvas, then one node is loaded per
     * record in order, and the links connected.  Repeated ids make the id
     * dictionary throw, which leaves the loaded nodes without edges; that
     * is what `threw` reports.
     */
    method LoadGraph(path: string, found: Option<DialogueContainer>) returns (threw: bool)
      requires targetGraphView.Valid()
      modifies this`containerCache, targetGraphView`nodes, targetGraphView`edges
      ensures targetGraphView.Valid()
      ensures path == "" ==> containerCache == old(containerCache)
      ensures path != "" ==> containerCache == found
      ensures path == "" || found.None? ==>
        !threw && targetGraphView.nodes == old(targetGraphView.nodes) && targetGraphView.edges == old(targetGraphView.edges)
      ensures path != "" && found.Some? ==>
        && LoadedFrom(targetGraphView.nodes, found.value.nodes)
        && (threw <==> !Distinct(Ids(targetGraphView.nodes)))
        && targetGraphView.edges == if threw then [] else LoadedEdges(targetGraphView.nodes, found.value.links)
    {
      if path == "" {
        return false;
      }
      containerCache := found;
      if found.None? {
        return false;
      }
      ClearGraph();
      CreateNodes();
      assert targetGraphView.nodes[0..] == targetGraphView.nodes;
      threw := ConnectNodes();
    }

    /** ClearGraph: every element is removed. */
    method ClearGraph()
      modifies targetGraphView`nodes, targetGraphView`edges
      ensures targetGraphView.Valid() && targetGraphView.nodes == [] && targetGraphView.edges == []
    {
      targetGraphView.RemoveAllElements();
    }

    /** CreateNodes: one node per cached record, appended in record order. */
    method CreateNodes()
      requires containerCache.Some? && targetGraphView.Valid()
      modifies targetGraphView`nodes
      ensures targetGraphView.Valid()
      ensures targetGraphView.edges == old(targetGraphView.edges)
      ensures var n0 := |old(targetGraphView.nodes)|;
        && n0 <= |targetGraphView.nodes| && targetGraphView.nodes[..n0] == old(targetGraphView.nodes)
        && LoadedFrom(targetGraphView.nodes[n0..], containerCache.value.nodes)
    {
      var records := containerCache.value.nodes;
      ghost var base := targetGraphView.nodes;
      ghost var created: seq<DialogueNode> := [];
      for k := 0 to |records|
        invariant targetGraphView.Valid() && targetGraphView.nodes == base + created
        invariant LoadedFrom(created, records[..k])
      {
        created := CreateNext(records, k, base, created);
      }
      assert records[..|records|] == records;
      assert targetGraphView.nodes[..|base|] == base && targetGraphView.nodes[|base|..] == created;
    }

    /** The node of record k joins the ones created for the records before it. */
    method CreateNext(records: seq<DialogueNodeData>, k: nat, ghost base: seq<DialogueNode>, ghost created: seq<DialogueNode>)
      returns (ghost created': seq<DialogueNode>)
      requires k < |records| && targetGraphView.Valid() && targetGraphView.nodes == base + created
      requires LoadedFrom(created, records[..k])
      modifies targetGraphView`nodes
      ensures targetGraphView.Valid() && targetGraphView.nodes == base + created'
      ensures LoadedFrom(created', records[..k + 1])
    {
      var node := CreateNode(records[k]);
      LoadedFromAppend(created, records[..k], node, records[k]);
      assert records[..k + 1] == records[..k] + [records[k]];
      created' := created + [node];
    }

    /** One record's node, added to the canvas. */
    method CreateNode(nd: DialogueNodeData) returns (node: DialogueNode)
      requires targetGraphView.Valid()
      modifies targetGraphView`nodes
      ensures targetGraphView.Valid() && targetGraphView.nodes == old(targetGraphView.nodes) + [node]
      ensures NodeRecord(node) == AsLoaded(nd, node.id)
    {
      var view := targetGraphView;
      node := LoadNode(nd, NewGuid(Ids(view.nodes)));
      view.AddNode(node);
    }

    /**
     * CreateBranchNode / CreateDialogueNode at the record's position, SetID
     * and LoadData with the record's id, and for a branch ClearChoices and
     * one AddChoice per label.  The node is finished before it joins the
     * canvas (AddNode); nothing reads the canvas in between.
     */
    static method LoadNode(nd: DialogueNodeData, guid: string) returns (node: DialogueNode)
      requires guid != ""
      ensures fresh(node) && node.Valid() && node.hasIdValidator
      ensures NodeRecord(node) == AsLoaded(nd, guid) == AsLoaded(nd, node.id)
      ensures node.isBranch ==> |node.outputPorts| == |node.choices|
    {
      node := LoadFields(nd, guid);
      if nd.isBranch {
        node.ClearChoices();
        AddChoices(node, nd.choices);
      }
    }

    /** The node of a record before its rows: placed, then SetID and LoadData with the record's id. */
    static method LoadFields(nd: DialogueNodeData, guid: string) returns (node: DialogueNode)
      requires guid != ""
      ensures fresh(node) && node.Valid() && node.hasIdValidator && node.isBranch == nd.isBranch
      ensures node.id == AsLoaded(nd, guid).id && node.speaker == nd.speaker && node.dialogueText == nd.dialogueText
      ensures node.functionName == nd.functionName && node.position == nd.position && node.choices == []
    {
      node := NewPlacedNode(nd.isBranch, guid, nd.position);
      node.SetID(nd.id);
      node.LoadData(nd.speaker, nd.dialogueText, nd.functionName, nd.id);
    }

    /** The AddChoice loop of a freshly cleared branch. */
    static method AddChoices(node: DialogueNode, labels: seq<string>)
      requires node.Valid() && node.isBranch && node.choices == []
      modifies node`choices, node`outputContainer, node`outputPorts
      ensures node.Valid() && node.choices == labels && |node.outputPorts| == |labels|
    {
      for i := 0 to |labels|
        invariant node.Valid() && node.choices == labels[..i] && |node.outputPorts| == i
      {
        assert labels[..i + 1] == labels[..i] + [labels[i]];
        node.AddChoice(labels[i]);
      }
      assert labels[..|labels|] == labels;
    }

    /**
     * ConnectNodes: the id dictionary throws on a repeated id; otherwise one
     * edge per link that resolves, in link order.
     */
    method ConnectNodes() returns (threw: bool)
      requires containerCache.Some? && targetGraphView.Valid()
      modifies targetGraphView`edges
      ensures targetGraphView.Valid()
      ensures threw <==> !Distinct(Ids(targetGraphView.nodes))
      ensures targetGraphView.edges == old(targetGraphView.edges) +
        if threw then [] else LoadedEdges(targetGraphView.nodes, containerCache.value.links)
    {
      var view := targetGraphView;
      var nodes := view.nodes;
      if !Distinct(Ids(nodes)) {
        return true;
      }
      ConnectAll(nodes, containerCache.value.links);
      threw := false;
    }

    /** The link loop of ConnectNodes, once the dictionary is built. */
    method ConnectAll(nodes: seq<DialogueNode>, links: seq<DialogueLinkData>)
      modifies targetGraphView`edges
      ensures targetGraphView.edges == old(targetGraphView.edges) + LoadedEdges(nodes, links)
    {
      var view := targetGraphView;
      for j := 0 to |links|
        invariant view.edges == old(view.edges) + LoadedEdges(nodes, links[..j])
      {
        LoadedEdgesStep(nodes, links, j);
        ConnectLink(nodes, links[j]);
      }
      assert links[..|links|] == links;
    }

    /** The loop body of ConnectNodes: the edge of one link, if it resolves. */
    method ConnectLink(nodes: seq<DialogueNode>, link: DialogueLinkData)
      modifies targetGraphView`edges
      ensures targetGraphView.edges == old(targetGraphView.edges) +
        (var e := LoadedEdge(nodes, link); if e.Some? then [e.value] else [])
    {
      var e := ResolveLink(nodes, link);
      if e.Some? {
        targetGraphView.AddEdge(e.value);
      }
    }

    /**
     * The two dictionary lookups, then the clamped ports: the edge the link
     * becomes, or None when an id is unknown or an end has no port.
     */
    static method ResolveLink(nodes: seq<DialogueNode>, link: DialogueLinkData) returns (e: Option<Edge>)
      ensures e == LoadedEdge(nodes, link)
    {
      var s := NodeWithId(nodes, link.sourceNodeId);
      var t := NodeWithId(nodes, link.targetNodeId);
      if s < 0 || t < 0 {
        return None;
      }
      var outPorts := nodes[s].GetOutputPorts();
      var inPorts := nodes[t].GetInputPorts();
      var outIndex := ClampIndex(link.sourcePortIndex, |outPorts|);
      var inIndex := ClampIndex(link.targetPortIndex, |inPorts|);
      if |outPorts| == 0 || |inPorts| == 0 {
        return None;
      }
      e := Some(Edge(outPorts[outIndex], inPorts[inIndex]));
    }
  }
}
