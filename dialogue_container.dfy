/**
 * The native persisted form of a dialogue graph: node records and link
 * records kept in two ordered lists.  Links name their endpoints by id and
 * port index only, so nothing in the shape forces ids to be unique or links
 * to resolve.
 */
module DialogueContainers {

  /** Canvas coordinates.  The source stores floats; every value the core assigns is an integer. */
  datatype Vec = Vec(x: int, y: int)
  {
    function Plus(o: Vec): Vec { Vec(x + o.x, y + o.y) }
  }

  const Zero := Vec(0, 0)

  datatype DialogueNodeData = DialogueNodeData(
    id: string,
    speaker: string,
    dialogueText: string,
    functionName: string,
    position: Vec,
    isBranch: bool,
    choices: seq<string>)

  datatype DialogueLinkData = DialogueLinkData(
    sourceNodeId: string,
    sourcePortIndex: int,
    targetNodeId: string,
    targetPortIndex: int)

  datatype DialogueContainer = DialogueContainer(nodes: seq<DialogueNodeData>, links: seq<DialogueLinkData>)

  /** `new DialogueNodeData()`: unset strings (null is identified with ""), an empty choice list. */
  function NewNodeData(): (d: DialogueNodeData)
    ensures d.choices == [] && !d.isBranch && d.position == Zero
  {
    DialogueNodeData("", "", "", "", Zero, false, [])
  }

  /** `ScriptableObject.CreateInstance<DialogueContainer>()`: both lists empty. */
  function NewContainer(): (c: DialogueContainer)
    ensures c.nodes == [] && c.links == []
  {
    DialogueContainer([], [])
  }

  predicate HasNode(c: DialogueContainer, id: string) {
    exists i :: 0 <= i < |c.nodes| && c.nodes[i].id == id
  }

  /** Every link's two ends name some node record. */
  predicate LinksResolve(c: DialogueContainer) {
    forall j :: 0 <= j < |c.links| ==>
      HasNode(c, c.links[j].sourceNodeId) && HasNode(c, c.links[j].targetNodeId)
  }

  /** No element occurs twice. */
  predicate Distinct<T(==)>(s: seq<T>)
  {
    forall i, j :: 0 <= i < j < |s| ==> s[i] != s[j]
  }

  /** The ids of the records, in record order. */
  function RecordIdList(nodes: seq<DialogueNodeData>): seq<string> {
    seq(|nodes|, k requires 0 <= k < |nodes| => nodes[k].id)
  }

  /** The set of the records' ids. */
  function RecordIds(rs: seq<DialogueNodeData>): set<string> {
    set k | 0 <= k < |rs| :: rs[k].id
  }

  /** No two records share an id. */
  predicate UniqueIds(nodes: seq<DialogueNodeData>) {
    Distinct(RecordIdList(nodes))
  }

  lemma UniqueIdsApart(nodes: seq<DialogueNodeData>)
    requires UniqueIds(nodes)
    ensures forall i, j :: 0 <= i < j < |nodes| ==> nodes[i].id != nodes[j].id
  {
    forall i, j | 0 <= i < j < |nodes| ensures nodes[i].id != nodes[j].id {
      assert RecordIdList(nodes)[i] != RecordIdList(nodes)[j];
    }
  }

  /** A link whose target names no node is a well-formed container value. */
  lemma DanglingLinkRepresentable()
    ensures exists c: DialogueContainer :: UniqueIds(c.nodes) && !LinksResolve(c)
  {
    var c := DialogueContainer([NewNodeData()], [DialogueLinkData("", 0, "missing", 0)]);
    assert c.links[0].targetNodeId == "missing";
    assert !HasNode(c, "missing");
    assert UniqueIds(c.nodes) && !LinksResolve(c);
  }
}
