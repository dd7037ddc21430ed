/**
 * DialogueJsonUtility: the mapping between the native container and the JSON
 * interchange form, and the depth-first auto-layout run after an import.
 * The JSON text itself (JsonUtility.ToJson / FromJson) and the file system
 * are outside the model: export returns the root record, import takes the
 * root record read from the file, or None when the file does not exist.
 */
module DialogueJsonUtility {
  import opened Wrappers
  import opened DialogueContainers
  import opened DialogueJsonModel

  // ------------------------------------------------------------ grouping

  /** `linksBySource[id]`: the links leaving id, in link order (empty when the key is absent). */
  function LinksFrom(links: seq<DialogueLinkData>, id: string): (r: seq<DialogueLinkData>)
    ensures |r| <= |links|
    ensures forall l :: l in r <==> l in links && l.sourceNodeId == id
  {
    if links == [] then []
    else
      var last := links[|links| - 1];
      LinksFrom(links[..|links| - 1], id) + (if last.sourceNodeId == id then [last] else [])
  }

  /** The positions of the links leaving id, in increasing order. */
  ghost function SourcePositions(links: seq<DialogueLinkData>, id: string): (r: seq<nat>)
    ensures forall k :: 0 <= k < |r| ==> r[k] < |links| && links[r[k]].sourceNodeId == id
  {
    if links == [] then []
    else
      var last := |links| - 1;
      SourcePositions(links[..last], id) + (if links[last].sourceNodeId == id then [last] else [])
  }

  /** Every link leaving id has its position listed, and the positions increase. */
  lemma {:induction false} SourcePositionsExact(links: seq<DialogueLinkData>, id: string)
    ensures var r := SourcePositions(links, id);
      && (forall j :: 0 <= j < |links| && links[j].sourceNodeId == id ==> j in r)
      && (forall a, b :: 0 <= a < b < |r| ==> r[a] < r[b])
  {
    if links != [] {
      var init := links[..|links| - 1];
      SourcePositionsExact(init, id);
      forall j | 0 <= j < |init| && links[j].sourceNodeId == id
        ensures j in SourcePositions(init, id)
      {
        assert init[j] == links[j];
      }
    }
  }

  /**
   * The group keeps link order: its k-th entry is the link at the k-th
   * position whose source is id.
   */
  lemma {:induction false} LinksFromInOrder(links: seq<DialogueLinkData>, id: string)
    ensures var r, ps := LinksFrom(links, id), SourcePositions(links, id);
      |r| == |ps| && forall k :: 0 <= k < |r| ==> r[k] == links[ps[k]]
  {
    if links != [] {
      var init := links[..|links| - 1];
      LinksFromInOrder(init, id);
      var r0, ps0 := LinksFrom(init, id), SourcePositions(init, id);
      forall k | 0 <= k < |r0|
        ensures r0[k] == links[ps0[k]]
      {
        assert init[ps0[k]] == links[ps0[k]];
      }
    }
  }

  /** Position j holds the first link leaving id at port i. */
  ghost predicate FirstLinkAt(links: seq<DialogueLinkData>, id: string, i: int, j: int)
  {
    && 0 <= j < |links| && links[j].sourceNodeId == id && links[j].sourcePortIndex == i
    && forall j' :: 0 <= j' < j ==> !(links[j'].sourceNodeId == id && links[j'].sourcePortIndex == i)
  }

  /** Position j holds the first link leaving id. */
  ghost predicate FirstLinkFrom(links: seq<DialogueLinkData>, id: string, j: int)
  {
    && 0 <= j < |links| && links[j].sourceNodeId == id
    && forall j' :: 0 <= j' < j ==> links[j'].sourceNodeId != id
  }

  /** The first link of the group at port i is the first link of all that leaves id at port i. */
  lemma FirstAtPortOfGroup(links: seq<DialogueLinkData>, id: string, i: int, j: int)
    requires FirstLinkAt(links, id, i, j)
    ensures var f := FirstAtPort(LinksFrom(links, id), i);
      f >= 0 && LinksFrom(links, id)[f] == links[j]
  {
    var r, ps := LinksFrom(links, id), SourcePositions(links, id);
    LinksFromInOrder(links, id);
    SourcePositionsExact(links, id);
    var k :| 0 <= k < |ps| && ps[k] == j;
    assert r[k].sourcePortIndex == i;
    forall m | 0 <= m < k
      ensures r[m].sourcePortIndex != i
    {
      assert ps[m] < j && r[m] == links[ps[m]];
    }
    assert FirstAtPort(r, i) == k;
  }

  /** The group's first entry is the first link of all that leaves id. */
  lemma FirstOfGroup(links: seq<DialogueLinkData>, id: string, j: int)
    requires FirstLinkFrom(links, id, j)
    ensures LinksFrom(links, id) != [] && LinksFrom(links, id)[0] == links[j]
  {
    var r, ps := LinksFrom(links, id), SourcePositions(links, id);
    LinksFromInOrder(links, id);
    SourcePositionsExact(links, id);
    var k :| 0 <= k < |ps| && ps[k] == j;
  }

  /** `FirstOrDefault(l => l.SourcePortIndex == i)`, as a position: the first link at port i, or -1. */
  function FirstAtPort(ls: seq<DialogueLinkData>, i: int): (r: int)
    ensures -1 <= r < |ls|
    ensures r >= 0 ==> ls[r].sourcePortIndex == i && forall j :: 0 <= j < r ==> ls[j].sourcePortIndex != i
    ensures r == -1 ==> forall j :: 0 <= j < |ls| ==> ls[j].sourcePortIndex != i
  {
    if ls == [] then -1
    else if ls[0].sourcePortIndex == i then 0
    else
      var r := FirstAtPort(ls[1..], i);
      if r < 0 then -1 else r + 1
  }

  // ------------------------------------------------------------ export

  /** Choice i of a branch: its label, and the target of the first link leaving the node at port i. */
  function ExportChoice(text: string, nodeLinks: seq<DialogueLinkData>, i: int): DialogueJsonChoice
  {
    var f := FirstAtPort(nodeLinks, i);
    DialogueJsonChoice(text, if f >= 0 then nodeLinks[f].targetNodeId else "", "")
  }

  function ExportDialog(node: DialogueNodeData, links: seq<DialogueLinkData>): DialogueJsonDialog
  {
    var nodeLinks := LinksFrom(links, node.id);
    var dialog := NewDialog(node.id, node.speaker, node.dialogueText, node.functionName);
    if node.isBranch then
      dialog.(choices := seq(|node.choices|, i requires 0 <= i < |node.choices| => ExportChoice(node.choices[i], nodeLinks, i)))
    else if nodeLinks != [] then dialog.(nextId := nodeLinks[0].targetNodeId)
    else dialog
  }

  function Export(c: DialogueContainer): DialogueJsonRoot
  {
    DialogueJsonRoot(seq(|c.nodes|, k requires 0 <= k < |c.nodes| => ExportDialog(c.nodes[k], c.links)))
  }

  /**
   * What one exported dialog says: the node's id, speaker, text and function
   * as callback; for a branch one choice per label, in order, whose nextId is
   * the target of the first link leaving the node at that choice's index (and
   * "" without one), so links at other ports are ignored; for a plain node no
   * choices and the target of its first outgoing link as nextId.
   */
  lemma ExportDialogMeaning(node: DialogueNodeData, links: seq<DialogueLinkData>)
    ensures var d := ExportDialog(node, links);
      && d.id == node.id && d.speaker == node.speaker && d.text == node.dialogueText && d.callback == node.functionName
      && (node.isBranch ==>
        && d.nextId == "" && |d.choices| == |node.choices|
        && forall i :: 0 <= i < |node.choices| ==>
          && d.choices[i].text == node.choices[i] && d.choices[i].callback == ""
          && (d.choices[i].nextId != "" ==>
                exists l :: l in links && l.sourceNodeId == node.id && l.sourcePortIndex == i && l.targetNodeId == d.choices[i].nextId)
          && ((forall l :: l in links && l.sourceNodeId == node.id ==> l.sourcePortIndex != i) ==> d.choices[i].nextId == "")
          && (forall j :: FirstLinkAt(links, node.id, i, j) ==> d.choices[i].nextId == links[j].targetNodeId))
      && (!node.isBranch ==>
        && d.choices == []
        && (d.nextId != "" ==> exists l :: l in links && l.sourceNodeId == node.id && l.targetNodeId == d.nextId)
        && ((forall l :: l in links ==> l.sourceNodeId != node.id) ==> d.nextId == "")
        && (forall j :: FirstLinkFrom(links, node.id, j) ==> d.nextId == links[j].targetNodeId))
  {
    var nodeLinks := LinksFrom(links, node.id);
    var d := ExportDialog(node, links);
    if node.isBranch {
      forall i, j | 0 <= i < |node.choices| && FirstLinkAt(links, node.id, i, j)
        ensures d.choices[i].nextId == links[j].targetNodeId
      {
        FirstAtPortOfGroup(links, node.id, i, j);
      }
      forall i | 0 <= i < |node.choices|
        ensures d.choices[i].nextId != "" ==>
                  exists l :: l in links && l.sourceNodeId == node.id && l.sourcePortIndex == i && l.targetNodeId == d.choices[i].nextId
      {
        var f := FirstAtPort(nodeLinks, i);
        if f >= 0 {
          assert nodeLinks[f] in nodeLinks;
        }
      }
    } else {
      forall j | FirstLinkFrom(links, node.id, j)
        ensures d.nextId == links[j].targetNodeId
      {
        FirstOfGroup(links, node.id, j);
      }
      if nodeLinks != [] {
        assert nodeLinks[0] in nodeLinks;
      }
    }
  }

  /** The export keeps one dialog per node, in node order. */
  lemma ExportShape(c: DialogueContainer)
    ensures |Export(c).dialogs| == |c.nodes|
    ensures forall k :: 0 <= k < |c.nodes| ==> Export(c).dialogs[k].id == c.nodes[k].id
  {
  }

  /**
   * ExportToJson's record building: the links grouped by source, then one
   * dialog per node, a branch's choices filled in one by one.
   */
  method ExportToJson(container: DialogueContainer) returns (root: DialogueJsonRoot)
    ensures root == Export(container)
  {
    root := DialogueJsonRoot([]);
    for k := 0 to |container.nodes|
      invariant |root.dialogs| == k
      invariant forall m :: 0 <= m < k ==> root.dialogs[m] == ExportDialog(container.nodes[m], container.links)
    {
      var node := container.nodes[k];
      var dialog := NewDialog(node.id, node.speaker, node.dialogueText, node.functionName);
      var nodeLinks := LinksFrom(container.links, node.id);
      if node.isBranch {
        for i := 0 to |node.choices|
          invariant |dialog.choices| == i && dialog.nextId == ""
          invariant dialog.id == node.id && dialog.speaker == node.speaker
          invariant dialog.text == node.dialogueText && dialog.callback == node.functionName
          invariant forall j :: 0 <= j < i ==> dialog.choices[j] == ExportChoice(node.choices[j], nodeLinks, j)
        {
          var choice := DialogueJsonChoice(node.choices[i], "", "");
          var link := FirstAtPort(nodeLinks, i);
          if link >= 0 {
            choice := choice.(nextId := nodeLinks[link].targetNodeId);
          }
          dialog := dialog.(choices := dialog.choices + [choice]);
        }
      } else {
        if nodeLinks != [] {
          dialog := dialog.(nextId := nodeLinks[0].targetNodeId);
        }
      }
      root := root.(dialogs := root.dialogs + [dialog]);
    }
  }

  // ------------------------------------------------------------ import

  /** The node record a dialog becomes: a branch iff it has choices, the labels in order, position unset. */
  function ImportNode(d: DialogueJsonDialog): DialogueNodeData
  {
    DialogueNodeData(d.id, d.speaker, d.text, d.callback, Zero, |d.choices| > 0,
                     seq(|d.choices|, i requires 0 <= i < |d.choices| => d.choices[i].text))
  }

  function ImportNodes(ds: seq<DialogueJsonDialog>): seq<DialogueNodeData>
  {
    seq(|ds|, k requires 0 <= k < |ds| => ImportNode(ds[k]))
  }

  /** The links of choices 0..n-1 of a dialog: port i for each choice i with a nextId. */
  function ChoiceLinks(id: string, cs: seq<DialogueJsonChoice>, n: nat): (r: seq<DialogueLinkData>)
    requires n <= |cs|
  {
    if n == 0 then []
    else ChoiceLinks(id, cs, n - 1) + (if cs[n - 1].nextId != "" then [DialogueLinkData(id, n - 1, cs[n - 1].nextId, 0)] else [])
  }

  /** A dialog's links: port 0 for its own nextId, then its choices' links. */
  function DialogLinks(d: DialogueJsonDialog): seq<DialogueLinkData>
  {
    (if d.nextId != "" then [DialogueLinkData(d.id, 0, d.nextId, 0)] else []) + ChoiceLinks(d.id, d.choices, |d.choices|)
  }

  function ImportLinks(ds: seq<DialogueJsonDialog>): seq<DialogueLinkData>
  {
    if ds == [] then [] else ImportLinks(ds[..|ds| - 1]) + DialogLinks(ds[|ds| - 1])
  }

  lemma {:induction false} ChoiceLinksMembers(id: string, cs: seq<DialogueJsonChoice>, n: nat)
    requires n <= |cs|
    ensures forall l :: l in ChoiceLinks(id, cs, n) <==>
      exists i :: 0 <= i < n && cs[i].nextId != "" && l == DialogueLinkData(id, i, cs[i].nextId, 0)
  {
    if n > 0 {
      ChoiceLinksMembers(id, cs, n - 1);
    }
  }

  /** A link the import creates from a dialog. */
  predicate LinkOfDialog(d: DialogueJsonDialog, l: DialogueLinkData)
  {
    || (d.nextId != "" && l == DialogueLinkData(d.id, 0, d.nextId, 0))
    || exists i :: 0 <= i < |d.choices| && d.choices[i].nextId != "" && l == DialogueLinkData(d.id, i, d.choices[i].nextId, 0)
  }

  /**
   * The imported links are exactly: a port-0 link to each non-empty nextId,
   * and a port-i link to each choice i's non-empty nextId, all with target
   * port 0 and no check that the target exists.
   */
  lemma {:induction false} ImportLinksMembers(ds: seq<DialogueJsonDialog>)
    ensures forall l :: l in ImportLinks(ds) <==> exists k :: 0 <= k < |ds| && LinkOfDialog(ds[k], l)
  {
    if ds != [] {
      var init := ds[..|ds| - 1];
      var d := ds[|ds| - 1];
      ImportLinksMembers(init);
      ChoiceLinksMembers(d.id, d.choices, |d.choices|);
      forall l ensures l in ImportLinks(ds) <==> exists k :: 0 <= k < |ds| && LinkOfDialog(ds[k], l)
      {
        if l in ImportLinks(ds) {
          if l in ImportLinks(init) {
            var k :| 0 <= k < |init| && LinkOfDialog(init[k], l);
            assert ds[k] == init[k];
          } else {
            assert LinkOfDialog(ds[|ds| - 1], l);
          }
        }
        if exists k :: 0 <= k < |ds| && LinkOfDialog(ds[k], l) {
          var k :| 0 <= k < |ds| && LinkOfDialog(ds[k], l);
          if k < |init| {
            assert init[k] == ds[k];
          }
        }
      }
    }
  }

  /** The link loop of ImportFromJson for one dialog. */
  method AddDialogLinks(links0: seq<DialogueLinkData>, dialog: DialogueJsonDialog) returns (links: seq<DialogueLinkData>)
    ensures links == links0 + DialogLinks(dialog)
  {
    links := links0;
    if dialog.nextId != "" {
      links := links + [DialogueLinkData(dialog.id, 0, dialog.nextId, 0)];
    }
    ghost var afterNext := links;
    for i := 0 to |dialog.choices|
      invariant links == afterNext + ChoiceLinks(dialog.id, dialog.choices, i)
    {
      var choice := dialog.choices[i];
      if choice.nextId != "" {
        links := links + [DialogueLinkData(dialog.id, i, choice.nextId, 0)];
      }
    }
  }

  /**
   * ImportFromJson: None for a missing file; otherwise one node per dialog,
   * in order, then the links, then the auto-layout, which moves nodes and
   * changes nothing else: the nodes are AutoLayout of the imported records.
   */
  method ImportFromJson(file: Option<DialogueJsonRoot>) returns (container: Option<DialogueContainer>)
    ensures file.None? <==> container.None?
    ensures file.Some? ==>
      && Unplaced(container.value.nodes) == ImportNodes(file.value.dialogs)
      && container.value.links == ImportLinks(file.value.dialogs)
      && container.value.nodes == AutoLayout(ImportNodes(file.value.dialogs), ImportLinks(file.value.dialogs))
  {
    if file.None? {
      return None;
    }
    var root := file.value;
    var c := NewContainer();
    for k := 0 to |root.dialogs|
      invariant c.links == [] && c.nodes == ImportNodes(root.dialogs[..k])
    {
      var dialog := root.dialogs[k];
      var choices := seq(|dialog.choices|, i requires 0 <= i < |dialog.choices| => dialog.choices[i].text);
      var nodeData := DialogueNodeData(dialog.id, dialog.speaker, dialog.text, dialog.callback, Zero,
                                       |dialog.choices| > 0, choices);
      c := c.(nodes := c.nodes + [nodeData]);
    }
    assert root.dialogs[..|root.dialogs|] == root.dialogs;
    for k := 0 to |root.dialogs|
      invariant c.nodes == ImportNodes(root.dialogs)
      invariant c.links == ImportLinks(root.dialogs[..k])
    {
      assert root.dialogs[..k + 1][..k] == root.dialogs[..k];
      var links := AddDialogLinks(c.links, root.dialogs[k]);
      c := c.(links := links);
    }
    UnplacedOfUnset(c.nodes);
    var laidOut := AutoLayoutNodes(c.nodes, c.links);
    container := Some(c.(nodes := laidOut));
  }

  // ------------------------------------------------------------ round trip

  /** The node records with their positions cleared. */
  function Unplaced(ns: seq<DialogueNodeData>): (r: seq<DialogueNodeData>)
    ensures |r| == |ns|
  {
    seq(|ns|, k requires 0 <= k < |ns| => ns[k].(position := Zero))
  }

  lemma UnplacedOfUnset(ns: seq<DialogueNodeData>)
    requires forall k :: 0 <= k < |ns| ==> ns[k].position == Zero
    ensures Unplaced(ns) == ns
  {
  }

  /** The node with this id (the first one). */
  function NodeIndex(ns: seq<DialogueNodeData>, id: string): (r: int)
    ensures -1 <= r < |ns|
    ensures r >= 0 ==> ns[r].id == id && forall j :: 0 <= j < r ==> ns[j].id != id
    ensures r == -1 ==> forall j :: 0 <= j < |ns| ==> ns[j].id != id
  {
    if ns == [] then -1
    else if ns[0].id == id then 0
    else
      var r := NodeIndex(ns[1..], id);
      if r < 0 then -1 else r + 1
  }

  /**
   * The containers the JSON form can carry without loss: unique ids, every
   * link leaving a node record and entering port 0 of a non-empty id, no two
   * links leaving the same node at the same port, a plain node leaving only
   * from port 0 and holding no labels, a branch with at least one label
   * leaving only from the ports of its labels.
   */
  predicate Exportable(c: DialogueContainer)
  {
    && UniqueIds(c.nodes)
    && (forall j :: 0 <= j < |c.links| ==>
      && c.links[j].targetPortIndex == 0 && c.links[j].targetNodeId != ""
      && NodeIndex(c.nodes, c.links[j].sourceNodeId) >= 0
      && PortFits(c.nodes[NodeIndex(c.nodes, c.links[j].sourceNodeId)], c.links[j].sourcePortIndex))
    && (forall j1, j2 :: 0 <= j1 < j2 < |c.links| && c.links[j1].sourceNodeId == c.links[j2].sourceNodeId ==>
      c.links[j1].sourcePortIndex != c.links[j2].sourcePortIndex)
    && (forall k :: 0 <= k < |c.nodes| ==> if c.nodes[k].isBranch then c.nodes[k].choices != [] else c.nodes[k].choices == [])
  }

  predicate PortFits(n: DialogueNodeData, port: int)
  {
    if n.isBranch then 0 <= port < |n.choices| else port == 0
  }

  /** Export then import gives back every node record, in order, up to its position. */
  lemma ExportImportNodes(c: DialogueContainer)
    requires Exportable(c)
    ensures ImportNodes(Export(c).dialogs) == Unplaced(c.nodes)
  {
    var ds := Export(c).dialogs;
    forall k | 0 <= k < |c.nodes|
      ensures ImportNode(ds[k]) == c.nodes[k].(position := Zero)
    {
      var n := c.nodes[k];
      ExportDialogMeaning(n, c.links);
      if n.isBranch {
        assert |ds[k].choices| == |n.choices| > 0;
        assert ImportNode(ds[k]).choices == n.choices;
      }
    }
  }

  /** Within an exportable container, the links leaving a node at a port number at most one. */
  lemma OneLinkPerPort(c: DialogueContainer, l1: DialogueLinkData, l2: DialogueLinkData)
    requires Exportable(c) && l1 in c.links && l2 in c.links
    requires l1.sourceNodeId == l2.sourceNodeId && l1.sourcePortIndex == l2.sourcePortIndex
    ensures l1 == l2
  {
    var j1 :| 0 <= j1 < |c.links| && c.links[j1] == l1;
    var j2 :| 0 <= j2 < |c.links| && c.links[j2] == l2;
    if j1 < j2 {
      assert false;
    } else if j2 < j1 {
      assert false;
    }
  }

  /** Every link of an exportable container comes back from its node's dialog. */
  lemma LinkSurvives(c: DialogueContainer, l: DialogueLinkData)
    requires Exportable(c) && l in c.links
    ensures exists k :: 0 <= k < |c.nodes| && LinkOfDialog(Export(c).dialogs[k], l)
  {
    var j :| 0 <= j < |c.links| && c.links[j] == l;
    var k := NodeIndex(c.nodes, l.sourceNodeId);
    var n := c.nodes[k];
    var d := Export(c).dialogs[k];
    var nodeLinks := LinksFrom(c.links, n.id);
    ExportDialogMeaning(n, c.links);
    assert l in nodeLinks;
    if n.isBranch {
      var i := l.sourcePortIndex;
      var f := FirstAtPort(nodeLinks, i);
      assert f >= 0 by {
        var m :| 0 <= m < |nodeLinks| && nodeLinks[m] == l;
      }
      OneLinkPerPort(c, nodeLinks[f], l);
      assert d.choices[i] == ExportChoice(n.choices[i], nodeLinks, i);
      assert LinkOfDialog(d, l);
    } else {
      assert nodeLinks[0] in c.links;
      OneLinkPerPort(c, nodeLinks[0], l);
      assert LinkOfDialog(d, l);
    }
  }

  /** Every link the import creates from an exported container was in it. */
  lemma LinkCameFrom(c: DialogueContainer, k: nat, l: DialogueLinkData)
    requires Exportable(c) && k < |c.nodes| && LinkOfDialog(Export(c).dialogs[k], l)
    ensures l in c.links
  {
    var n := c.nodes[k];
    var d := Export(c).dialogs[k];
    var nodeLinks := LinksFrom(c.links, n.id);
    ExportDialogMeaning(n, c.links);
    if n.isBranch {
      var i :| 0 <= i < |d.choices| && d.choices[i].nextId != "" && l == DialogueLinkData(d.id, i, d.choices[i].nextId, 0);
      assert d.choices[i] == ExportChoice(n.choices[i], nodeLinks, i);
      var f := FirstAtPort(nodeLinks, i);
      assert f >= 0;
      var m := nodeLinks[f];
      assert m in c.links;
      var jm :| 0 <= jm < |c.links| && c.links[jm] == m;
      assert m == l;
    } else {
      assert nodeLinks != [];
      var m := nodeLinks[0];
      assert m in c.links;
      var jm :| 0 <= jm < |c.links| && c.links[jm] == m;
      UniqueIdsApart(c.nodes);
      assert NodeIndex(c.nodes, m.sourceNodeId) == k;
      assert m == l;
    }
  }

  /**
   * Round trip: for an exportable container, importing its export gives the
   * same node records in the same order up to positions, and the same links.
   */
  lemma ExportImportRoundTrip(c: DialogueContainer)
    requires Exportable(c)
    ensures ImportNodes(Export(c).dialogs) == Unplaced(c.nodes)
    ensures forall l :: l in ImportLinks(Export(c).dialogs) <==> l in c.links
  {
    ExportImportNodes(c);
    var ds := Export(c).dialogs;
    ImportLinksMembers(ds);
    forall l ensures l in ImportLinks(ds) <==> l in c.links
    {
      if l in c.links {
        LinkSurvives(c, l);
      }
      if l in ImportLinks(ds) {
        var k :| 0 <= k < |ds| && LinkOfDialog(ds[k], l);
        LinkCameFrom(c, k, l);
      }
    }
  }

  // ------------------------------------------------------------ auto-layout

  const LayoutStart := 100
  const ChildDX := 350
  const ChildDY := 250
  const RootDY := 400

  /** `childrenMap`: for each source id, the targets of its links in link order. */
  function ChildrenMap(links: seq<DialogueLinkData>): (m: map<string, seq<string>>)
    ensures forall id :: id in m <==> exists l :: l in links && l.sourceNodeId == id
    ensures forall id, t :: id in m && t in m[id] ==> t in Targets(links)
  {
    if links == [] then map[]
    else
      var m0 := ChildrenMap(links[..|links| - 1]);
      var l := links[|links| - 1];
      m0[l.sourceNodeId := (if l.sourceNodeId in m0 then m0[l.sourceNodeId] else []) + [l.targetNodeId]]
  }

  /** `allTargets`: every link's target id. */
  function Targets(links: seq<DialogueLinkData>): (r: set<string>)
    ensures forall t :: t in r <==> exists l :: l in links && l.targetNodeId == t
  {
    if links == [] then {} else Targets(links[..|links| - 1]) + {links[|links| - 1].targetNodeId}
  }

  /** The positions of the nodes no link targets, in node order. */
  function RootIndices(ns: seq<DialogueNodeData>, targets: set<string>): (r: seq<nat>)
    ensures forall i :: 0 <= i < |r| ==> r[i] < |ns| && ns[r[i]].id !in targets
  {
    if ns == [] then []
    else
      var r0 := RootIndices(ns[..|ns| - 1], targets);
      r0 + (if ns[|ns| - 1].id !in targets then [|ns| - 1] else [])
  }

  /** The roots are every untargeted position, each once, in increasing order. */
  lemma {:induction false} RootIndicesExact(ns: seq<DialogueNodeData>, targets: set<string>)
    ensures var r := RootIndices(ns, targets);
      && (forall k :: 0 <= k < |ns| && ns[k].id !in targets ==> k in r)
      && (forall i, j :: 0 <= i < j < |r| ==> r[i] < r[j])
  {
    if ns != [] {
      var init := ns[..|ns| - 1];
      RootIndicesExact(init, targets);
      var r0 := RootIndices(init, targets);
      forall k | 0 <= k < |ns| - 1 && ns[k].id !in targets
        ensures k in r0
      {
        assert init[k] == ns[k];
      }
    }
  }

  /** The roots of the layout: the untargeted nodes, or else the first node alone. */
  function LayoutRoots(ns: seq<DialogueNodeData>, links: seq<DialogueLinkData>): (r: seq<nat>)
    ensures forall i :: 0 <= i < |r| ==> r[i] < |ns|
  {
    var roots := RootIndices(ns, Targets(links));
    if roots == [] then (if ns == [] then [] else [0]) else roots
  }

  /** The records agree on everything but positions. */
  predicate SameButPositions(a: seq<DialogueNodeData>, b: seq<DialogueNodeData>)
  {
    |a| == |b| && forall k :: 0 <= k < |a| ==> b[k] == a[k].(position := b[k].position)
  }

  lemma SameButPositionsIds(a: seq<DialogueNodeData>, b: seq<DialogueNodeData>)
    requires SameButPositions(a, b)
    ensures RecordIds(a) == RecordIds(b)
  {
    forall k | 0 <= k < |a| ensures b[k].id == a[k].id {
      assert b[k] == a[k].(position := b[k].position);
    }
  }

  /** Visiting one more id that was not visited leaves fewer ids unvisited. */
  lemma FewerUnvisited(ids: set<string>, visited: set<string>, id: string, visited': set<string>)
    requires id in ids && id !in visited && visited + {id} <= visited'
    ensures |ids - visited'| < |ids - visited|
  {
    SubsetCard(ids - visited', ids - (visited + {id}));
    assert ids - (visited + {id}) == (ids - visited) - {id};
  }

  lemma SubsetCard<T>(a: set<T>, b: set<T>)
    requires a <= b
    ensures |a| <= |b|
    decreases |b|
  {
    if a != {} {
      var x :| x in a;
      SubsetCard(a - {x}, b - {x});
    }
  }

  /** Only nodes whose id was not in visited moved: a visited node is never placed again. */
  predicate MovedOnlyNew(before: seq<DialogueNodeData>, after: seq<DialogueNodeData>, visited: set<string>)
    requires |before| == |after|
  {
    forall k :: 0 <= k < |before| && after[k].position != before[k].position ==> before[k].id !in visited
  }

  lemma SameButPositionsTrans(a: seq<DialogueNodeData>, b: seq<DialogueNodeData>, c: seq<DialogueNodeData>)
    requires SameButPositions(a, b) && SameButPositions(b, c)
    ensures SameButPositions(a, c)
  {
    forall k | 0 <= k < |a|
      ensures c[k] == a[k].(position := c[k].position)
    {
      assert b[k] == a[k].(position := b[k].position);
    }
  }

  /** What a layout step leaves: the records, the visited ids and the y it returns. */
  datatype Laid = Laid(nodes: seq<DialogueNodeData>, visited: set<string>, y: int)

  /**
   * The depth-first layout from node k at (x, y), as a recursive definition.
   * A visited id is left alone and y returned.  Otherwise the id is marked
   * and node k placed at (x, y); its children, if it has any, follow.
   */
  function Place(ns: seq<DialogueNodeData>, k: nat, m: map<string, seq<string>>, visited: set<string>, x: int, y: int): (r: Laid)
    requires k < |ns|
    ensures SameButPositions(ns, r.nodes) && visited <= r.visited
    decreases |RecordIds(ns) - visited|, 0, 0
  {
    var id := ns[k].id;
    if id in visited then Laid(ns, visited, y)
    else
      var placed := ns[k := ns[k].(position := Vec(x, y))];
      if id !in m then Laid(placed, visited + {id}, y)
      else
        SameButPositionsIds(ns, placed);
        FewerUnvisited(RecordIds(ns), visited, id, visited + {id});
        var r := PlaceChildren(placed, m[id], 0, m, visited + {id}, x, y);
        SameButPositionsTrans(ns, placed, r.nodes);
        r
  }

  /**
   * Children i.. of a node at column x: a child id naming no record is
   * skipped; the first record with child i's id is laid out at
   * (x + 350, currentY + i·250), and what that returns is the next currentY.
   * The last currentY is returned.
   */
  function PlaceChildren(ns: seq<DialogueNodeData>, children: seq<string>, i: nat, m: map<string, seq<string>>,
                         visited: set<string>, x: int, currentY: int): (r: Laid)
    requires i <= |children|
    ensures SameButPositions(ns, r.nodes) && visited <= r.visited
    decreases |RecordIds(ns) - visited|, 1, |children| - i
  {
    if i == |children| then Laid(ns, visited, currentY)
    else
      var child := NodeIndex(ns, children[i]);
      if child < 0 then PlaceChildren(ns, children, i + 1, m, visited, x, currentY)
      else
        var c := Place(ns, child, m, visited, x + ChildDX, currentY + i * ChildDY);
        SameButPositionsIds(ns, c.nodes);
        SubsetCard(RecordIds(ns) - c.visited, RecordIds(ns) - visited);
        var r := PlaceChildren(c.nodes, children, i + 1, m, c.visited, x, c.y);
        SameButPositionsTrans(ns, c.nodes, r.nodes);
        r
  }

  /** One child of PlaceChildren: skipped when no record has its id, otherwise laid out before the rest. */
  lemma PlaceChildrenStep(ns: seq<DialogueNodeData>, children: seq<string>, i: nat, m: map<string, seq<string>>,
                          visited: set<string>, x: int, currentY: int, child: int, childY: int, c: Laid)
    requires i < |children| && child == NodeIndex(ns, children[i]) && childY == currentY + i * ChildDY
    requires child >= 0 ==> c == Place(ns, child, m, visited, x + ChildDX, childY)
    ensures child < 0 ==>
      PlaceChildren(ns, children, i, m, visited, x, currentY) == PlaceChildren(ns, children, i + 1, m, visited, x, currentY)
    ensures child >= 0 ==>
      PlaceChildren(ns, children, i, m, visited, x, currentY) == PlaceChildren(c.nodes, children, i + 1, m, c.visited, x, c.y)
  {
  }

  /** p walks the children map: each id after the first is a child of the one before. */
  predicate Walk(m: map<string, seq<string>>, p: seq<string>)
    decreases |p|
  {
    |p| <= 1 || (p[0] in m && p[1] in m[p[0]] && Walk(m, p[1..]))
  }

  /** b is a, or a descendant of a through the children map. */
  ghost predicate Reaches(m: map<string, seq<string>>, a: string, b: string)
  {
    exists p :: |p| > 0 && p[0] == a && p[|p| - 1] == b && Walk(m, p)
  }

  lemma ReachesSelf(m: map<string, seq<string>>, a: string)
    ensures Reaches(m, a, a)
  {
    assert Walk(m, [a]);
  }

  lemma ReachesChild(m: map<string, seq<string>>, a: string, b: string, c: string)
    requires a in m && b in m[a] && Reaches(m, b, c)
    ensures Reaches(m, a, c)
  {
    var p :| |p| > 0 && p[0] == b && p[|p| - 1] == c && Walk(m, p);
    var q := [a] + p;
    assert q[1..] == p;
    assert Walk(m, q);
  }

  /** The last step of a walk of two or more ids is from a parent to its child. */
  lemma {:induction false} WalkLast(m: map<string, seq<string>>, p: seq<string>)
    requires |p| >= 2 && Walk(m, p)
    ensures p[|p| - 2] in m && p[|p| - 1] in m[p[|p| - 2]]
    decreases |p|
  {
    if |p| > 2 {
      WalkLast(m, p[1..]);
    }
  }

  /** An id reached from another id is some id's child. */
  lemma ReachedIsChild(m: map<string, seq<string>>, a: string, b: string)
    requires Reaches(m, a, b) && a != b
    ensures exists parent :: parent in m && b in m[parent]
  {
    var p :| |p| > 0 && p[0] == a && p[|p| - 1] == b && Walk(m, p);
    WalkLast(m, p);
  }

  /** Every node moved between before and after has an id reached from `from`. */
  ghost predicate MovedReached(before: seq<DialogueNodeData>, after: seq<DialogueNodeData>, m: map<string, seq<string>>, from: string)
    requires |before| == |after|
  {
    forall j :: 0 <= j < |before| && after[j].position != before[j].position ==> Reaches(m, from, before[j].id)
  }

  /** Every id visited between visited and visited' is reached from `from`. */
  ghost predicate VisitedReached(visited: set<string>, visited': set<string>, m: map<string, seq<string>>, from: string)
  {
    forall id :: id in visited' && id !in visited ==> Reaches(m, from, id)
  }

  /**
   * What Place does: node k, when its id is unvisited, ends at (x, y) with
   * its id visited; only nodes whose id was unvisited move, so a node is
   * placed at most once over a whole layout; and every node moved and every
   * id visited is reached from node k through the children map.
   */
  lemma {:induction false} PlaceMoves(ns: seq<DialogueNodeData>, k: nat, m: map<string, seq<string>>, visited: set<string>, x: int, y: int,
                                      r: Laid)
    requires k < |ns| && r == Place(ns, k, m, visited, x, y)
    ensures |r.nodes| == |ns| && MovedOnlyNew(ns, r.nodes, visited)
    ensures MovedReached(ns, r.nodes, m, ns[k].id) && VisitedReached(visited, r.visited, m, ns[k].id)
    ensures ns[k].id !in visited ==> r.nodes[k].position == Vec(x, y) && ns[k].id in r.visited
    decreases |RecordIds(ns) - visited|, 0, 0
  {
    var id := ns[k].id;
    if id !in visited {
      var placed := ns[k := ns[k].(position := Vec(x, y))];
      ReachesSelf(m, id);
      if id in m {
        SameButPositionsIds(ns, placed);
        FewerUnvisited(RecordIds(ns), visited, id, visited + {id});
        PlaceChildrenMoves(placed, m[id], 0, m, visited + {id}, x, y, id, r);
        forall j | 0 <= j < |ns| && r.nodes[j].position != ns[j].position
          ensures ns[j].id !in visited && Reaches(m, id, ns[j].id)
        {
          if j != k {
            assert placed[j] == ns[j];
          }
        }
        assert r.nodes[k].position == Vec(x, y) by {
          assert placed[k].id in visited + {id};
        }
      }
    }
  }

  lemma {:induction false} PlaceChildrenMoves(ns: seq<DialogueNodeData>, children: seq<string>, i: nat, m: map<string, seq<string>>,
                                              visited: set<string>, x: int, currentY: int, parent: string, r: Laid)
    requires i <= |children| && parent in m && children == m[parent]
    requires r == PlaceChildren(ns, children, i, m, visited, x, currentY)
    ensures |r.nodes| == |ns| && MovedOnlyNew(ns, r.nodes, visited)
    ensures MovedReached(ns, r.nodes, m, parent) && VisitedReached(visited, r.visited, m, parent)
    decreases |RecordIds(ns) - visited|, 1, |children| - i
  {
    if i < |children| {
      var child := NodeIndex(ns, children[i]);
      if child < 0 {
        PlaceChildrenMoves(ns, children, i + 1, m, visited, x, currentY, parent, r);
      } else {
        var c := Place(ns, child, m, visited, x + ChildDX, currentY + i * ChildDY);
        PlaceMoves(ns, child, m, visited, x + ChildDX, currentY + i * ChildDY, c);
        SameButPositionsIds(ns, c.nodes);
        SubsetCard(RecordIds(ns) - c.visited, RecordIds(ns) - visited);
        PlaceChildrenMoves(c.nodes, children, i + 1, m, c.visited, x, c.y, parent, r);
        assert ns[child].id == children[i] && children[i] in m[parent];
        forall j | 0 <= j < |ns| && r.nodes[j].position != ns[j].position
          ensures ns[j].id !in visited && Reaches(m, parent, ns[j].id)
        {
          assert c.nodes[j] == ns[j].(position := c.nodes[j].position);
          if c.nodes[j].position != ns[j].position {
            ReachesChild(m, parent, children[i], ns[j].id);
          } else {
            assert r.nodes[j].position != c.nodes[j].position;
          }
        }
        forall id | id in r.visited && id !in visited
          ensures Reaches(m, parent, id)
        {
          if id in c.visited {
            ReachesChild(m, parent, children[i], id);
          }
        }
      }
    }
  }

  /** Records that differ only in positions have the same first index for every id. */
  lemma NodeIndexSame(a: seq<DialogueNodeData>, b: seq<DialogueNodeData>, id: string)
    requires SameButPositions(a, b)
    ensures NodeIndex(a, id) == NodeIndex(b, id)
  {
    var ra, rb := NodeIndex(a, id), NodeIndex(b, id);
    if ra >= 0 {
      assert b[ra] == a[ra].(position := b[ra].position);
    }
    if rb >= 0 {
      assert b[rb] == a[rb].(position := b[rb].position);
    }
  }

  /**
   * The child rule: when node k is laid out at (x, y) and its first child
   * id names a record (the first with that id) that is neither node k's id
   * nor visited, that record ends one column right, at (x + 350, y), and no
   * later child moves it again.
   */
  lemma FirstChildPlaced(ns: seq<DialogueNodeData>, k: nat, m: map<string, seq<string>>, visited: set<string>, x: int, y: int)
    requires k < |ns| && ns[k].id !in visited && ns[k].id in m && m[ns[k].id] != []
    requires m[ns[k].id][0] != ns[k].id && m[ns[k].id][0] !in visited && NodeIndex(ns, m[ns[k].id][0]) >= 0
    ensures Place(ns, k, m, visited, x, y).nodes[NodeIndex(ns, m[ns[k].id][0])].position == Vec(x + ChildDX, y)
  {
    var id := ns[k].id;
    var placed := ns[k := ns[k].(position := Vec(x, y))];
    PlaceOpens(ns, k, m, visited, x, y);
    NodeIndexSame(ns, placed, m[id][0]);
    FirstChildFirst(placed, id, m, visited + {id}, x, y);
  }

  /** Children laid out from index 0: the record of the first child id, unvisited, ends at (x + 350, y). */
  lemma FirstChildFirst(ns: seq<DialogueNodeData>, parent: string, m: map<string, seq<string>>, v: set<string>, x: int, y: int)
    requires parent in m && m[parent] != [] && m[parent][0] !in v && NodeIndex(ns, m[parent][0]) >= 0
    ensures PlaceChildren(ns, m[parent], 0, m, v, x, y).nodes[NodeIndex(ns, m[parent][0])].position == Vec(x + ChildDX, y)
  {
    var children := m[parent];
    var ci := NodeIndex(ns, children[0]);
    var c := Place(ns, ci, m, v, x + ChildDX, y + 0 * ChildDY);
    PlaceChildrenStep(ns, children, 0, m, v, x, y, ci, y + 0 * ChildDY, c);
    PlaceMoves(ns, ci, m, v, x + ChildDX, y + 0 * ChildDY, c);
    var r := PlaceChildren(c.nodes, children, 1, m, c.visited, x, c.y);
    PlaceChildrenMoves(c.nodes, children, 1, m, c.visited, x, c.y, parent, r);
    assert c.nodes[ci].id == children[0] by {
      assert c.nodes[ci] == ns[ci].(position := c.nodes[ci].position);
    }
  }

  /** An unvisited node with children: placed at (x, y), its id visited, then its children from index 0. */
  lemma PlaceOpens(ns: seq<DialogueNodeData>, k: nat, m: map<string, seq<string>>, visited: set<string>, x: int, y: int)
    requires k < |ns| && ns[k].id !in visited && ns[k].id in m
    ensures Place(ns, k, m, visited, x, y)
      == PlaceChildren(ns[k := ns[k].(position := Vec(x, y))], m[ns[k].id], 0, m, visited + {ns[k].id}, x, y)
  {
  }

  /** Each root in turn laid out from (100, startY), startY growing by 400 per root. */
  function LayoutRootsFrom(ns: seq<DialogueNodeData>, roots: seq<nat>, m: map<string, seq<string>>,
                           visited: set<string>, startY: int): (r: seq<DialogueNodeData>)
    requires forall q :: 0 <= q < |roots| ==> roots[q] < |ns|
    ensures SameButPositions(ns, r)
    decreases |roots|
  {
    if roots == [] then ns
    else
      var p := Place(ns, roots[0], m, visited, LayoutStart, startY);
      var r := LayoutRootsFrom(p.nodes, roots[1..], m, p.visited, startY + RootDY);
      SameButPositionsTrans(ns, p.nodes, r);
      r
  }

  /** Root r of LayoutRootsFrom: laid out before the roots after it. */
  lemma LayoutRootsStep(ns: seq<DialogueNodeData>, roots: seq<nat>, r: nat, m: map<string, seq<string>>,
                        visited: set<string>, startY: int, nextY: int, p: Laid)
    requires r < |roots| && forall q :: 0 <= q < |roots| ==> roots[q] < |ns|
    requires p == Place(ns, roots[r], m, visited, LayoutStart, startY) && nextY == startY + RootDY
    ensures LayoutRootsFrom(ns, roots[r..], m, visited, startY) == LayoutRootsFrom(p.nodes, roots[r + 1..], m, p.visited, nextY)
  {
    assert roots[r..][1..] == roots[r + 1..];
  }

  /** The auto-layout of records and links: the roots from (100, 100), nothing visited yet. */
  function AutoLayout(ns: seq<DialogueNodeData>, links: seq<DialogueLinkData>): (r: seq<DialogueNodeData>)
    ensures SameButPositions(ns, r)
  {
    LayoutRootsFrom(ns, LayoutRoots(ns, links), ChildrenMap(links), {}, LayoutStart)
  }

  /** The id is reached from one of the roots through the children map. */
  ghost predicate ReachedFromRoots(m: map<string, seq<string>>, ns: seq<DialogueNodeData>, roots: seq<nat>, id: string)
  {
    exists q :: 0 <= q < |roots| && roots[q] < |ns| && Reaches(m, ns[roots[q]].id, id)
  }

  /** Over all roots: only unvisited nodes move, and only nodes reached from a root. */
  lemma {:induction false} LayoutRootsFromMoves(ns: seq<DialogueNodeData>, roots: seq<nat>, m: map<string, seq<string>>,
                                               visited: set<string>, startY: int, r: seq<DialogueNodeData>)
    requires forall q :: 0 <= q < |roots| ==> roots[q] < |ns|
    requires r == LayoutRootsFrom(ns, roots, m, visited, startY)
    ensures |r| == |ns| && MovedOnlyNew(ns, r, visited)
    ensures forall j :: 0 <= j < |ns| && r[j].position != ns[j].position ==> ReachedFromRoots(m, ns, roots, ns[j].id)
    decreases |roots|
  {
    if roots != [] {
      var p := Place(ns, roots[0], m, visited, LayoutStart, startY);
      PlaceMoves(ns, roots[0], m, visited, LayoutStart, startY, p);
      LayoutRootsFromMoves(p.nodes, roots[1..], m, p.visited, startY + RootDY, r);
      forall j | 0 <= j < |ns| && r[j].position != ns[j].position
        ensures ns[j].id !in visited && ReachedFromRoots(m, ns, roots, ns[j].id)
      {
        assert p.nodes[j] == ns[j].(position := p.nodes[j].position);
        if p.nodes[j].position != ns[j].position {
          assert Reaches(m, ns[roots[0]].id, ns[j].id);
        } else {
          var q :| 0 <= q < |roots[1..]| && roots[1..][q] < |p.nodes| && Reaches(m, p.nodes[roots[1..][q]].id, p.nodes[j].id);
          assert p.nodes[roots[q + 1]] == ns[roots[q + 1]].(position := p.nodes[roots[q + 1]].position);
          assert Reaches(m, ns[roots[q + 1]].id, ns[j].id);
        }
      }
    }
  }

  /** A node no root reaches through the links keeps its position. */
  lemma UnreachedKept(ns: seq<DialogueNodeData>, links: seq<DialogueLinkData>, j: nat)
    requires j < |ns| && !ReachedFromRoots(ChildrenMap(links), ns, LayoutRoots(ns, links), ns[j].id)
    ensures AutoLayout(ns, links)[j].position == ns[j].position
  {
    LayoutRootsFromMoves(ns, LayoutRoots(ns, links), ChildrenMap(links), {}, LayoutStart, AutoLayout(ns, links));
  }

  /** The roots' ids are unvisited and distinct, and none is reached from another. */
  ghost predicate SeparateRoots(m: map<string, seq<string>>, ns: seq<DialogueNodeData>, roots: seq<nat>, visited: set<string>)
    requires forall q :: 0 <= q < |roots| ==> roots[q] < |ns|
  {
    && (forall q :: 0 <= q < |roots| ==> ns[roots[q]].id !in visited)
    && (forall q, q' :: 0 <= q < |roots| && 0 <= q' < |roots| && q != q' ==> !Reaches(m, ns[roots[q]].id, ns[roots[q']].id))
  }

  /** Separate roots stay separate for the roots after the first, once the first is laid out. */
  lemma SeparateRest(ns: seq<DialogueNodeData>, roots: seq<nat>, m: map<string, seq<string>>, visited: set<string>, p: Laid)
    requires roots != [] && forall q :: 0 <= q < |roots| ==> roots[q] < |ns|
    requires SeparateRoots(m, ns, roots, visited)
    requires SameButPositions(ns, p.nodes) && VisitedReached(visited, p.visited, m, ns[roots[0]].id)
    ensures SeparateRoots(m, p.nodes, roots[1..], p.visited)
  {
    var rest := roots[1..];
    forall q | 0 <= q < |rest|
      ensures p.nodes[rest[q]].id == ns[roots[q + 1]].id
    {
      assert p.nodes[rest[q]] == ns[rest[q]].(position := p.nodes[rest[q]].position);
    }
    forall q | 0 <= q < |rest|
      ensures p.nodes[rest[q]].id !in p.visited
    {
      assert !Reaches(m, ns[roots[0]].id, ns[roots[q + 1]].id);
    }
  }

  /** The first root lands at (100, startY); with separate roots, root q lands at (100, startY + 400·q). */
  lemma {:induction false} LayoutRootsFromPlaces(ns: seq<DialogueNodeData>, roots: seq<nat>, m: map<string, seq<string>>,
                                                visited: set<string>, startY: int, r: seq<DialogueNodeData>)
    requires forall q :: 0 <= q < |roots| ==> roots[q] < |ns|
    requires r == LayoutRootsFrom(ns, roots, m, visited, startY)
    ensures |r| == |ns|
    ensures roots != [] && ns[roots[0]].id !in visited ==> r[roots[0]].position == Vec(LayoutStart, startY)
    ensures SeparateRoots(m, ns, roots, visited) ==>
      forall q :: 0 <= q < |roots| ==> r[roots[q]].position == Vec(LayoutStart, startY + RootDY * q)
    decreases |roots|
  {
    if roots != [] {
      var p := Place(ns, roots[0], m, visited, LayoutStart, startY);
      PlaceMoves(ns, roots[0], m, visited, LayoutStart, startY, p);
      var rest := roots[1..];
      LayoutRootsFromMoves(p.nodes, rest, m, p.visited, startY + RootDY, r);
      LayoutRootsFromPlaces(p.nodes, rest, m, p.visited, startY + RootDY, r);
      if ns[roots[0]].id !in visited {
        assert p.nodes[roots[0]].id == ns[roots[0]].id;
        assert r[roots[0]].position == p.nodes[roots[0]].position;
      }
      if SeparateRoots(m, ns, roots, visited) {
        SeparateRest(ns, roots, m, visited, p);
        forall q | 0 <= q < |roots|
          ensures r[roots[q]].position == Vec(LayoutStart, startY + RootDY * q)
        {
          if q > 0 {
            assert rest[q - 1] == roots[q];
          }
        }
      }
    }
  }

  /**
   * Where the roots land: the first root at (100, 100) always; with unique
   * ids and at least one untargeted node, root r at (100, 100 + 400·r),
   * since no root is any link's target and so none is reached from another.
   */
  lemma AutoLayoutRoots(ns: seq<DialogueNodeData>, links: seq<DialogueLinkData>)
    ensures ns != [] ==> AutoLayout(ns, links)[LayoutRoots(ns, links)[0]].position == Vec(LayoutStart, LayoutStart)
    ensures UniqueIds(ns) && RootIndices(ns, Targets(links)) != [] ==>
      var roots := LayoutRoots(ns, links);
      forall r :: 0 <= r < |roots| ==> AutoLayout(ns, links)[roots[r]].position == Vec(LayoutStart, LayoutStart + RootDY * r)
  {
    var m := ChildrenMap(links);
    var roots := LayoutRoots(ns, links);
    LayoutRootsFromPlaces(ns, roots, m, {}, LayoutStart, AutoLayout(ns, links));
    if UniqueIds(ns) && RootIndices(ns, Targets(links)) != [] {
      RootIndicesExact(ns, Targets(links));
      UniqueIdsApart(ns);
      forall q, q' | 0 <= q < |roots| && 0 <= q' < |roots| && q != q'
        ensures !Reaches(m, ns[roots[q]].id, ns[roots[q']].id)
      {
        if Reaches(m, ns[roots[q]].id, ns[roots[q']].id) {
          assert ns[roots[q]].id != ns[roots[q']].id by {
            if q < q' { assert roots[q] < roots[q']; } else { assert roots[q'] < roots[q]; }
          }
          ReachedIsChild(m, ns[roots[q]].id, ns[roots[q']].id);
          assert false;
        }
      }
      assert SeparateRoots(m, ns, roots, {});
    }
  }

  /**
   * LayoutNodeRecursive: a node already visited is left alone and y is
   * returned; otherwise it is marked, placed at (x, y), and each child id i
   * that names a node is laid out at (x + 350, current + i·250), current
   * being what the previous child returned (y at first); the last current is
   * returned.  Returns the records, the visited ids and that y.
   */
  method LayoutNodeRecursive(ns: seq<DialogueNodeData>, k: nat, childrenMap: map<string, seq<string>>,
                             visited: set<string>, x: int, y: int)
    returns (ns': seq<DialogueNodeData>, visited': set<string>, currentY: int)
    requires k < |ns|
    ensures Laid(ns', visited', currentY) == Place(ns, k, childrenMap, visited, x, y)
    decreases |RecordIds(ns) - visited|
  {
    var id := ns[k].id;
    if id in visited {
      return ns, visited, y;
    }
    visited' := visited + {id};
    ns' := ns[k := ns[k].(position := Vec(x, y))];
    SameButPositionsIds(ns, ns');
    currentY := y;
    if id !in childrenMap {
      return;
    }
    var children := childrenMap[id];
    ghost var result := Place(ns, k, childrenMap, visited, x, y);
    for i := 0 to |children|
      invariant PlaceChildren(ns', children, i, childrenMap, visited', x, currentY) == result
      invariant RecordIds(ns') == RecordIds(ns) && visited + {id} <= visited'
    {
      var child := NodeIndex(ns', children[i]);
      if child < 0 {
        PlaceChildrenStep(ns', children, i, childrenMap, visited', x, currentY, child, currentY + i * ChildDY, result);
        continue;
      }
      FewerUnvisited(RecordIds(ns), visited, id, visited');
      ghost var before := ns';
      ghost var visitedBefore := visited';
      ghost var yBefore := currentY;
      var childY := currentY + i * ChildDY;
      ns', visited', currentY := LayoutNodeRecursive(ns', child, childrenMap, visited', x + ChildDX, childY);
      PlaceChildrenStep(before, children, i, childrenMap, visitedBefore, x, yBefore, child, childY, Laid(ns', visited', currentY));
      SameButPositionsIds(before, ns');
    }
  }

  /**
   * AutoLayoutNodes: each root in turn is laid out from (100, startY),
   * startY starting at 100 and growing by 400 per root; the result is
   * AutoLayout, whose meaning AutoLayoutRoots, PlaceMoves and UnreachedKept
   * state.
   */
  method AutoLayoutNodes(ns: seq<DialogueNodeData>, links: seq<DialogueLinkData>) returns (ns': seq<DialogueNodeData>)
    ensures ns' == AutoLayout(ns, links)
  {
    var childrenMap := ChildrenMap(links);
    var roots := LayoutRoots(ns, links);
    var visited: set<string> := {};
    var startY := LayoutStart;
    ns' := ns;
    assert roots[0..] == roots;
    for r := 0 to |roots|
      invariant |ns'| == |ns|
      invariant LayoutRootsFrom(ns', roots[r..], childrenMap, visited, startY) == AutoLayout(ns, links)
    {
      ghost var before := ns';
      ghost var visitedBefore := visited;
      var bottomY;
      ns', visited, bottomY := LayoutNodeRecursive(ns', roots[r], childrenMap, visited, LayoutStart, startY);
      var nextY := startY + RootDY;
      LayoutRootsStep(before, roots, r, childrenMap, visitedBefore, startY, nextY, Laid(ns', visited, bottomY));
      startY := nextY;
    }
  }
}
