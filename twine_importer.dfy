/**
 * The graph side of the Twine importer (TwineImporter.cs).  Every parsed
 * passage becomes a chain of plain nodes, one per body line up to the first
 * line holding a `[[...]]` link; that line becomes a branch node carrying
 * every link of the passage as a choice, and the passage ends there.  Once
 * all passages are built, each choice is connected to the node its target
 * id names.
 *
 * The pure part below says what an import produces, as the container a save
 * of the new canvas content would write (ImportedGraph); the class at the
 * end is the importer itself, proved to produce exactly that.
 */
module TwineImporters {
  import opened Wrappers
  import opened Text
  import opened DialogueContainers
  import opened DialogueNodes
  import opened DialogueGraphViews
  import opened GraphSaveUtilities
  import opened TwineText

  /** Where the first passage starts, the step along a chain, the step to the next passage. */
  const ImportOrigin := Vec(100, 100)
  const LineStep := Vec(350, 0)
  const PassageStep := Vec(0, 250)

  // ------------------------------------------------------------ one passage

  /** The index of the first line holding a link, or |lines| when none does. */
  function FirstChoiceLine(lines: seq<string>): (c: nat)
    ensures c <= |lines|
  {
    FirstChoiceFrom(lines, 0)
  }

  /** The index of the first line at or after i holding a link, or |lines| when none does. */
  function FirstChoiceFrom(lines: seq<string>, i: nat): (c: nat)
    requires i <= |lines|
    ensures i <= c <= |lines|
    decreases |lines| - i
  {
    if i == |lines| then i
    else if HasChoice(lines[i]) then i
    else FirstChoiceFrom(lines, i + 1)
  }

  /** No line before FirstChoiceLine holds a link, and the line there, if any, does. */
  lemma FirstChoiceLineIsFirst(lines: seq<string>)
    ensures forall i :: 0 <= i < FirstChoiceLine(lines) ==> !HasChoice(lines[i])
    ensures FirstChoiceLine(lines) < |lines| ==> HasChoice(lines[FirstChoiceLine(lines)])
  {
    FirstChoiceFromIsFirst(lines, 0);
  }

  lemma {:induction false} FirstChoiceFromIsFirst(lines: seq<string>, i: nat)
    requires i <= |lines|
    ensures forall j :: i <= j < FirstChoiceFrom(lines, i) ==> !HasChoice(lines[j])
    ensures FirstChoiceFrom(lines, i) < |lines| ==> HasChoice(lines[FirstChoiceFrom(lines, i)])
    decreases |lines| - i
  {
    if i < |lines| && !HasChoice(lines[i]) {
      FirstChoiceFromIsFirst(lines, i + 1);
    }
  }

  /** A blank line holds no link: a link starts with `[[`. */
  lemma BlankHasNoChoice(line: string)
    requires IsBlank(line)
    ensures !HasChoice(line)
  {
    if HasChoice(line) {
      var i := ChoiceBracket(line);
      assert false;
    }
  }

  /** Where a line's first link starts. */
  lemma ChoiceBracket(line: string) returns (i: nat)
    requires HasChoice(line)
    ensures i < |line| && line[i] == '['
  {
    i := NextChoice(line, 0).value.0;
    assert line[i] == line[i..i + 2][0];
  }

  /** A passage ends in a branch node when one of its lines holds a link. */
  predicate HasBranch(p: ParsedPassage) {
    FirstChoiceLine(p.lines) < |p.lines|
  }

  /** c is where the scan for the first link line stops: the lines above c hold no link, line c (if any) holds one. */
  predicate ChoiceBoundary(lines: seq<string>, c: nat) {
    && c <= |lines|
    && forall j {:trigger HasChoice(lines[j])} :: 0 <= j <= c && j < |lines| ==> (HasChoice(lines[j]) <==> j == c)
  }

  /** The first choice line is the only stopping point of the scan. */
  lemma FirstChoiceBoundary(lines: seq<string>, c: nat)
    ensures ChoiceBoundary(lines, c) <==> c == FirstChoiceLine(lines)
  {
    FirstChoiceLineIsFirst(lines);
    var f := FirstChoiceLine(lines);
    if f < |lines| {
      assert HasChoice(lines[f]);
    }
    if c < f {
      assert !HasChoice(lines[c]);
    }
  }

  /** The indices, in order, of the lines below n that are not blank: the lines that get a node. */
  function ChainLines(lines: seq<string>, n: nat): (r: seq<nat>)
    requires n <= |lines|
    ensures |r| <= n && forall k :: 0 <= k < |r| ==> r[k] < n
  {
    if n == 0 then []
    else ChainLines(lines, n - 1) + (if IsBlank(lines[n - 1]) then [] else [n - 1])
  }

  /** The chain lines are exactly the non-blank lines below n, in increasing order. */
  lemma {:induction false} ChainLinesExact(lines: seq<string>, n: nat)
    requires n <= |lines|
    ensures forall k :: 0 <= k < |ChainLines(lines, n)| ==> !IsBlank(lines[ChainLines(lines, n)[k]])
    ensures forall k, l :: 0 <= k < l < |ChainLines(lines, n)| ==> ChainLines(lines, n)[k] < ChainLines(lines, n)[l]
    ensures forall i :: 0 <= i < n ==> (i in ChainLines(lines, n) <==> !IsBlank(lines[i]))
  {
    if n > 0 {
      ChainLinesExact(lines, n - 1);
    }
  }

  /** The k-th node of a chain sits k steps right of the passage start. */
  function ChainPos(start: Vec, k: nat): Vec {
    Vec(start.x + 350 * k, start.y)
  }

  /** The node of an empty passage, and of a chain's line 0: id and text are the title. */
  function TitleRecord(title: string, pos: Vec): DialogueNodeData {
    DialogueNodeData(title, "", title, "", pos, false, [])
  }

  /**
   * The node of line i, at pos.  Line 0 gets the title and loses its own
   * content; a later line is split at its first ':' into speaker and text,
   * and the text loses its `{...}` spans.
   */
  function LineRecord(title: string, line: string, i: nat, pos: Vec): DialogueNodeData {
    if i == 0 then TitleRecord(title, pos)
    else DialogueNodeData(title + "_line" + NatToString(i), LineSpeaker(line), LineDialogue(line), "", pos, false, [])
  }

  /** The speaker of a line: what comes before its first ':', trimmed, or "" without one. */
  function LineSpeaker(line: string): string {
    var colon := IndexOfChar(line, ':');
    if colon >= 0 then Trim(line[..colon]) else ""
  }

  /**
   * The text of a line: what comes after its first ':' (the whole line
   * without one), trimmed, without its `{...}` spans, trimmed again.
   */
  function LineDialogue(line: string): string {
    var colon := IndexOfChar(line, ':');
    var dialogue := if colon >= 0 then Trim(line[colon + 1..]) else Trim(line);
    Trim(RemoveBraces(dialogue))
  }

  /** A line's node is the same wherever it is placed. */
  lemma LineRecordMoved(title: string, line: string, i: nat, pos: Vec)
    ensures LineRecord(title, line, i, pos) == LineRecord(title, line, i, ImportOrigin).(position := pos)
  {
  }

  /** The node of each line of a passage, placed at the origin. */
  function LineTable(p: ParsedPassage): (r: seq<DialogueNodeData>)
    ensures |r| == |p.lines|
  {
    seq(|p.lines|, k requires 0 <= k < |p.lines| => LineRecord(p.title, p.lines[k], k, ImportOrigin))
  }

  /** The node of line i placed at pos, from the table of line nodes. */
  lemma LineRecordPlaced(p: ParsedPassage, i: nat, pos: Vec)
    requires i < |p.lines|
    ensures LineRecord(p.title, p.lines[i], i, pos) == LineTable(p)[i].(position := pos)
  {
    LineRecordMoved(p.title, p.lines[i], i, pos);
  }

  /**
   * The chain nodes of the lines below n, taken from the table of line
   * nodes: the node of the k-th non-blank line sits k steps right of the
   * start.
   */
  function ChainRecords(table: seq<DialogueNodeData>, lines: seq<string>, n: nat, start: Vec): (r: seq<DialogueNodeData>)
    requires n <= |lines| == |table|
    ensures |r| == |ChainLines(lines, n)|
  {
    var cl := ChainLines(lines, n);
    seq(|cl|, k requires 0 <= k < |cl| => table[cl[k]].(position := ChainPos(start, k)))
  }

  function Map<A, B>(f: A -> B, s: seq<A>): (r: seq<B>)
    ensures |r| == |s|
  {
    if s == [] then [] else Map(f, s[..|s| - 1]) + [f(s[|s| - 1])]
  }

  lemma {:induction false} MapAppend<A, B>(f: A -> B, a: seq<A>, b: seq<A>)
    ensures Map(f, a + b) == Map(f, a) + Map(f, b)
    decreases |b|
  {
    if b == [] {
      assert a + b == a;
    } else {
      var b0 := b[..|b| - 1];
      assert (a + b)[..|a + b| - 1] == a + b0;
      MapAppend(f, a, b0);
    }
  }

  /** The label and target of each link text. */
  function ParsedAll(toks: seq<string>): (r: seq<ChoiceParts>)
    ensures |r| == |toks|
  {
    Map(ParseChoice, toks)
  }

  /** The label and target of every link of the lines, line by line, left to right. */
  function ChoicesOf(lines: seq<string>): seq<ChoiceParts>
  {
    ParsedAll(LinesTokens(lines))
  }

  function Labels(cs: seq<ChoiceParts>): (r: seq<string>)
    ensures |r| == |cs| && forall k :: 0 <= k < |cs| ==> r[k] == cs[k].choiceText
  {
    seq(|cs|, k requires 0 <= k < |cs| => cs[k].choiceText)
  }

  function BranchId(title: string): string {
    title + "_branch"
  }

  /** The labels of all the links of a passage, in order. */
  function PassageLabels(p: ParsedPassage): seq<string> {
    Labels(ChoicesOf(p.lines))
  }

  /** The branch node: its text is the previous node's, its choices the given labels. */
  function BranchRecord(title: string, text: string, pos: Vec, labels: seq<string>): DialogueNodeData {
    DialogueNodeData(BranchId(title), "", text, "", pos, true, labels)
  }

  /** The nodes a passage starting at start becomes, in creation order. */
  function PassageRecords(p: ParsedPassage, start: Vec): (r: seq<DialogueNodeData>)
  {
    PassageRecordsFrom(p, LineTable(p), PassageLabels(p), FirstChoiceLine(p.lines), start)
  }

  /**
   * PassageRecords, with the line nodes taken from a table of them, the
   * branch's choices given and c the first line holding a link.
   */
  function PassageRecordsFrom(p: ParsedPassage, table: seq<DialogueNodeData>, labels: seq<string>, c: nat, start: Vec): (r: seq<DialogueNodeData>)
    requires |table| == |p.lines| && c <= |p.lines|
  {
    if p.lines == [] then [TitleRecord(p.title, start)]
    else
      var chain := ChainRecords(table, p.lines, c, start);
      if c == |p.lines| then chain
      else
        chain + [BranchRecord(p.title, BranchText(p.title, chain), ChainPos(start, |chain|), labels)]
  }

  /** The branch node shows the text of the node before it, or the title when it opens the passage. */
  function BranchText(title: string, chain: seq<DialogueNodeData>): string {
    if chain == [] then title else chain[|chain| - 1].dialogueText
  }

  /** A passage with a link line ends in its chain then the branch node. */
  lemma PassageRecordsBranch(p: ParsedPassage, table: seq<DialogueNodeData>, labels: seq<string>, c: nat, start: Vec,
                             chain: seq<DialogueNodeData>, branch: DialogueNodeData)
    requires c < |p.lines| == |table|
    requires chain == ChainRecords(table, p.lines, c, start)
    requires branch == BranchRecord(p.title, BranchText(p.title, chain), ChainPos(start, |chain|), labels)
    ensures PassageRecordsFrom(p, table, labels, c, start) == chain + [branch]
  {
  }

  function ChainLink(from: DialogueNodeData, to: DialogueNodeData): DialogueLinkData {
    DialogueLinkData(from.id, 0, to.id, 0)
  }

  /** Each node of a passage is linked from its predecessor's first output port. */
  function ChainLinks(rs: seq<DialogueNodeData>): (r: seq<DialogueLinkData>)
    ensures |r| == if rs == [] then 0 else |rs| - 1
    ensures forall k {:trigger r[k]} :: 0 <= k < |r| ==> r[k] == ChainLink(rs[k], rs[k + 1])
  {
    if |rs| <= 1 then [] else ChainLinks(rs[..|rs| - 1]) + [ChainLink(rs[|rs| - 2], rs[|rs| - 1])]
  }

  /** Choice k of a branch is linked only when its target is non-empty and names a created node. */
  function ChoiceLink(source: string, k: nat, nextId: string, ids: set<string>): seq<DialogueLinkData> {
    if nextId != "" && nextId in ids then [DialogueLinkData(source, k, nextId, 0)] else []
  }

  function ResolvedChoiceLinks(source: string, cs: seq<ChoiceParts>, ids: set<string>): seq<DialogueLinkData>
  {
    if cs == [] then []
    else ResolvedChoiceLinks(source, cs[..|cs| - 1], ids) + ChoiceLink(source, |cs| - 1, cs[|cs| - 1].nextId, ids)
  }

  function PassageChoiceLinks(p: ParsedPassage, ids: set<string>): seq<DialogueLinkData> {
    if HasBranch(p) then ResolvedChoiceLinks(BranchId(p.title), ChoicesOf(p.lines), ids) else []
  }

  // ------------------------------------------------------------ the whole import

  /** Passage i starts i steps below the origin. */
  function PassageStart(i: nat): Vec {
    Vec(100, 100 + 250 * i)
  }

  lemma NextPassageStart(i: nat)
    ensures PassageStart(i).Plus(PassageStep) == PassageStart(i + 1)
  {
  }

  function ImportedRecords(ps: seq<ParsedPassage>): seq<DialogueNodeData>
  {
    if ps == [] then []
    else ImportedRecords(ps[..|ps| - 1]) + PassageRecords(ps[|ps| - 1], PassageStart(|ps| - 1))
  }

  function ImportedChainLinks(ps: seq<ParsedPassage>): seq<DialogueLinkData>
  {
    if ps == [] then []
    else ImportedChainLinks(ps[..|ps| - 1]) + ChainLinks(PassageRecords(ps[|ps| - 1], PassageStart(|ps| - 1)))
  }

  function ImportedChoiceLinks(ps: seq<ParsedPassage>, ids: set<string>): seq<DialogueLinkData>
  {
    if ps == [] then [] else ImportedChoiceLinks(ps[..|ps| - 1], ids) + PassageChoiceLinks(ps[|ps| - 1], ids)
  }

  /** The passages of a Twine text: comments removed, then split and parsed. */
  function TwinePassages(twineText: string): seq<ParsedPassage> {
    ParsedPassages(PassageTexts(StripComments(twineText)))
  }

  /**
   * What importing twineText adds to the canvas, as the records a save
   * writes for it: every passage's nodes, then every passage's chain links,
   * then the choice links whose targets name an imported node.
   */
  function ImportedGraph(twineText: string): DialogueContainer {
    PassagesGraph(TwinePassages(twineText))
  }

  /** What building and connecting the passages ps adds to the canvas, as saved records. */
  function PassagesGraph(ps: seq<ParsedPassage>): DialogueContainer {
    var rs := ImportedRecords(ps);
    DialogueContainer(rs, ImportedChainLinks(ps) + ImportedChoiceLinks(ps, RecordIds(rs)))
  }

  // ------------------------------------------------------------ the importer

  /** A link of a branch waiting to be connected (ParsedChoice). */
  datatype ParsedChoice = ParsedChoice(choiceText: string, nextId: string, node: DialogueNode, portIndex: int)

  /** A passage with the choices its build collected (ParsedPassage.Choices once built). */
  datatype BuiltPassage = BuiltPassage(passage: ParsedPassage, choices: seq<ParsedChoice>)

  /** Choice k of the branch, waiting at port index k. */
  function PendingChoices(cs: seq<ChoiceParts>, branch: DialogueNode): (r: seq<ParsedChoice>)
    ensures |r| == |cs|
    ensures forall k :: 0 <= k < |cs| ==> r[k] == ParsedChoice(cs[k].choiceText, cs[k].nextId, branch, k)
  {
    seq(|cs|, k requires 0 <= k < |cs| => ParsedChoice(cs[k].choiceText, cs[k].nextId, branch, k))
  }

  function PassagesOf(bs: seq<BuiltPassage>): (r: seq<ParsedPassage>)
    ensures |r| == |bs| && forall j :: 0 <= j < |bs| ==> r[j] == bs[j].passage
  {
    seq(|bs|, j requires 0 <= j < |bs| => bs[j].passage)
  }

  /** The choices are those of the passage's branch, a node with one row per choice. */
  ghost predicate CollectedFrom(b: BuiltPassage)
    reads if b.choices == [] then {} else {b.choices[0].node}
  {
    Collected(b, HasBranch(b.passage))
  }

  /** CollectedFrom, with whether the passage has a branch given. */
  ghost predicate Collected(b: BuiltPassage, branched: bool)
    reads if b.choices == [] then {} else {b.choices[0].node}
  {
    if !branched then b.choices == []
    else
      var cs := ChoicesOf(b.passage.lines);
      && |b.choices| == |cs|
      && (b.choices != [] ==> b.choices[0].node.id == BranchId(b.passage.title) && WaitingAt(b.choices, cs, b.choices[0].node))
  }

  /** The choices wait at the well-formed branch n, one per output row, each for the target parsed at its index. */
  ghost predicate WaitingAt(choices: seq<ParsedChoice>, parts: seq<ChoiceParts>, n: DialogueNode)
    reads n
  {
    && n.Valid() && n.isBranch && |n.outputPorts| == |parts|
    && choices == PendingChoices(parts, n)
  }

  /** Every created node is filed under its own id and is well formed. */
  ghost predicate Registry(m: map<string, DialogueNode>)
    reads m.Values
  {
    forall id :: id in m ==> m[id].id == id && m[id].Valid()
  }

  /** The edge ConnectTo makes from `from`'s first output port to `to`'s first input port, if both exist. */
  function FirstPortsEdge(from: DialogueNode, to: DialogueNode): seq<Edge>
    reads from, to
  {
    var outs := from.OutputPortList();
    var ins := to.InputPortList();
    if |outs| > 0 && |ins| > 0 then [Edge(outs[0], ins[0])] else []
  }

  /** The edge between two consecutive nodes of a passage, from the first's first output row to the second's input. */
  ghost function ChainStep(a: DialogueNode, b: DialogueNode): seq<Edge>
    reads a, b
  {
    if |a.outputPorts| > 0 && b.inputPort != null then [Edge(a.outputPorts[0], b.inputPort)] else []
  }

  /** The edges that link each node of a passage to the next one. */
  ghost function ChainEdges(ns: seq<DialogueNode>): seq<Edge>
    reads ns
    decreases |ns|
  {
    if |ns| <= 1 then [] else ChainEdges(ns[..|ns| - 1]) + ChainStep(ns[|ns| - 2], ns[|ns| - 1])
  }

  /** The edge ConnectChoices makes for one choice, if its target is known and both ports exist. */
  function ChoiceEdge(c: ParsedChoice, m: map<string, DialogueNode>): seq<Edge>
    reads c.node, m.Values
  {
    if c.nextId == "" || c.nextId !in m then []
    else
      var outs := c.node.OutputPortList();
      var ins := m[c.nextId].InputPortList();
      if 0 <= c.portIndex < |outs| && |ins| > 0 then [Edge(outs[c.portIndex], ins[0])] else []
  }

  /** A well-formed node's input search finds its one input port. */
  lemma InputPortOf(n: DialogueNode)
    requires n.Valid()
    ensures n.InputPortList() == [n.inputPort] && IndexOf(n.InputPortList(), n.inputPort) == 0
  {
    SinglePorts(n.inputPort);
  }

  /** Between two chain nodes the edge always exists and is saved from port 0 to port 0. */
  lemma ChainEdgeSaved(a: DialogueNode, b: DialogueNode)
    requires a.Valid() && !a.isBranch && b.Valid()
    ensures FirstPortsEdge(a, b) == ChainStep(a, b) == [Edge(a.outputPorts[0], b.inputPort)]
    ensures LinkRecords(ChainStep(a, b)) == [ChainLink(NodeRecord(a), NodeRecord(b))]
  {
    PlainNodePorts(a);
    SavedPlainIndex(a);
    InputPortOf(b);
  }

  lemma ChainEdgesAppend(ns: seq<DialogueNode>, n: DialogueNode)
    ensures ChainEdges(ns + [n]) == ChainEdges(ns) + (if ns == [] then [] else ChainStep(ns[|ns| - 1], n))
  {
    assert (ns + [n])[..|ns|] == ns;
  }

  /** A passage's chain edges are saved as the chain links of its records. */
  lemma {:induction false} ChainEdgesSaved(ns: seq<DialogueNode>)
    requires forall k :: 0 <= k < |ns| ==> ns[k].Valid()
    requires forall k :: 0 <= k < |ns| - 1 ==> !ns[k].isBranch
    ensures LinkRecords(ChainEdges(ns)) == ChainLinks(NodeRecords(ns))
  {
    if |ns| > 1 {
      var init := ns[..|ns| - 1];
      var last := ns[|ns| - 1];
      assert ns == init + [last];
      ChainEdgesSaved(init);
      ChainEdgeSaved(ns[|ns| - 2], last);
      LinkRecordsAppend(ChainEdges(init), ChainStep(ns[|ns| - 2], last));
      NodeRecordsAppend(init, last);
      ChainLinksAppend(NodeRecords(init), NodeRecord(last));
    }
  }

  /** The chain edges of a passage's nodes, placed after well-formed nodes, are saved as the chain links of their records. */
  lemma PassageChainSaved(nodes0: seq<DialogueNode>, added: seq<DialogueNode>)
    requires AllValid(nodes0 + added)
    requires forall k :: 0 <= k < |added| - 1 ==> !added[k].isBranch
    ensures LinkRecords(ChainEdges(added)) == ChainLinks(NodeRecords(added))
  {
    forall k | 0 <= k < |added|
      ensures added[k].Valid()
    {
      assert (nodes0 + added)[|nodes0| + k] == added[k];
    }
    ChainEdgesSaved(added);
  }

  /**
   * The edge of choice k leaves the k-th port of the branch's port list,
   * which is the port of row |rows|-1-k; a save reads its index back as k.
   * It is made exactly when the target id is non-empty and known.
   */
  lemma ChoiceEdgeSaved(c: ParsedChoice, m: map<string, DialogueNode>)
    requires Registry(m)
    requires c.node.Valid() && c.node.isBranch && 0 <= c.portIndex < |c.node.outputPorts|
    ensures ChoiceEdge(c, m) != [] ==> ChoiceEdge(c, m)[0].output == c.node.outputPorts[|c.node.outputPorts| - 1 - c.portIndex]
    ensures LinkRecords(ChoiceEdge(c, m)) == ChoiceLink(c.node.id, c.portIndex, c.nextId, m.Keys)
  {
    var n := c.node;
    var row := |n.outputPorts| - 1 - c.portIndex;
    BranchRowPort(n, c.portIndex);
    if c.nextId != "" && c.nextId in m {
      var target := m[c.nextId];
      InputPortOf(target);
      var e := Edge(n.OutputPortList()[c.portIndex], target.inputPort);
      assert ChoiceEdge(c, m) == [e];
      assert e.output == n.outputPorts[row];
      assert LinkRecord(e) == DialogueLinkData(n.id, c.portIndex, c.nextId, 0);
    } else {
      assert ChoiceEdge(c, m) == [];
    }
  }

  /** Entry k of a branch's port list is the port of row |rows|-1-k, of that node, found again at k. */
  lemma BranchRowPort(n: DialogueNode, k: nat)
    requires n.Valid() && n.isBranch && k < |n.outputPorts|
    ensures |n.OutputPortList()| == |n.outputPorts|
    ensures n.OutputPortList()[k] == n.outputPorts[|n.outputPorts| - 1 - k]
    ensures n.OutputPortList()[k].node == n
    ensures IndexOf(n.OutputPortList(), n.OutputPortList()[k]) == k
  {
    BranchNodePorts(n);
    SavedBranchRowIndex(n, |n.outputPorts| - 1 - k);
  }

  lemma RegistryAdd(m: map<string, DialogueNode>, n: DialogueNode)
    requires Registry(m) && n.Valid()
    ensures Registry(m[n.id := n]) && m[n.id := n].Keys == m.Keys + {n.id}
  {
  }

  /** The last node of a passage so far; none before its first. */
  function LastOf(ns: seq<DialogueNode>): DialogueNode? {
    if ns == [] then null else ns[|ns| - 1]
  }

  /** The branch takes the text of the chain's last node, or the title when the chain is empty. */
  lemma LastText(title: string, ns: seq<DialogueNode>, last: DialogueNode?, text: string)
    requires last == LastOf(ns)
    requires text == if last != null then last.dialogueText else title
    ensures text == BranchText(title, NodeRecords(ns))
  {
    if last != null {
      assert NodeRecords(ns)[|ns| - 1] == NodeRecord(ns[|ns| - 1]);
    }
  }

  /** The created nodes after filing each of ns under its id in turn; a later node replaces an earlier one with the same id. */
  function Overlay(m: map<string, DialogueNode>, ns: seq<DialogueNode>): (r: map<string, DialogueNode>)
    reads ns
    decreases |ns|
  {
    if ns == [] then m else Overlay(m, ns[..|ns| - 1])[ns[|ns| - 1].id := ns[|ns| - 1]]
  }

  /**
   * A passage's nodes whose fields did not change keep their records, ids
   * and chain edges.
   * (Like every two-state lemma of this model it takes one parameter, a
   * tuple or record: with --warn-contradictory-assumptions, Dafny 4.11 fails
   * on a call to a two-state lemma with two or more parameters.)
   */
  twostate lemma {:induction false} ChainFrame(st: (map<string, DialogueNode>, seq<DialogueNode>))
    requires forall k :: 0 <= k < |st.1| ==> unchanged(st.1[k])
    ensures NodeRecords(st.1) == old(NodeRecords(st.1))
    ensures Overlay(st.0, st.1) == old(Overlay(st.0, st.1))
    ensures ChainEdges(st.1) == old(ChainEdges(st.1))
    decreases |st.1|
  {
    if st.1 != [] {
      ChainFrame((st.0, st.1[..|st.1| - 1]));
    }
  }

  lemma OverlayAppend(m: map<string, DialogueNode>, ns: seq<DialogueNode>, n: DialogueNode)
    ensures Overlay(m, ns + [n]) == Overlay(m, ns)[n.id := n]
  {
    assert (ns + [n])[..|ns|] == ns;
  }

  /** Filing adds exactly the ids of the filed nodes' records. */
  lemma {:induction false} OverlayKeys(m: map<string, DialogueNode>, ns: seq<DialogueNode>)
    ensures Overlay(m, ns).Keys == m.Keys + RecordIds(NodeRecords(ns))
  {
    if ns != [] {
      var init, last := ns[..|ns| - 1], ns[|ns| - 1];
      assert ns == init + [last];
      OverlayKeys(m, init);
      NodeRecordsAppend(init, last);
      RecordIdsAppend(NodeRecords(init), [NodeRecord(last)]);
    }
  }

  /** Filing well-formed nodes keeps every entry under its own id and well formed. */
  lemma {:induction false} OverlayRegistry(m: map<string, DialogueNode>, ns: seq<DialogueNode>)
    requires Registry(m) && forall k :: 0 <= k < |ns| ==> ns[k].Valid()
    ensures Registry(Overlay(m, ns))
  {
    if ns != [] {
      OverlayRegistry(m, ns[..|ns| - 1]);
      RegistryAdd(Overlay(m, ns[..|ns| - 1]), ns[|ns| - 1]);
    }
  }

  lemma RecordIdsAppend(rs: seq<DialogueNodeData>, more: seq<DialogueNodeData>)
    ensures RecordIds(rs + more) == RecordIds(rs) + RecordIds(more)
  {
    var all := rs + more;
    forall id | id in RecordIds(all)
      ensures id in RecordIds(rs) + RecordIds(more)
    {
      var k :| 0 <= k < |all| && all[k].id == id;
      if k >= |rs| {
        assert more[k - |rs|].id == id;
      }
    }
    forall id | id in RecordIds(rs)
      ensures id in RecordIds(all)
    {
      var k :| 0 <= k < |rs| && rs[k].id == id;
      assert all[k].id == id;
    }
    forall id | id in RecordIds(more)
      ensures id in RecordIds(all)
    {
      var k :| 0 <= k < |more| && more[k].id == id;
      assert all[|rs| + k].id == id;
    }
  }

  lemma NodeRecordsAppend(ns: seq<DialogueNode>, n: DialogueNode)
    ensures NodeRecords(ns + [n]) == NodeRecords(ns) + [NodeRecord(n)]
  {
  }

  lemma LinkRecordsAppend(a: seq<Edge>, b: seq<Edge>)
    ensures LinkRecords(a + b) == LinkRecords(a) + LinkRecords(b)
  {
    assert EdgeEnds(a) <= EdgeEnds(a + b) && EdgeEnds(b) <= EdgeEnds(a + b);
  }

  lemma ChainLinksAppend(rs: seq<DialogueNodeData>, r: DialogueNodeData)
    ensures ChainLinks(rs + [r]) == ChainLinks(rs) + (if rs == [] then [] else [ChainLink(rs[|rs| - 1], r)])
  {
  }

  /** One more line: a blank one adds nothing, any other adds its node one step right of the last. */
  lemma ChainRecordsStep(table: seq<DialogueNodeData>, lines: seq<string>, n: nat, start: Vec)
    requires n < |lines| == |table|
    ensures var before := ChainRecords(table, lines, n, start);
      ChainRecords(table, lines, n + 1, start) ==
        before + (if IsBlank(lines[n]) then [] else [table[n].(position := ChainPos(start, |before|))])
  {
    var before, after := ChainRecords(table, lines, n, start), ChainRecords(table, lines, n + 1, start);
    var cl, cl' := ChainLines(lines, n), ChainLines(lines, n + 1);
    forall k | 0 <= k < |cl|
      ensures after[k] == before[k]
    {
      assert cl'[k] == cl[k];
    }
    if !IsBlank(lines[n]) {
      assert cl'[|cl|] == n;
    }
  }

  /** The node of a non-blank line before the first link extends the chain records. */
  lemma ChainRecordsNext(table: seq<DialogueNodeData>, lines: seq<string>, start: Vec, i: nat,
                          recs: seq<DialogueNodeData>, r: DialogueNodeData)
    requires i < |lines| == |table| && !IsBlank(lines[i])
    requires recs == ChainRecords(table, lines, i, start)
    requires r == table[i].(position := ChainPos(start, |recs|))
    ensures recs + [r] == ChainRecords(table, lines, i + 1, start)
  {
    ChainRecordsStep(table, lines, i, start);
  }

  lemma ChoicesOfStep(lines: seq<string>, j: nat)
    requires j < |lines|
    ensures ChoicesOf(lines[..j + 1]) == ChoicesOf(lines[..j]) + ParsedAll(ChoiceTokens(lines[j], 0))
  {
    assert lines[..j + 1][..j] == lines[..j];
    ParsedAllAppend(LinesTokens(lines[..j]), ChoiceTokens(lines[j], 0));
  }

  lemma ParsedAllAppend(a: seq<string>, b: seq<string>)
    ensures ParsedAll(a + b) == ParsedAll(a) + ParsedAll(b)
  {
    MapAppend(ParseChoice, a, b);
  }

  lemma ParsedAllStep(toks: seq<string>, t: nat)
    requires t < |toks|
    ensures ParsedAll(toks[..t + 1]) == ParsedAll(toks[..t]) + [ParseChoice(toks[t])]
  {
    assert toks[..t + 1] == toks[..t] + [toks[t]];
    MapAppend(ParseChoice, toks[..t], [toks[t]]);
  }

  lemma ChoiceAppend(cs: seq<ChoiceParts>, c: ChoiceParts, branch: DialogueNode)
    ensures Labels(cs + [c]) == Labels(cs) + [c.choiceText]
    ensures PendingChoices(cs + [c], branch) == PendingChoices(cs, branch) + [ParsedChoice(c.choiceText, c.nextId, branch, |cs|)]
  {
  }

  /** The body of the match loop: one `[[...]]` inner text split into label and target. */
  method ReadChoice(raw: string) returns (parts: ChoiceParts)
    ensures parts == ParseChoice(raw)
  {
    var inner := Trim(raw);
    var choiceText, nextId := inner, inner;
    var arrowPos := IndexOfUnnested(inner, "->");
    if arrowPos >= 0 {
      choiceText := Trim(inner[..arrowPos]);
      nextId := Trim(inner[arrowPos + 2..]);
    } else {
      var arrowPos2 := IndexOfUnnested(inner, "<-");
      if arrowPos2 >= 0 {
        nextId := Trim(inner[..arrowPos2]);
        choiceText := Trim(inner[arrowPos2 + 2..]);
      }
    }
    assert ChoiceParts(choiceText, nextId) == SplitAtArrow(inner);
    choiceText := StripSurroundingQuotes(choiceText);
    nextId := StripSurroundingQuotes(nextId);
    parts := ChoiceParts(choiceText, nextId);
  }

  /** One choice per `[[...]]` match of every line, in order, each remembered with its port index. */
  method CollectChoices(branch: DialogueNode, lines: seq<string>) returns (choices: seq<ParsedChoice>)
    requires branch.Valid() && branch.isBranch && branch.choices == [] && branch.outputPorts == []
    modifies branch`choices, branch`outputContainer, branch`outputPorts
    ensures branch.Valid() && branch.choices == Labels(ChoicesOf(lines)) && |branch.outputPorts| == |branch.choices|
    ensures choices == PendingChoices(ChoicesOf(lines), branch)
  {
    choices := [];
    for j := 0 to |lines|
      invariant branch.Valid() && |branch.outputPorts| == |branch.choices|
      invariant branch.choices == Labels(ChoicesOf(lines[..j]))
      invariant choices == PendingChoices(ChoicesOf(lines[..j]), branch)
    {
      ChoicesOfStep(lines, j);
      choices := CollectLineChoices(branch, ChoiceTokens(lines[j], 0), ChoicesOf(lines[..j]), choices);
    }
    assert lines[..|lines|] == lines;
  }

  /** The matches of one line: each adds a choice row and a pending choice at the new row's index. */
  method CollectLineChoices(branch: DialogueNode, matches: seq<string>, ghost done: seq<ChoiceParts>,
                            choices0: seq<ParsedChoice>) returns (choices: seq<ParsedChoice>)
    requires branch.Valid() && branch.isBranch && |branch.outputPorts| == |branch.choices|
    requires branch.choices == Labels(done) && choices0 == PendingChoices(done, branch)
    modifies branch`choices, branch`outputContainer, branch`outputPorts
    ensures branch.Valid() && |branch.outputPorts| == |branch.choices|
    ensures branch.choices == Labels(done + ParsedAll(matches))
    ensures choices == PendingChoices(done + ParsedAll(matches), branch)
  {
    choices := choices0;
    for t := 0 to |matches|
      invariant branch.Valid() && |branch.outputPorts| == |branch.choices|
      invariant branch.choices == Labels(done + ParsedAll(matches[..t]))
      invariant choices == PendingChoices(done + ParsedAll(matches[..t]), branch)
    {
      ParsedAllStep(matches, t);
      assert done + ParsedAll(matches[..t + 1]) == (done + ParsedAll(matches[..t])) + [ParseChoice(matches[t])];
      choices := AddMatch(branch, matches[t], done + ParsedAll(matches[..t]), choices);
    }
    assert matches[..|matches|] == matches;
  }

  /** One match: its label becomes a new row, and the choice waits at that row's index. */
  method AddMatch(branch: DialogueNode, raw: string, ghost cur: seq<ChoiceParts>, choices0: seq<ParsedChoice>)
    returns (choices: seq<ParsedChoice>)
    requires branch.Valid() && branch.isBranch && |branch.outputPorts| == |branch.choices|
    requires branch.choices == Labels(cur) && choices0 == PendingChoices(cur, branch)
    modifies branch`choices, branch`outputContainer, branch`outputPorts
    ensures branch.Valid() && |branch.outputPorts| == |branch.choices|
    ensures branch.choices == Labels(cur + [ParseChoice(raw)])
    ensures choices == PendingChoices(cur + [ParseChoice(raw)], branch)
  {
    var parts := ReadChoice(raw);
    ChoiceAppend(cur, parts, branch);
    branch.AddChoice(parts.choiceText);
    choices := choices0 + [ParsedChoice(parts.choiceText, parts.nextId, branch, |branch.choices| - 1)];
  }

  // ------------------------------------------------------------ the whole import, step by step

  /** The edges ConnectChoices makes for a passage's choices, in order. */
  ghost function ChoiceEdges(cs: seq<ParsedChoice>, m: map<string, DialogueNode>): seq<Edge>
    reads set k | 0 <= k < |cs| :: cs[k].node, m.Values
  {
    if cs == [] then [] else ChoiceEdges(cs[..|cs| - 1], m) + ChoiceEdge(cs[|cs| - 1], m)
  }

  /** Choice edges whose nodes did not change stay the same. */
  twostate lemma {:induction false} ChoiceEdgesFrame(st: (seq<ParsedChoice>, map<string, DialogueNode>))
    requires forall k :: 0 <= k < |st.0| ==> unchanged(st.0[k].node)
    requires forall id :: id in st.1 ==> unchanged(st.1[id])
    ensures ChoiceEdges(st.0, st.1) == old(ChoiceEdges(st.0, st.1))
    decreases |st.0|
  {
    if st.0 != [] {
      ChoiceEdgesFrame((st.0[..|st.0| - 1], st.1));
    }
  }

  /** The edges ConnectChoices makes for all built passages, passage by passage. */
  ghost function BuiltChoiceEdges(bs: seq<BuiltPassage>, m: map<string, DialogueNode>): seq<Edge>
    reads set j, k | 0 <= j < |bs| && 0 <= k < |bs[j].choices| :: bs[j].choices[k].node, m.Values
  {
    if bs == [] then [] else BuiltChoiceEdges(bs[..|bs| - 1], m) + ChoiceEdges(bs[|bs| - 1].choices, m)
  }

  twostate lemma {:induction false} BuiltChoiceEdgesFrame(st: (seq<BuiltPassage>, map<string, DialogueNode>))
    requires forall j, k :: 0 <= j < |st.0| && 0 <= k < |st.0[j].choices| ==> unchanged(st.0[j].choices[k].node)
    requires forall id :: id in st.1 ==> unchanged(st.1[id])
    ensures BuiltChoiceEdges(st.0, st.1) == old(BuiltChoiceEdges(st.0, st.1))
    decreases |st.0|
  {
    if st.0 != [] {
      var last := st.0[|st.0| - 1];
      assert forall k :: 0 <= k < |last.choices| ==> unchanged(last.choices[k].node);
      BuiltChoiceEdgesFrame((st.0[..|st.0| - 1], st.1));
      ChoiceEdgesFrame((last.choices, st.1));
    }
  }

  lemma ChoiceEdgesStep(cs: seq<ParsedChoice>, k: nat, m: map<string, DialogueNode>)
    requires k < |cs|
    ensures ChoiceEdges(cs[..k + 1], m) == ChoiceEdges(cs[..k], m) + ChoiceEdge(cs[k], m)
  {
    assert cs[..k + 1][..k] == cs[..k];
  }

  lemma BuiltChoiceEdgesStep(bs: seq<BuiltPassage>, j: nat, m: map<string, DialogueNode>)
    requires j < |bs|
    ensures BuiltChoiceEdges(bs[..j + 1], m) == BuiltChoiceEdges(bs[..j], m) + ChoiceEdges(bs[j].choices, m)
  {
    assert bs[..j + 1][..j] == bs[..j];
  }

  /** The edges of the first k waiting choices are saved as the first k choice links of the branch. */
  lemma {:induction false} WaitingPrefixSaved(choices: seq<ParsedChoice>, parts: seq<ChoiceParts>, n: DialogueNode,
                                              m: map<string, DialogueNode>, k: nat)
    requires WaitingAt(choices, parts, n) && Registry(m) && k <= |choices|
    ensures LinkRecords(ChoiceEdges(choices[..k], m)) == ResolvedChoiceLinks(n.id, parts[..k], m.Keys)
    decreases k
  {
    if k > 0 {
      WaitingPrefixSaved(choices, parts, n, m, k - 1);
      ChoiceEdgeSaved(choices[k - 1], m);
      ChoiceEdgesStep(choices, k - 1, m);
      ChoiceLinksStep(n.id, parts, k - 1, m.Keys);
      LinkRecordsAppend(ChoiceEdges(choices[..k - 1], m), ChoiceEdge(choices[k - 1], m));
    }
  }

  /** A collected passage's choice edges are saved as its choice links. */
  lemma ChoiceEdgesSaved(b: BuiltPassage, m: map<string, DialogueNode>)
    requires CollectedFrom(b) && Registry(m)
    ensures LinkRecords(ChoiceEdges(b.choices, m)) == PassageChoiceLinks(b.passage, m.Keys)
  {
    if b.choices != [] {
      var cs, n := ChoicesOf(b.passage.lines), b.choices[0].node;
      assert HasBranch(b.passage) && WaitingAt(b.choices, cs, n) && n.id == BranchId(b.passage.title);
      WaitingSaved(b.choices, cs, n, m);
    }
  }

  /** The edges of all the waiting choices are saved as the branch's choice links. */
  lemma WaitingSaved(choices: seq<ParsedChoice>, parts: seq<ChoiceParts>, n: DialogueNode, m: map<string, DialogueNode>)
    requires WaitingAt(choices, parts, n) && Registry(m)
    ensures LinkRecords(ChoiceEdges(choices, m)) == ResolvedChoiceLinks(n.id, parts, m.Keys)
  {
    WaitingPrefixSaved(choices, parts, n, m, |choices|);
    assert choices[..|choices|] == choices;
    assert parts[..|parts|] == parts;
  }

  /** All built passages' choice edges are saved as the imported choice links. */
  lemma {:induction false} BuiltChoiceEdgesSaved(bs: seq<BuiltPassage>, m: map<string, DialogueNode>)
    requires AllCollected(bs) && Registry(m)
    ensures LinkRecords(BuiltChoiceEdges(bs, m)) == ImportedChoiceLinks(PassagesOf(bs), m.Keys)
  {
    if bs != [] {
      var init, last := bs[..|bs| - 1], bs[|bs| - 1];
      AllCollectedInit(bs);
      BuiltChoiceEdgesSaved(init, m);
      ChoiceEdgesSaved(last, m);
      LinkRecordsAppend(BuiltChoiceEdges(init, m), ChoiceEdges(last.choices, m));
      PassagesOfInit(bs);
    }
  }

  lemma AllCollectedInit(bs: seq<BuiltPassage>)
    requires AllCollected(bs) && bs != []
    ensures AllCollected(bs[..|bs| - 1]) && CollectedFrom(bs[|bs| - 1])
  {
    var init := bs[..|bs| - 1];
    forall j | 0 <= j < |init|
      ensures CollectedFrom(init[j])
    {
      assert init[j] == bs[j];
    }
  }

  lemma PassagesOfInit(bs: seq<BuiltPassage>)
    requires bs != []
    ensures PassagesOf(bs)[..|bs| - 1] == PassagesOf(bs[..|bs| - 1])
  {
  }

  /** Filing well-formed nodes from an empty map keeps each under its id, and the ids are those of their records. */
  lemma ImportedRegistry(m: map<string, DialogueNode>, nodes0: seq<DialogueNode>, added: seq<DialogueNode>)
    requires AllValid(nodes0 + added) && m == Overlay(map[], added)
    ensures Registry(m) && m.Keys == RecordIds(NodeRecords(added))
  {
    OverlayKeys(map[], added);
    forall k | 0 <= k < |added|
      ensures added[k].Valid()
    {
      AllValidAt(nodes0 + added, |nodes0| + k);
      assert (nodes0 + added)[|nodes0| + k] == added[k];
    }
    OverlayRegistry(map[], added);
  }

  /** The branch nodes the built passages' choices leave from. */
  function ChoiceNodes(bs: seq<BuiltPassage>): set<DialogueNode> {
    set j | 0 <= j < |bs| && bs[j].choices != [] :: bs[j].choices[0].node
  }

  /** Every built passage collected the choices of its branch. */
  ghost predicate AllCollected(bs: seq<BuiltPassage>)
    reads ChoiceNodes(bs)
  {
    forall j :: 0 <= j < |bs| ==> CollectedFrom(bs[j])
  }

  /** Choice k of a collected passage waits at port k of the passage's branch for the k-th parsed target. */
  lemma CollectedChoice(b: BuiltPassage, k: nat)
    requires CollectedFrom(b) && k < |b.choices|
    ensures var cs, c := ChoicesOf(b.passage.lines), b.choices[k];
      && HasBranch(b.passage) && k < |cs| && c.node == b.choices[0].node
      && c.node.Valid() && c.node.isBranch && c.node.id == BranchId(b.passage.title) && |c.node.outputPorts| == |cs|
      && c.portIndex == k && c.nextId == cs[k].nextId
  {
  }

  /** Built passages whose branch nodes did not change stay collected. */
  twostate lemma AllCollectedFrame(bs: seq<BuiltPassage>)
    requires old(AllCollected(bs))
    requires forall j :: 0 <= j < |bs| && bs[j].choices != [] ==> unchanged(bs[j].choices[0].node)
    ensures AllCollected(bs)
  {
    forall j | 0 <= j < |bs|
      ensures CollectedFrom(bs[j])
    {
      assert old(CollectedFrom(bs[j]));
    }
  }

  /** Earlier passages' nodes keep their records and filing, their chain edges their records, and their branches stay collected. */
  twostate predicate EarlierKept(st: (seq<DialogueNode>, seq<Edge>, seq<BuiltPassage>))
    reads st.0, EdgeEnds(st.1), ChoiceNodes(st.2)
  {
    && NodeRecords(st.0) == old(NodeRecords(st.0)) && Overlay(map[], st.0) == old(Overlay(map[], st.0))
    && LinkRecords(st.1) == old(LinkRecords(st.1))
    && (old(AllCollected(st.2)) ==> AllCollected(st.2))
  }

  /** Earlier passages whose nodes did not change are kept. */
  twostate lemma EarlierPassagesKept(st: (seq<DialogueNode>, seq<Edge>, seq<BuiltPassage>))
    requires forall k :: 0 <= k < |st.0| ==> unchanged(st.0[k])
    requires EdgesAmong(st.1, st.0) && BranchesAmong(st.2, st.0)
    ensures EarlierKept(st)
  {
    forall n | n in st.0
      ensures unchanged(n)
    {
      var k :| 0 <= k < |st.0| && st.0[k] == n;
    }
    ChainFrame((map[], st.0));
    LinkRecordsFrame(st.1);
    if old(AllCollected(st.2)) {
      AllCollectedFrame(st.2);
    }
  }


  lemma AllCollectedAppend(bs: seq<BuiltPassage>, b: BuiltPassage)
    requires AllCollected(bs) && CollectedFrom(b)
    ensures AllCollected(bs + [b])
  {
    var all := bs + [b];
    forall j | 0 <= j < |all|
      ensures CollectedFrom(all[j])
    {
      if j < |bs| {
        assert all[j] == bs[j];
      }
    }
  }

  lemma PassagesOfAppend(bs: seq<BuiltPassage>, b: BuiltPassage, ps: seq<ParsedPassage>, i: nat)
    requires i < |ps| && PassagesOf(bs) == ps[..i] && b.passage == ps[i]
    ensures PassagesOf(bs + [b]) == ps[..i + 1]
  {
  }

  /** One more passage adds its records, its chain links and its choice links after those of the ones before. */
  lemma ImportedStep(ps: seq<ParsedPassage>, i: nat, ids: set<string>)
    requires i < |ps|
    ensures ImportedRecords(ps[..i + 1]) == ImportedRecords(ps[..i]) + PassageRecords(ps[i], PassageStart(i))
    ensures ImportedChainLinks(ps[..i + 1]) == ImportedChainLinks(ps[..i]) + ChainLinks(PassageRecords(ps[i], PassageStart(i)))
    ensures ImportedChoiceLinks(ps[..i + 1], ids) == ImportedChoiceLinks(ps[..i], ids) + PassageChoiceLinks(ps[i], ids)
  {
    assert ps[..i + 1][..i] == ps[..i];
  }

  lemma ChoiceLinksStep(source: string, cs: seq<ChoiceParts>, k: nat, ids: set<string>)
    requires k < |cs|
    ensures ResolvedChoiceLinks(source, cs[..k + 1], ids) == ResolvedChoiceLinks(source, cs[..k], ids) + ChoiceLink(source, k, cs[k].nextId, ids)
  {
    assert cs[..k + 1][..k] == cs[..k];
  }

  lemma {:induction false} NodeRecordsConcat(a: seq<DialogueNode>, b: seq<DialogueNode>)
    ensures NodeRecords(a + b) == NodeRecords(a) + NodeRecords(b)
  {
    var r := NodeRecords(a + b);
    assert forall k :: 0 <= k < |a| ==> r[k] == NodeRecord(a[k]);
    assert forall k :: 0 <= k < |b| ==> r[|a| + k] == NodeRecord(b[k]);
  }

  lemma {:induction false} OverlayConcat(m: map<string, DialogueNode>, a: seq<DialogueNode>, b: seq<DialogueNode>)
    ensures Overlay(m, a + b) == Overlay(Overlay(m, a), b)
    decreases |b|
  {
    if b == [] {
      assert a + b == a;
    } else {
      var init, last := b[..|b| - 1], b[|b| - 1];
      assert a + b == (a + init) + [last];
      OverlayAppend(m, a + init, last);
      OverlayConcat(m, a, init);
      assert b == init + [last];
      OverlayAppend(Overlay(m, a), init, last);
    }
  }

  /** Edges whose end nodes did not change keep their records. */
  twostate lemma {:induction false} LinkRecordsFrame(es: seq<Edge>)
    requires forall e :: e in es ==> unchanged(e.output.node) && unchanged(e.input.node)
    ensures LinkRecords(es) == old(LinkRecords(es))
    decreases |es|
  {
    if es != [] {
      LinkRecordsFrame(es[..|es| - 1]);
    }
  }

  // ------------------------------------------------------------ where the imported edges run

  /** Every edge of es leaves from and enters one of the nodes ns. */
  ghost predicate EdgesAmong(es: seq<Edge>, ns: seq<DialogueNode>) {
    forall e :: e in es ==> e.output.node in ns && e.input.node in ns
  }

  /** Every edge of es enters the node m files under that node's id, the one a lookup of the target id finds. */
  ghost predicate EntersFiled(es: seq<Edge>, m: map<string, DialogueNode>)
    reads EdgeEnds(es)
  {
    forall e :: e in es ==> e.input.node.id in m && m[e.input.node.id] == e.input.node
  }

  /** The choices of each built passage, if any, leave from one of the nodes ns. */
  ghost predicate BranchesAmong(bs: seq<BuiltPassage>, ns: seq<DialogueNode>) {
    forall j :: 0 <= j < |bs| && bs[j].choices != [] ==> bs[j].choices[0].node in ns
  }

  /** The nodes after the first ones of a well-formed canvas are well formed. */
  lemma TailValid(front: seq<DialogueNode>, ns: seq<DialogueNode>)
    requires AllValid(front + ns)
    ensures forall k :: 0 <= k < |ns| ==> ns[k].Valid()
  {
    forall k | 0 <= k < |ns|
      ensures ns[k].Valid()
    {
      AllValidAt(front + ns, |front| + k);
      assert (front + ns)[|front| + k] == ns[k];
    }
  }

  /** A passage's chain edges run between its own nodes. */
  lemma {:induction false} ChainEdgesAmong(ns: seq<DialogueNode>)
    requires forall k :: 0 <= k < |ns| ==> ns[k].Valid()
    ensures EdgesAmong(ChainEdges(ns), ns)
    decreases |ns|
  {
    if |ns| > 1 {
      var init := ns[..|ns| - 1];
      ChainEdgesAmong(init);
      assert forall n :: n in init ==> n in ns;
    }
  }

  /** Every node Overlay files, starting from nothing, is one of the filed nodes. */
  lemma {:induction false} OverlayFrom(ns: seq<DialogueNode>)
    ensures forall id :: id in Overlay(map[], ns) ==> Overlay(map[], ns)[id] in ns
    decreases |ns|
  {
    if ns != [] {
      OverlayFrom(ns[..|ns| - 1]);
    }
  }

  /** A choice edge leaves from the choice's branch and enters the node filed under the target id. */
  lemma ChoiceEdgeEnds(c: ParsedChoice, m: map<string, DialogueNode>)
    requires Registry(m)
    requires c.node.Valid() && c.node.isBranch && 0 <= c.portIndex < |c.node.outputPorts|
    ensures forall e :: e in ChoiceEdge(c, m) ==> e.output.node == c.node
    ensures EntersFiled(ChoiceEdge(c, m), m)
  {
    if c.nextId != "" && c.nextId in m {
      BranchRowPort(c.node, c.portIndex);
      InputPortOf(m[c.nextId]);
    }
  }

  /** The edges of the first k waiting choices leave from the branch and enter filed nodes. */
  lemma {:induction false} WaitingEdgesEnds(choices: seq<ParsedChoice>, parts: seq<ChoiceParts>, n: DialogueNode,
                                            m: map<string, DialogueNode>, k: nat)
    requires WaitingAt(choices, parts, n) && Registry(m) && k <= |choices|
    ensures forall e :: e in ChoiceEdges(choices[..k], m) ==> e.output.node == n
    ensures EntersFiled(ChoiceEdges(choices[..k], m), m)
    decreases k
  {
    if k > 0 {
      WaitingEdgesEnds(choices, parts, n, m, k - 1);
      ChoiceEdgesStep(choices, k - 1, m);
      ChoiceEdgeEnds(choices[k - 1], m);
    }
  }

  /** A collected passage's choice edges leave from its branch and enter filed nodes. */
  lemma CollectedEdgesEnds(b: BuiltPassage, m: map<string, DialogueNode>)
    requires CollectedFrom(b) && Registry(m) && b.choices != []
    ensures forall e :: e in ChoiceEdges(b.choices, m) ==> e.output.node == b.choices[0].node
    ensures EntersFiled(ChoiceEdges(b.choices, m), m)
  {
    var cs, n := ChoicesOf(b.passage.lines), b.choices[0].node;
    assert WaitingAt(b.choices, cs, n);
    WaitingEdgesEnds(b.choices, cs, n, m, |b.choices|);
    assert b.choices[..|b.choices|] == b.choices;
  }

  /** The choice edges of built passages leave from their branches and enter the nodes filed under their targets. */
  lemma {:induction false} BuiltChoiceEdgesEnds(bs: seq<BuiltPassage>, m: map<string, DialogueNode>)
    requires AllCollected(bs) && Registry(m)
    ensures forall e :: e in BuiltChoiceEdges(bs, m) ==> e.output.node in ChoiceNodes(bs)
    ensures EntersFiled(BuiltChoiceEdges(bs, m), m)
  {
    if bs != [] {
      var init, last := bs[..|bs| - 1], bs[|bs| - 1];
      AllCollectedInit(bs);
      BuiltChoiceEdgesEnds(init, m);
      assert ChoiceNodes(init) <= ChoiceNodes(bs) by {
        forall n | n in ChoiceNodes(init)
          ensures n in ChoiceNodes(bs)
        {
          var j :| 0 <= j < |init| && init[j].choices != [] && init[j].choices[0].node == n;
          assert bs[j] == init[j];
        }
      }
      if last.choices != [] {
        CollectedEdgesEnds(last, m);
        assert last.choices[0].node in ChoiceNodes(bs);
      }
    }
  }

  /** Chain edges among the imported nodes and choice edges from their branches into filed nodes all run among them. */
  lemma ImportedEdgesAmong(added: seq<DialogueNode>, chain: seq<Edge>, built: seq<BuiltPassage>, choiceEdges: seq<Edge>)
    requires EdgesAmong(chain, added) && BranchesAmong(built, added)
    requires forall e :: e in choiceEdges ==> e.output.node in ChoiceNodes(built)
    requires EntersFiled(choiceEdges, Overlay(map[], added))
    ensures EdgesAmong(chain + choiceEdges, added)
  {
    OverlayFrom(added);
  }

  class TwineImporter {
    const graphView: GraphView
    /** The nodes made so far, by id; a later node with the same id replaces an earlier one. */
    var createdNodes: map<string, DialogueNode>
    /** Where the next passage starts. */
    var startPos: Vec

    constructor (graphView: GraphView)
      ensures this.graphView == graphView && createdNodes == map[] && startPos == ImportOrigin
    {
      this.graphView := graphView;
      createdNodes := map[];
      startPos := ImportOrigin;
    }

    /**
     * Imports a Twine file into the canvas; a missing file (None) changes
     * nothing.  Reading the file is left to the caller.
     */
    static method ImportToGraph(file: Option<string>, graphView: GraphView)
      returns (ghost added: seq<DialogueNode>, ghost chain: seq<Edge>, ghost choiceEdges: seq<Edge>)
      requires graphView.Valid()
      modifies graphView`nodes, graphView`edges
      ensures graphView.Valid()
      ensures graphView.nodes == old(graphView.nodes) + added && graphView.edges == old(graphView.edges) + chain + choiceEdges
      ensures file == None ==> added == [] && chain == [] && choiceEdges == []
      ensures file.Some? ==> DialogueContainer(NodeRecords(added), LinkRecords(chain + choiceEdges)) == ImportedGraph(file.value)
      ensures EdgesAmong(chain + choiceEdges, added) && EntersFiled(choiceEdges, Overlay(map[], added))
    {
      added, chain, choiceEdges := [], [], [];
      if file.Some? {
        var importer := new TwineImporter(graphView);
        added, chain, choiceEdges := importer.Import(file.value);
      }
    }

    /**
     * Removes comments, parses the passages, builds every passage from the
     * origin down, then connects the choices.  The canvas gains exactly the
     * nodes and links ImportedGraph describes: the chain edges, then the
     * choice edges.  Every new edge runs between new nodes, and a choice
     * edge enters the last new node filed under its target id.
     */
    method Import(twineText: string) returns (ghost added: seq<DialogueNode>, ghost chain: seq<Edge>, ghost choiceEdges: seq<Edge>)
      requires graphView.Valid()
      modifies this`createdNodes, this`startPos, graphView`nodes, graphView`edges
      ensures graphView.Valid()
      ensures graphView.nodes == old(graphView.nodes) + added && graphView.edges == old(graphView.edges) + chain + choiceEdges
      ensures DialogueContainer(NodeRecords(added), LinkRecords(chain + choiceEdges)) == ImportedGraph(twineText)
      ensures EdgesAmong(chain + choiceEdges, added) && EntersFiled(choiceEdges, Overlay(map[], added))
    {
      var text := StripComments(twineText);
      var passages := ParsePassages(text);
      Reset();
      added, chain, choiceEdges := ImportPassages(passages);
    }

    /** Forgets the nodes of any earlier import and starts again at the origin; the canvas is left as it is. */
    method Reset()
      requires graphView.Valid()
      modifies this`createdNodes, this`startPos
      ensures createdNodes == map[] && startPos == ImportOrigin
      ensures graphView.Valid() && graphView.nodes == old(graphView.nodes) && graphView.edges == old(graphView.edges)
    {
      label Start:
      createdNodes := map[];
      startPos := ImportOrigin;
      CanvasFrame@Start(graphView);
    }

    /** The passages built from the origin down, then their choices connected. */
    method ImportPassages(passages: seq<ParsedPassage>) returns (ghost added: seq<DialogueNode>, ghost chain: seq<Edge>, ghost choiceEdges: seq<Edge>)
      requires graphView.Valid() && createdNodes == map[] && startPos == ImportOrigin
      requires forall j :: 0 <= j < |passages| ==> passages[j].title != ""
      modifies this`createdNodes, this`startPos, graphView`nodes, graphView`edges
      ensures graphView.Valid()
      ensures graphView.nodes == old(graphView.nodes) + added && graphView.edges == old(graphView.edges) + chain + choiceEdges
      ensures DialogueContainer(NodeRecords(added), LinkRecords(chain + choiceEdges)) == PassagesGraph(passages)
      ensures EdgesAmong(chain + choiceEdges, added) && EntersFiled(choiceEdges, Overlay(map[], added))
    {
      ghost var nodes0, edges0 := graphView.nodes, graphView.edges;
      var built;
      built, added, chain := BuildPassages(passages);
      assert passages[..|passages|] == passages;
      ImportedRegistry(createdNodes, nodes0, added);
      BuiltChoiceEdgesEnds(built, createdNodes);
      choiceEdges := ConnectBuiltChoices(built, added, chain);
      LinkRecordsAppend(chain, choiceEdges);
      ImportedEdgesAmong(added, chain, built, choiceEdges);
    }

    /**
     * ConnectChoices after the build: its edges save as the imported choice
     * links, and the nodes and chain edges already placed are left as they were.
     */
    method ConnectBuiltChoices(built: seq<BuiltPassage>, ghost added: seq<DialogueNode>, ghost chain: seq<Edge>)
      returns (ghost choiceEdges: seq<Edge>)
      requires AllCollected(built) && Registry(createdNodes) && graphView.Valid()
      modifies graphView`edges
      ensures graphView.Valid() && graphView.edges == old(graphView.edges) + choiceEdges
      ensures LinkRecords(choiceEdges) == ImportedChoiceLinks(PassagesOf(built), createdNodes.Keys)
      ensures choiceEdges == old(BuiltChoiceEdges(built, createdNodes))
      ensures NodeRecords(added) == old(NodeRecords(added)) && LinkRecords(chain) == old(LinkRecords(chain))
    {
      BuiltChoiceEdgesSaved(built, createdNodes);
      choiceEdges := BuiltChoiceEdges(built, createdNodes);
      label Before:
      ConnectChoices(built);
      BuiltChoiceEdgesFrame@Before((built, createdNodes));
      LinkRecordsFrame@Before(choiceEdges);
      LinkRecordsFrame@Before(chain);
      ChainFrame@Before((map[], added));
    }

    /** The loop of Import over the passages; each passage starts one step below the one before. */
    method BuildPassages(passages: seq<ParsedPassage>) returns (built: seq<BuiltPassage>, ghost added: seq<DialogueNode>, ghost chain: seq<Edge>)
      requires graphView.Valid() && createdNodes == map[] && startPos == ImportOrigin
      requires forall j :: 0 <= j < |passages| ==> passages[j].title != ""
      modifies this`createdNodes, this`startPos, graphView`nodes, graphView`edges
      ensures Imported(passages, |passages|, old(graphView.nodes), old(graphView.edges), built, added, chain)
    {
      built, added, chain := [], [], [];
      ghost var nodes0, edges0 := graphView.nodes, graphView.edges;
      assert passages[..0] == [];
      var i := 0;
      while i < |passages|
        invariant Imported(passages, i, nodes0, edges0, built, added, chain)
      {
        built, added, chain := BuildNext(passages, i, nodes0, edges0, built, added, chain);
        i := i + 1;
      }
    }

    /**
     * The first i passages imported: their nodes follow the canvas's
     * earlier ones and save as their records, their chain edges save as
     * their chain links, and every built passage collected its choices.
     */
    ghost predicate Imported(ps: seq<ParsedPassage>, i: nat, nodes0: seq<DialogueNode>, edges0: seq<Edge>,
                             built: seq<BuiltPassage>, added: seq<DialogueNode>, chain: seq<Edge>)
      reads this`createdNodes, this`startPos, graphView`nodes, graphView`edges, graphView.nodes, added, EdgeEnds(chain), ChoiceNodes(built)
    {
      && i <= |ps| && graphView.Valid()
      && graphView.nodes == nodes0 + added && graphView.edges == edges0 + chain
      && createdNodes == Overlay(map[], added) && startPos == PassageStart(i)
      && NodeRecords(added) == ImportedRecords(ps[..i]) && LinkRecords(chain) == ImportedChainLinks(ps[..i])
      && PassagesOf(built) == ps[..i] && AllCollected(built)
      && EdgesAmong(chain, added) && BranchesAmong(built, added)
    }

    /** One iteration of BuildPassages: BuildPassageGraph for passage i. */
    method BuildNext(ps: seq<ParsedPassage>, i: nat, ghost nodes0: seq<DialogueNode>, ghost edges0: seq<Edge>,
                     built: seq<BuiltPassage>, ghost added: seq<DialogueNode>, ghost chain: seq<Edge>)
      returns (built': seq<BuiltPassage>, ghost added': seq<DialogueNode>, ghost chain': seq<Edge>)
      requires i < |ps| && ps[i].title != "" && Imported(ps, i, nodes0, edges0, built, added, chain)
      modifies this`createdNodes, this`startPos, graphView`nodes, graphView`edges
      ensures Imported(ps, i + 1, nodes0, edges0, built', added', chain')
    {
      var b;  ghost var more;
      b, more := BuildKeeping(ps[i], added, chain, built);
      added', chain', built' := added + more, chain + ChainEdges(more), built + [b];
      ImportedNext(ps, i, nodes0, edges0, built, added, chain, b, more);
    }

    /** BuildPassageGraph, which leaves the nodes and edges of earlier passages as they were. */
    method BuildKeeping(p: ParsedPassage, ghost added: seq<DialogueNode>, ghost chain: seq<Edge>, ghost built: seq<BuiltPassage>)
      returns (b: BuiltPassage, ghost more: seq<DialogueNode>)
      requires p.title != "" && graphView.Valid()
      requires EdgesAmong(chain, added) && BranchesAmong(built, added) && AllCollected(built)
      modifies this`createdNodes, this`startPos, graphView`nodes, graphView`edges
      ensures PassageBuilt(PassageRecords(p, old(startPos)), old(graphView.nodes), more, old(graphView.edges), old(createdNodes))
      ensures startPos == old(startPos).Plus(PassageStep) && b.passage == p
      ensures EarlierKept((added, chain, built)) && CollectedFrom(b)
      ensures b.choices != [] ==> b.choices[0].node in more
    {
      label Before:
      b, more := BuildPassageGraph(p);
      EarlierPassagesKept@Before((added, chain, built));
    }

    /** Passage i built after the first i imported: the first i + 1 are imported. */
    lemma ImportedNext(ps: seq<ParsedPassage>, i: nat, nodes0: seq<DialogueNode>, edges0: seq<Edge>,
                       built: seq<BuiltPassage>, added: seq<DialogueNode>, chain: seq<Edge>, b: BuiltPassage, more: seq<DialogueNode>)
      requires i < |ps| && b.passage == ps[i] && startPos == PassageStart(i).Plus(PassageStep)
      requires PassageBuilt(PassageRecords(ps[i], PassageStart(i)), nodes0 + added, more, edges0 + chain, Overlay(map[], added))
      requires NodeRecords(added) == ImportedRecords(ps[..i]) && LinkRecords(chain) == ImportedChainLinks(ps[..i])
      requires PassagesOf(built) == ps[..i] && AllCollected(built) && CollectedFrom(b)
      requires EdgesAmong(chain, added) && BranchesAmong(built, added) && (b.choices != [] ==> b.choices[0].node in more)
      ensures Imported(ps, i + 1, nodes0, edges0, built + [b], added + more, chain + ChainEdges(more))
    {
      AllCollectedAppend(built, b);
      AppendAssoc(nodes0, added, more);
      AppendAssoc(edges0, chain, ChainEdges(more));
      OverlayConcat(map[], added, more);
      ImportedStep(ps, i, {});
      NodeRecordsConcat(added, more);
      LinkRecordsAppend(chain, ChainEdges(more));
      PassagesOfAppend(built, b, ps, i);
      NextPassageStart(i);
      TailValid(nodes0 + added, more);
      ChainEdgesAmong(more);
      assert BranchesAmong(built + [b], added + more) by {
        forall j | 0 <= j < |built| + 1 && (built + [b])[j].choices != []
          ensures (built + [b])[j].choices[0].node in added + more
        {
          if j < |built| {
            assert (built + [b])[j] == built[j];
          }
        }
      }
    }

    /** Connects the choices of every built passage, in order. */
    method ConnectChoices(built: seq<BuiltPassage>)
      modifies graphView`edges
      ensures graphView.edges == old(graphView.edges) + BuiltChoiceEdges(built, createdNodes)
    {
      ghost var edges0 := graphView.edges;
      for j := 0 to |built|
        invariant graphView.edges == edges0 + BuiltChoiceEdges(built[..j], createdNodes)
      {
        ConnectPassageAt(built, j, edges0);
      }
      assert built[..|built|] == built;
    }

    /** One iteration of ConnectChoices: the choices of passage j follow those of the passages before. */
    method ConnectPassageAt(built: seq<BuiltPassage>, j: nat, ghost edges0: seq<Edge>)
      requires j < |built| && graphView.edges == edges0 + BuiltChoiceEdges(built[..j], createdNodes)
      modifies graphView`edges
      ensures graphView.edges == edges0 + BuiltChoiceEdges(built[..j + 1], createdNodes)
    {
      label Before:
      ConnectPassageChoices(built[j]);
      BuiltChoiceEdgesFrame@Before((built[..j], createdNodes));
      BuiltChoiceEdgesStep(built, j, createdNodes);
      AppendAssoc(edges0, BuiltChoiceEdges(built[..j], createdNodes), ChoiceEdges(built[j].choices, createdNodes));
    }

    /** The inner loop of ConnectChoices: the choices of one passage's branch, by port index. */
    method ConnectPassageChoices(b: BuiltPassage)
      modifies graphView`edges
      ensures graphView.edges == old(graphView.edges) + ChoiceEdges(b.choices, createdNodes)
    {
      for k := 0 to |b.choices|
        invariant graphView.edges == old(graphView.edges) + ChoiceEdges(b.choices[..k], createdNodes)
      {
        label Before:
        ConnectChoice(b.choices[k]);
        ChoiceEdgesFrame@Before((b.choices[..k], createdNodes));
        ChoiceEdgesStep(b.choices, k, createdNodes);
        AppendAssoc(old(graphView.edges), ChoiceEdges(b.choices[..k], createdNodes), ChoiceEdge(b.choices[k], createdNodes));
      }
      assert b.choices[..|b.choices|] == b.choices;
    }

    /** One choice: linked from its port to the target's input when the target id is known and both ports exist. */
    method ConnectChoice(c: ParsedChoice)
      modifies graphView`edges
      ensures graphView.edges == old(graphView.edges) + ChoiceEdge(c, createdNodes)
    {
      if c.nextId != "" && c.nextId in createdNodes {
        var target := createdNodes[c.nextId];
        var outPorts := c.node.GetOutputPorts();
        if 0 <= c.portIndex < |outPorts| {
          var inPorts := target.GetInputPorts();
          if |inPorts| > 0 {
            graphView.AddEdge(Edge(outPorts[c.portIndex], inPorts[0]));
          }
        }
      }
    }

    /**
     * CreateDialogueNode(pos) then LoadData for a passage without lines.  A
     * node is finished before it joins the canvas; nothing reads the canvas
     * in between.
     */
    static method NewTitleNode(title: string, pos: Vec, guid: string) returns (node: DialogueNode)
      requires title != "" && guid != ""
      ensures fresh(node) && node.Valid() && node.hasIdValidator && !node.isBranch
      ensures NodeRecord(node) == TitleRecord(title, pos)
    {
      node := NewLoadedNode(false, guid, pos, "", title, title);
    }

    /** CreateDialogueNode(pos) or CreateBranchNode(pos), then LoadData with no function name. */
    static method NewLoadedNode(isBranch: bool, guid: string, pos: Vec, speaker: string, text: string, id: string)
      returns (node: DialogueNode)
      requires guid != "" && id != ""
      ensures fresh(node) && node.Valid() && node.hasIdValidator && node.isBranch == isBranch
      ensures node.choices == [] && |node.outputPorts| == (if isBranch then 0 else 1)
      ensures NodeRecord(node) == DialogueNodeData(id, speaker, text, "", pos, isBranch, [])
    {
      node := NewPlacedNode(isBranch, guid, pos);
      node.LoadData(speaker, text, "", id);
    }

    /** The chain node of line i: line 0 takes the title, a later line its speaker and text. */
    static method NewLineNode(title: string, line: string, i: nat, pos: Vec, guid: string) returns (node: DialogueNode)
      requires title != "" && guid != ""
      ensures fresh(node) && node.Valid() && node.hasIdValidator && !node.isBranch
      ensures NodeRecord(node) == LineRecord(title, line, i, pos)
    {
      var speaker := LineSpeaker(line);
      var dialogue := LineDialogue(line);
      if i == 0 {
        node := NewLoadedNode(false, guid, pos, "", title, title);
      } else {
        node := NewLoadedNode(false, guid, pos, speaker, dialogue, title + "_line" + NatToString(i));
      }
    }

    /** CreateBranchNode(pos), LoadData, ClearChoices, then the choices of every line. */
    static method NewBranch(p: ParsedPassage, text: string, pos: Vec, guid: string)
      returns (branch: DialogueNode, choices: seq<ParsedChoice>)
      requires p.title != "" && guid != ""
      ensures fresh(branch) && branch.Valid() && branch.hasIdValidator && branch.isBranch
      ensures |branch.outputPorts| == |ChoicesOf(p.lines)|
      ensures NodeRecord(branch) == BranchRecord(p.title, text, pos, PassageLabels(p))
      ensures choices == PendingChoices(ChoicesOf(p.lines), branch)
      ensures Collected(BuiltPassage(p, choices), true)
    {
      branch := NewEmptyBranch(text, BranchId(p.title), pos, guid);
      choices := CollectChoices(branch, p.lines);
    }

    /** CreateBranchNode(pos), LoadData and ClearChoices: a branch without rows. */
    static method NewEmptyBranch(text: string, id: string, pos: Vec, guid: string) returns (branch: DialogueNode)
      requires id != "" && guid != ""
      ensures fresh(branch) && branch.Valid() && branch.hasIdValidator && branch.isBranch
      ensures branch.choices == [] && branch.outputPorts == []
      ensures branch.id == id && branch.speaker == "" && branch.dialogueText == text
      ensures branch.functionName == "" && branch.position == pos
    {
      branch := NewPlacedNode(true, guid, pos);
      branch.LoadData("", text, "", id);
      assert branch.Valid();
      branch.ClearChoices();
    }

    /** Port.ConnectTo and AddElement for the first ports of two nodes, when both have one. */
    method ConnectFirstPorts(from: DialogueNode, to: DialogueNode)
      modifies graphView`edges
      ensures graphView.edges == old(graphView.edges) + FirstPortsEdge(from, to)
    {
      var outPorts := from.GetOutputPorts();
      var inPorts := to.GetInputPorts();
      if |outPorts| > 0 && |inPorts| > 0 {
        graphView.AddEdge(Edge(outPorts[0], inPorts[0]));
      }
    }

    /**
     * One passage: a lone node for an empty passage; otherwise a chain node
     * per non-blank line, each linked from the one before, until the first
     * line with a link, which adds the branch node and ends the passage.  The
     * next passage starts one step further down.
     */
    method BuildPassageGraph(p: ParsedPassage) returns (built: BuiltPassage, ghost added: seq<DialogueNode>)
      requires p.title != "" && graphView.Valid()
      modifies this`createdNodes, this`startPos, graphView`nodes, graphView`edges
      ensures PassageBuilt(PassageRecords(p, old(startPos)), old(graphView.nodes), added, old(graphView.edges), old(createdNodes))
      ensures startPos == old(startPos).Plus(PassageStep)
      ensures built.passage == p && CollectedFrom(built)
      ensures built.choices != [] ==> built.choices[0].node in added
    {
      var start := startPos;
      // The next passage's start only depends on this one's, so it is set first.
      startPos := startPos.Plus(PassageStep);
      ghost var nodes0, edges0, m0 := graphView.nodes, graphView.edges, createdNodes;
      var choices: seq<ParsedChoice> := [];
      if |p.lines| == 0 {
        added := AddTitleNode(p, start);
      } else {
        ghost var c := FirstChoiceLine(p.lines);
        FirstChoiceBoundary(p.lines, c);
        choices, added := BuildLines(p, LineTable(p), PassageLabels(p), c, start);
        BuiltFromFinished(p, start, nodes0, added, edges0, m0);
      }
      built := BuiltPassage(p, choices);
    }

    /**
     * A passage built: its nodes `added` follow the canvas's earlier nodes
     * and are registered by id; they save as the records `recs` and their
     * chain edges as the chain links of those records.
     */
    ghost predicate PassageBuilt(recs: seq<DialogueNodeData>, nodes0: seq<DialogueNode>, added: seq<DialogueNode>,
                                 edges0: seq<Edge>, m0: map<string, DialogueNode>)
      reads this`createdNodes, graphView`nodes, graphView`edges, graphView.nodes, added, EdgeEnds(ChainEdges(added))
    {
      && graphView.Valid() && createdNodes == Overlay(m0, added)
      && graphView.nodes == nodes0 + added
      && graphView.edges == edges0 + ChainEdges(added)
      && NodeRecords(added) == recs
      && LinkRecords(ChainEdges(added)) == ChainLinks(NodeRecords(added))
    }

    /** An empty passage is one node showing its title, with the title as id. */
    method AddTitleNode(p: ParsedPassage, start: Vec) returns (ghost added: seq<DialogueNode>)
      requires p.title != "" && p.lines == [] && graphView.Valid()
      modifies this`createdNodes, graphView`nodes, graphView`edges
      ensures PassageBuilt(PassageRecords(p, start), old(graphView.nodes), added, old(graphView.edges), old(createdNodes))
    {
      ghost var nodes0, m0 := graphView.nodes, createdNodes;
      var only := NewTitleNode(p.title, start, NewGuid(Ids(graphView.nodes)));
      AddToPassage(only, null);
      added := [only];
      assert [only][..0] == [];
      PassageChainSaved(nodes0, added);
    }

    /** A finished passage, with its line nodes and labels computed from its lines, is built. */
    lemma BuiltFromFinished(p: ParsedPassage, start: Vec, nodes0: seq<DialogueNode>, added: seq<DialogueNode>,
                            edges0: seq<Edge>, m0: map<string, DialogueNode>)
      requires Finished(p, LineTable(p), PassageLabels(p), FirstChoiceLine(p.lines), start, nodes0, added, edges0, m0)
      ensures PassageBuilt(PassageRecords(p, start), nodes0, added, edges0, m0)
    {
      PassageChainSaved(nodes0, added);
    }

    /**
     * The lines of a non-empty passage in order: blank lines are skipped, a
     * line without a link adds a chain node one step right of the previous
     * one, and the first line with a link adds the branch node and ends the
     * passage.
     */
    method BuildLines(p: ParsedPassage, ghost table: seq<DialogueNodeData>, ghost labels: seq<string>, ghost c: nat, start: Vec)
      returns (choices: seq<ParsedChoice>, ghost added: seq<DialogueNode>)
      requires p.title != "" && p.lines != [] && graphView.Valid()
      requires table == LineTable(p) && labels == PassageLabels(p) && ChoiceBoundary(p.lines, c)
      modifies this`createdNodes, graphView`nodes, graphView`edges
      ensures Finished(p, table, labels, c, start, old(graphView.nodes), added, old(graphView.edges), old(createdNodes))
      ensures Collected(BuiltPassage(p, choices), c < |p.lines|) && (choices != [] ==> choices[0].node in added)
    {
      ghost var nodes0, edges0, m0 := graphView.nodes, graphView.edges, createdNodes;
      var done, lastNode;
      done, choices, added, lastNode := TakeLines(p, table, labels, c, start, nodes0, edges0, m0);
      if !done {
        ChainedToEnd(p, table, labels, c, start, nodes0, added, edges0, m0, lastNode);
        choices := [];
      }
    }

    /**
     * The loop over the passage's lines: it stops after the first line with a
     * link (`done`), or runs out of lines with the chain built so far.
     */
    method TakeLines(p: ParsedPassage, ghost table: seq<DialogueNodeData>, ghost labels: seq<string>, ghost c: nat, start: Vec,
                     ghost nodes0: seq<DialogueNode>, ghost edges0: seq<Edge>, ghost m0: map<string, DialogueNode>)
      returns (done: bool, choices: seq<ParsedChoice>, ghost added: seq<DialogueNode>, lastNode: DialogueNode?)
      requires p.title != "" && graphView.Valid()
      requires table == LineTable(p) && labels == PassageLabels(p) && ChoiceBoundary(p.lines, c)
      requires graphView.nodes == nodes0 && graphView.edges == edges0 && createdNodes == m0
      modifies this`createdNodes, graphView`nodes, graphView`edges
      ensures !done ==> Chained(p, table, c, start, nodes0, added, edges0, m0, |p.lines|, lastNode)
      ensures done ==> Finished(p, table, labels, c, start, nodes0, added, edges0, m0) && Collected(BuiltPassage(p, choices), c < |p.lines|)
      ensures done && choices != [] ==> choices[0].node in added
    {
      lastNode := null;
      var pos := start;
      choices, added := [], [];
      ChainedStart(p, table, c, start, nodes0, edges0, m0);
      var i := 0;
      done := false;
      while i < |p.lines| && !done
        invariant i <= |p.lines|
        invariant !done ==> Chained(p, table, c, start, nodes0, added, edges0, m0, i, lastNode) && pos == ChainPos(start, |added|)
        invariant done ==> Finished(p, table, labels, c, start, nodes0, added, edges0, m0) && Collected(BuiltPassage(p, choices), c < |p.lines|)
        invariant done && choices != [] ==> choices[0].node in added
        decreases |p.lines| - i
      {
        done, choices, added, lastNode, pos := TakeLine(p, table, labels, c, start, nodes0, added, edges0, m0, i, lastNode, pos);
        i := i + 1;
      }
      assert !done ==> i == |p.lines|;
    }

    /** Before the first line the passage has no node yet. */
    lemma ChainedStart(p: ParsedPassage, table: seq<DialogueNodeData>, c: nat, start: Vec, nodes0: seq<DialogueNode>,
                       edges0: seq<Edge>, m0: map<string, DialogueNode>)
      requires |table| == |p.lines| && ChoiceBoundary(p.lines, c) && graphView.Valid()
      requires graphView.nodes == nodes0 && graphView.edges == edges0 && createdNodes == m0
      ensures Chained(p, table, c, start, nodes0, [], edges0, m0, 0, null)
    {
      assert nodes0 + [] == nodes0 && edges0 + [] == edges0;
    }

    /**
     * One line of the passage: a blank line is skipped, a line with a link
     * adds the branch node and ends the passage (`done`), any other line adds
     * its chain node one step right of the previous one.
     */
    method TakeLine(p: ParsedPassage, ghost table: seq<DialogueNodeData>, ghost labels: seq<string>, ghost c: nat, start: Vec,
                    ghost nodes0: seq<DialogueNode>, ghost added: seq<DialogueNode>, ghost edges0: seq<Edge>,
                    ghost m0: map<string, DialogueNode>, i: nat, lastNode: DialogueNode?, pos: Vec)
      returns (done: bool, choices: seq<ParsedChoice>, ghost added': seq<DialogueNode>, lastNode': DialogueNode?, pos': Vec)
      requires p.title != "" && i < |p.lines| && table == LineTable(p) && labels == PassageLabels(p)
      requires Chained(p, table, c, start, nodes0, added, edges0, m0, i, lastNode)
      requires pos == ChainPos(start, |added|)
      modifies this`createdNodes, graphView`nodes, graphView`edges
      ensures done ==> Finished(p, table, labels, c, start, nodes0, added', edges0, m0) && Collected(BuiltPassage(p, choices), c < |p.lines|)
      ensures done && choices != [] ==> choices[0].node in added'
      ensures !done ==> Chained(p, table, c, start, nodes0, added', edges0, m0, i + 1, lastNode')
      ensures !done ==> pos' == ChainPos(start, |added'|)
    {
      var line := p.lines[i];
      if IsBlank(line) {
        SkipBlank(p, table, c, start, nodes0, added, edges0, m0, i, lastNode);
        return false, [], added, lastNode, pos;
      }
      if HasChoice(line) {
        var branchText := if lastNode != null then lastNode.dialogueText else p.title;
        choices, added' := AddBranchNode(p, table, labels, c, start, nodes0, added, edges0, m0, i, lastNode, branchText, pos);
        return true, choices, added', null, pos;
      }
      lastNode', added' := AddLineNode(p, table, c, start, nodes0, added, edges0, m0, i, lastNode, pos);
      return false, [], added', lastNode', pos.Plus(LineStep);
    }

    /**
     * The passage state after its first i lines: the chain nodes `added` of
     * the non-blank lines so far, each linked from the one before, the last
     * of them `lastNode`, all registered by id.
     */
    ghost predicate Chained(p: ParsedPassage, table: seq<DialogueNodeData>, c: nat, start: Vec, nodes0: seq<DialogueNode>, added: seq<DialogueNode>,
                            edges0: seq<Edge>, m0: map<string, DialogueNode>, i: nat, lastNode: DialogueNode?)
      reads this`createdNodes, graphView`nodes, graphView`edges, graphView.nodes, added
    {
      && |table| == |p.lines| && ChoiceBoundary(p.lines, c) && i <= c
      && graphView.Valid() && createdNodes == Overlay(m0, added)
      && graphView.nodes == nodes0 + added
      && graphView.edges == edges0 + ChainEdges(added)
      && (forall k :: 0 <= k < |added| ==> !added[k].isBranch)
      && NodeRecords(added) == ChainRecords(table, p.lines, i, start)
      && lastNode == LastOf(added) && (lastNode != null ==> lastNode.Valid())
    }

    /**
     * The passage is complete: its nodes `added` follow the canvas's earlier
     * nodes, each linked from the one before, all registered by id, and they
     * are the nodes the passage becomes.
     */
    ghost predicate Finished(p: ParsedPassage, table: seq<DialogueNodeData>, labels: seq<string>, c: nat, start: Vec,
                             nodes0: seq<DialogueNode>, added: seq<DialogueNode>, edges0: seq<Edge>, m0: map<string, DialogueNode>)
      reads this`createdNodes, graphView`nodes, graphView`edges, graphView.nodes, added
      requires |table| == |p.lines| && c <= |p.lines|
    {
      && graphView.Valid() && createdNodes == Overlay(m0, added)
      && graphView.nodes == nodes0 + added
      && graphView.edges == edges0 + ChainEdges(added)
      && (forall k :: 0 <= k < |added| - 1 ==> !added[k].isBranch)
      && NodeRecords(added) == PassageRecordsFrom(p, table, labels, c, start)
    }

    /** A passage state is kept by steps that change none of the objects it reads. */
    twostate lemma ChainedKept(st: (ParsedPassage, seq<DialogueNodeData>, nat, Vec, seq<DialogueNode>, seq<DialogueNode>,
                                    seq<Edge>, map<string, DialogueNode>, nat, DialogueNode?))
      requires old(Chained(st.0, st.1, st.2, st.3, st.4, st.5, st.6, st.7, st.8, st.9))
      requires unchanged(this) && unchanged(graphView)
      requires forall k :: 0 <= k < |graphView.nodes| ==> unchanged(graphView.nodes[k])
      ensures Chained(st.0, st.1, st.2, st.3, st.4, st.5, st.6, st.7, st.8, st.9)
    {
      var added := st.5;
      forall k | 0 <= k < |added|
        ensures unchanged(added[k])
      {
        assert added[k] == graphView.nodes[|st.4| + k];
      }
      CanvasFrame(graphView);
      ChainFrame((st.7, added));
    }

    /** A blank line adds nothing. */
    lemma SkipBlank(p: ParsedPassage, table: seq<DialogueNodeData>, c: nat, start: Vec, nodes0: seq<DialogueNode>, added: seq<DialogueNode>,
                    edges0: seq<Edge>, m0: map<string, DialogueNode>, i: nat, lastNode: DialogueNode?)
      requires i < |p.lines| && IsBlank(p.lines[i])
      requires Chained(p, table, c, start, nodes0, added, edges0, m0, i, lastNode)
      ensures Chained(p, table, c, start, nodes0, added, edges0, m0, i + 1, lastNode)
    {
      BlankHasNoChoice(p.lines[i]);
      ChainRecordsStep(table, p.lines, i, start);
    }

    /** Without a link line the passage is its chain. */
    lemma ChainedToEnd(p: ParsedPassage, table: seq<DialogueNodeData>, labels: seq<string>, c: nat, start: Vec, nodes0: seq<DialogueNode>, added: seq<DialogueNode>,
                       edges0: seq<Edge>, m0: map<string, DialogueNode>, lastNode: DialogueNode?)
      requires p.lines != []
      requires Chained(p, table, c, start, nodes0, added, edges0, m0, |p.lines|, lastNode)
      ensures c == |p.lines|
      ensures Finished(p, table, labels, c, start, nodes0, added, edges0, m0)
      ensures Collected(BuiltPassage(p, []), c < |p.lines|)
    {
    }

    /** A line without a link adds its chain node, linked from the previous one. */
    method AddLineNode(p: ParsedPassage, ghost table: seq<DialogueNodeData>, ghost c: nat, start: Vec, ghost nodes0: seq<DialogueNode>, ghost added: seq<DialogueNode>,
                       ghost edges0: seq<Edge>, ghost m0: map<string, DialogueNode>, i: nat, lastNode: DialogueNode?, pos: Vec)
      returns (node: DialogueNode, ghost added': seq<DialogueNode>)
      requires p.title != "" && i < |p.lines| && !IsBlank(p.lines[i]) && !HasChoice(p.lines[i])
      requires table == LineTable(p)
      requires Chained(p, table, c, start, nodes0, added, edges0, m0, i, lastNode)
      requires pos == ChainPos(start, |added|)
      modifies this`createdNodes, graphView`nodes, graphView`edges
      ensures added' == added + [node]
      ensures Chained(p, table, c, start, nodes0, added', edges0, m0, i + 1, node)
    {
      node := NewLineNode(p.title, p.lines[i], i, pos, NewGuid(Ids(graphView.nodes)));
      LineRecordPlaced(p, i, pos);
      added' := AttachLine(p, table, c, start, nodes0, added, edges0, m0, i, lastNode, node);
    }

    /** The finished node of line i joins the canvas and the chain. */
    method AttachLine(p: ParsedPassage, ghost table: seq<DialogueNodeData>, ghost c: nat, start: Vec, ghost nodes0: seq<DialogueNode>,
                      ghost added: seq<DialogueNode>, ghost edges0: seq<Edge>, ghost m0: map<string, DialogueNode>,
                      i: nat, lastNode: DialogueNode?, node: DialogueNode)
      returns (ghost added': seq<DialogueNode>)
      requires i < |p.lines| && !IsBlank(p.lines[i]) && !HasChoice(p.lines[i])
      requires Chained(p, table, c, start, nodes0, added, edges0, m0, i, lastNode)
      requires node.Valid() && node.hasIdValidator && !node.isBranch && node !in graphView.nodes
      requires NodeRecord(node) == table[i].(position := ChainPos(start, |added|))
      modifies this`createdNodes, graphView`nodes, graphView`edges
      ensures added' == added + [node]
      ensures Chained(p, table, c, start, nodes0, added', edges0, m0, i + 1, node)
    {
      AddToPassage(node, lastNode);
      added' := added + [node];
      ChainFrame((m0, added));
      ChainedNext(p, table, c, start, nodes0, added, edges0, m0, i, lastNode, node);
    }

    /** The passage state after a line's node joined the canvas, the created nodes and the chain. */
    lemma ChainedNext(p: ParsedPassage, table: seq<DialogueNodeData>, c: nat, start: Vec, nodes0: seq<DialogueNode>, added: seq<DialogueNode>,
                      edges0: seq<Edge>, m0: map<string, DialogueNode>, i: nat, lastNode: DialogueNode?, node: DialogueNode)
      requires i < |p.lines| == |table| && !IsBlank(p.lines[i]) && !HasChoice(p.lines[i])
      requires ChoiceBoundary(p.lines, c) && i <= c
      requires graphView.Valid() && graphView.nodes == nodes0 + added + [node]
      requires createdNodes == Overlay(m0, added)[node.id := node]
      requires graphView.edges == edges0 + ChainEdges(added) + (if lastNode == null then [] else ChainStep(lastNode, node))
      requires forall k :: 0 <= k < |added| ==> !added[k].isBranch
      requires !node.isBranch && node.Valid()
      requires NodeRecords(added) == ChainRecords(table, p.lines, i, start)
      requires NodeRecord(node) == table[i].(position := ChainPos(start, |added|))
      requires lastNode == LastOf(added)
      ensures Chained(p, table, c, start, nodes0, added + [node], edges0, m0, i + 1, node)
    {
      var a := added + [node];
      assert createdNodes == Overlay(m0, a) by { OverlayAppend(m0, added, node); }
      assert graphView.edges == edges0 + ChainEdges(a) by { ChainEdgesAppend(added, node); }
      assert NodeRecords(a) == ChainRecords(table, p.lines, i + 1, start) by {
        NodeRecordsAppend(added, node);
        ChainRecordsNext(table, p.lines, start, i, NodeRecords(added), NodeRecord(node));
      }
    }

    /** The first line with a link adds the branch node after the chain; its choices wait for their targets. */
    method AddBranchNode(p: ParsedPassage, ghost table: seq<DialogueNodeData>, ghost labels: seq<string>, ghost c: nat, start: Vec, ghost nodes0: seq<DialogueNode>, ghost added: seq<DialogueNode>,
                         ghost edges0: seq<Edge>, ghost m0: map<string, DialogueNode>, i: nat, lastNode: DialogueNode?,
                         text: string, pos: Vec)
      returns (choices: seq<ParsedChoice>, ghost added': seq<DialogueNode>)
      requires p.title != "" && i < |p.lines| && i == c && labels == PassageLabels(p)
      requires Chained(p, table, c, start, nodes0, added, edges0, m0, i, lastNode)
      requires pos == ChainPos(start, |added|)
      requires text == if lastNode != null then lastNode.dialogueText else p.title
      modifies this`createdNodes, graphView`nodes, graphView`edges
      ensures Finished(p, table, labels, c, start, nodes0, added', edges0, m0)
      ensures Collected(BuiltPassage(p, choices), true) && (choices != [] ==> choices[0].node in added')
    {
      var branch;
      label Before:
      branch, choices := PrepareBranch(p, labels, added, lastNode, text, pos);
      ChainedKept@Before((p, table, c, start, nodes0, added, edges0, m0, i, lastNode));
      added' := AttachBranch(p, table, labels, c, start, nodes0, added, edges0, m0, i, lastNode, branch, choices);
    }

    /** The branch node of the passage with all its choices, before it joins the canvas. */
    method PrepareBranch(p: ParsedPassage, ghost labels: seq<string>, ghost added: seq<DialogueNode>, lastNode: DialogueNode?, text: string, pos: Vec)
      returns (branch: DialogueNode, choices: seq<ParsedChoice>)
      requires p.title != "" && labels == PassageLabels(p) && lastNode == LastOf(added)
      requires text == if lastNode != null then lastNode.dialogueText else p.title
      ensures fresh(branch) && branch.Valid() && branch.hasIdValidator && branch.isBranch
      ensures NodeRecord(branch) == BranchRecord(p.title, BranchText(p.title, NodeRecords(added)), pos, labels)
      ensures Collected(BuiltPassage(p, choices), true) && (choices != [] ==> choices[0].node == branch)
    {
      LastText(p.title, added, lastNode, text);
      branch, choices := NewBranch(p, text, pos, NewGuid(Ids(graphView.nodes)));
    }

    /** The finished branch node joins the canvas after the chain and ends the passage. */
    method AttachBranch(p: ParsedPassage, ghost table: seq<DialogueNodeData>, ghost labels: seq<string>, ghost c: nat, start: Vec, ghost nodes0: seq<DialogueNode>,
                        ghost added: seq<DialogueNode>, ghost edges0: seq<Edge>, ghost m0: map<string, DialogueNode>,
                        i: nat, lastNode: DialogueNode?, branch: DialogueNode, ghost choices: seq<ParsedChoice>)
      returns (ghost added': seq<DialogueNode>)
      requires i < |p.lines| && c == i
      requires Chained(p, table, c, start, nodes0, added, edges0, m0, i, lastNode)
      requires branch.Valid() && branch.hasIdValidator && branch.isBranch && branch !in graphView.nodes
      requires NodeRecord(branch) == BranchRecord(p.title, BranchText(p.title, NodeRecords(added)), ChainPos(start, |added|), labels)
      requires Collected(BuiltPassage(p, choices), true) && (choices != [] ==> choices[0].node == branch)
      modifies this`createdNodes, graphView`nodes, graphView`edges
      ensures Finished(p, table, labels, c, start, nodes0, added', edges0, m0)
      ensures Collected(BuiltPassage(p, choices), true) && added' == added + [branch]
    {
      PassageRecordsBranch(p, table, labels, c, start, NodeRecords(added), NodeRecord(branch));
      NodeRecordsAppend(added, branch);
      AddToPassage(branch, lastNode);
      added' := added + [branch];
      ChainFrame((m0, added));
      BranchedNext(nodes0, added, edges0, m0, lastNode, branch);
    }

    /** The canvas and the created nodes after the branch node joined them after the chain. */
    lemma BranchedNext(nodes0: seq<DialogueNode>, added: seq<DialogueNode>, edges0: seq<Edge>,
                       m0: map<string, DialogueNode>, lastNode: DialogueNode?, branch: DialogueNode)
      requires graphView.nodes == nodes0 + added + [branch]
      requires createdNodes == Overlay(m0, added)[branch.id := branch]
      requires graphView.edges == edges0 + ChainEdges(added) + (if lastNode == null then [] else ChainStep(lastNode, branch))
      requires forall k :: 0 <= k < |added| ==> !added[k].isBranch
      requires lastNode == LastOf(added)
      ensures createdNodes == Overlay(m0, added + [branch])
      ensures graphView.nodes == nodes0 + (added + [branch])
      ensures graphView.edges == edges0 + ChainEdges(added + [branch])
      ensures forall k :: 0 <= k < |added + [branch]| - 1 ==> !(added + [branch])[k].isBranch
    {
      ChainEdgesAppend(added, branch);
      OverlayAppend(m0, added, branch);
    }

    /**
     * The node joins the canvas and the created nodes, and is linked from the
     * previous node of the passage when there is one.
     */
    method AddToPassage(node: DialogueNode, lastNode: DialogueNode?)
      requires graphView.Valid()
      requires node.Valid() && node.hasIdValidator && node !in graphView.nodes
      requires lastNode != null ==> lastNode.Valid() && !lastNode.isBranch
      modifies this`createdNodes, graphView`nodes, graphView`edges
      ensures graphView.Valid()
      ensures graphView.nodes == old(graphView.nodes) + [node]
      ensures graphView.edges == old(graphView.edges) + (if lastNode == null then [] else ChainStep(lastNode, node))
      ensures createdNodes == old(createdNodes)[node.id := node]
    {
      PlaceNode(node);
      if lastNode != null {
        ChainTo(lastNode, node);
      }
      createdNodes := createdNodes[node.id := node];
    }

    /** AddElement(node) for a node of the passage being built. */
    method PlaceNode(node: DialogueNode)
      requires graphView.Valid() && node.Valid() && node.hasIdValidator && node !in graphView.nodes
      modifies graphView`nodes
      ensures graphView.Valid() && graphView.nodes == old(graphView.nodes) + [node]
    {
      graphView.AddNode(node);
    }

    /** Links the previous chain node to the new one. */
    method ChainTo(lastNode: DialogueNode, node: DialogueNode)
      requires lastNode.Valid() && !lastNode.isBranch && node.Valid()
      modifies graphView`edges
      ensures graphView.edges == old(graphView.edges) + ChainStep(lastNode, node)
    {
      ConnectFirstPorts(lastNode, node);
      ChainEdgeSaved(lastNode, node);
    }
  }
}
