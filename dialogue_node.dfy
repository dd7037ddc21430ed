/**
 * Editor nodes (DialogueNode.cs and its subclass BranchNode.cs).
 *
 * A node owns an input container holding one input port, and an output
 * container.  A plain node's output container holds one output port; a
 * branch node's holds one row per choice, each row a port followed by the
 * choice's text field.  Ports are objects: an edge remembers the port object
 * it was drawn from, so rebuilding a branch's rows leaves old edges on ports
 * that are no longer in the container.
 */
module DialogueNodes {
  import opened Text
  import opened DialogueContainers
  import opened Wrappers

  datatype Direction = Input | Output

  class Port {
    const node: DialogueNode
    const direction: Direction

    constructor (node: DialogueNode, direction: Direction)
      ensures this.node == node && this.direction == direction
    {
      this.node := node;
      this.direction := direction;
    }
  }

  /**
   * A visual element: a port, a text field (whose own children hold no
   * port), or a panel with ordered children.
   */
  datatype Element = PortElement(port: Port) | Field | Panel(children: seq<Element>)

  function ChildrenOf(e: Element): seq<Element>
  {
    if e.Panel? then e.children else []
  }

  // ------------------------------------------------------------ port search

  /**
   * Reference order of GetPortsInContainer: a panel's own Port children in
   * order, then the ports under its other children, last child first.
   */
  function Harvest(e: Element): seq<Port>
    decreases e, 1
  {
    if e.Panel? then DirectPorts(e.children) + HarvestBelow(e, |e.children|) else []
  }

  /** The ports under children k-1, ..., 0 of a panel, in that order. */
  function HarvestBelow(e: Element, k: nat): seq<Port>
    requires e.Panel? && k <= |e.children|
    decreases e, 0, k
  {
    if k == 0 then [] else Harvest(e.children[k - 1]) + HarvestBelow(e, k - 1)
  }

  /** `Children().OfType<Port>()`: the direct Port children, in order. */
  function DirectPorts(ch: seq<Element>): (r: seq<Port>)
    ensures |r| <= |ch|
  {
    if ch == [] then []
    else DirectPorts(ch[..|ch| - 1]) + (if ch[|ch| - 1].PortElement? then [ch[|ch| - 1].port] else [])
  }

  /** The children that are not ports: those the search pushes on its stack. */
  function NonPorts(ch: seq<Element>): seq<Element>
  {
    if ch == [] then []
    else NonPorts(ch[..|ch| - 1]) + (if ch[|ch| - 1].PortElement? then [] else [ch[|ch| - 1]])
  }

  /** What the elements of a stack (top last) still contribute, top first. */
  function StackHarvest(st: seq<Element>): seq<Port>
  {
    if st == [] then [] else Harvest(st[|st| - 1]) + StackHarvest(st[..|st| - 1])
  }

  function Size(e: Element): nat
    decreases e, 1
  {
    if e.Panel? then 1 + SizeBelow(e, |e.children|) else 1
  }

  function SizeBelow(e: Element, k: nat): nat
    requires e.Panel? && k <= |e.children|
    decreases e, 0, k
  {
    if k == 0 then 0 else Size(e.children[k - 1]) + SizeBelow(e, k - 1)
  }

  function SizeSum(st: seq<Element>): nat
  {
    if st == [] then 0 else SizeSum(st[..|st| - 1]) + Size(st[|st| - 1])
  }

  lemma {:induction false} StackHarvestAppend(a: seq<Element>, b: seq<Element>)
    ensures StackHarvest(a + b) == StackHarvest(b) + StackHarvest(a)
    decreases |b|
  {
    if b == [] {
      assert a + b == a;
    } else {
      assert (a + b)[..|a + b| - 1] == a + b[..|b| - 1];
      StackHarvestAppend(a, b[..|b| - 1]);
    }
  }

  lemma {:induction false} SizeSumAppend(a: seq<Element>, b: seq<Element>)
    ensures SizeSum(a + b) == SizeSum(a) + SizeSum(b)
    decreases |b|
  {
    if b == [] {
      assert a + b == a;
    } else {
      assert (a + b)[..|a + b| - 1] == a + b[..|b| - 1];
      SizeSumAppend(a, b[..|b| - 1]);
    }
  }

  /** Pushing the non-port children of ve contributes exactly what ve's children contribute. */
  lemma {:induction false} NonPortsHarvest(ve: Element, k: nat)
    requires ve.Panel? && k <= |ve.children|
    ensures StackHarvest(NonPorts(ve.children[..k])) == HarvestBelow(ve, k)
    ensures SizeSum(NonPorts(ve.children[..k])) <= SizeBelow(ve, k)
  {
    if k > 0 {
      var ch := ve.children[..k];
      assert ch[..k - 1] == ve.children[..k - 1];
      NonPortsHarvest(ve, k - 1);
      var c := ve.children[k - 1];
      assert ch[|ch| - 1] == c;
      var before := NonPorts(ch[..k - 1]);
      if c.PortElement? {
        assert NonPorts(ch) == before;
      } else {
        assert NonPorts(ch) == before + [c];
        StackHarvestAppend(before, [c]);
        assert [c][..0] == [];
        assert StackHarvest([c]) == Harvest(c);
        SizeSumAppend(before, [c]);
        assert SizeSum([c]) == Size(c);
      }
    }
  }

  /**
   * One popped element's children, in order: each Port child is collected,
   * every other child pushed.
   */
  method ScanChildren(ch: seq<Element>) returns (ports: seq<Port>, pushed: seq<Element>)
    ensures ports == DirectPorts(ch) && pushed == NonPorts(ch)
  {
    ports, pushed := [], [];
    for j := 0 to |ch|
      invariant ports == DirectPorts(ch[..j])
      invariant pushed == NonPorts(ch[..j])
    {
      assert ch[..j + 1][..j] == ch[..j];
      var child := ch[j];
      if child.PortElement? {
        ports := ports + [child.port];
      } else {
        pushed := pushed + [child];
      }
    }
    assert ch[..|ch|] == ch;
  }

  /** Popping ve and pushing its non-port children keeps what is still to be found, and shrinks the stack. */
  lemma PopStep(rest: seq<Element>, ve: Element)
    ensures DirectPorts(ChildrenOf(ve)) + StackHarvest(rest + NonPorts(ChildrenOf(ve))) == StackHarvest(rest + [ve])
    ensures SizeSum(rest + NonPorts(ChildrenOf(ve))) < SizeSum(rest + [ve])
  {
    var ch := ChildrenOf(ve);
    assert (rest + [ve])[..|rest|] == rest;
    StackHarvestAppend(rest, NonPorts(ch));
    SizeSumAppend(rest, NonPorts(ch));
    if ve.Panel? {
      NonPortsHarvest(ve, |ch|);
      assert ch[..|ch|] == ch;
    }
  }

  /**
   * DialogueNode.GetPortsInContainer: an explicit stack of elements; each
   * popped element's Port children are collected and its other children
   * pushed.  Never looks inside a Port.
   */
  method GetPortsInContainer(container: Element) returns (found: seq<Port>)
    ensures found == Harvest(container)
  {
    found := [];
    var stack := [container];
    assert StackHarvest(stack) == Harvest(container) by { assert stack[..0] == []; }
    while |stack| > 0
      invariant found + StackHarvest(stack) == Harvest(container)
      decreases SizeSum(stack)
    {
      var ve := stack[|stack| - 1];
      var rest := stack[..|stack| - 1];
      assert stack == rest + [ve];
      PopStep(rest, ve);
      stack := rest;
      var ports, pushed := ScanChildren(ChildrenOf(ve));
      found := found + ports;
      stack := stack + pushed;
    }
  }

  // ------------------------------------------------------------ container shapes

  function Reverse<T>(s: seq<T>): (r: seq<T>)
    ensures |r| == |s|
  {
    if s == [] then [] else [s[|s| - 1]] + Reverse(s[..|s| - 1])
  }

  lemma {:induction false} ReverseAt<T>(s: seq<T>, i: nat)
    requires i < |s|
    ensures Reverse(s)[i] == s[|s| - 1 - i]
    decreases |s|
  {
    if i > 0 { ReverseAt(s[..|s| - 1], i - 1); }
  }

  /** A branch row: the choice's port, then its text field. */
  function Row(p: Port): Element
  {
    Panel([PortElement(p), Field])
  }

  function Rows(ps: seq<Port>): (r: seq<Element>)
    ensures |r| == |ps|
    ensures forall i :: 0 <= i < |ps| ==> r[i] == Row(ps[i])
  {
    if ps == [] then [] else Rows(ps[..|ps| - 1]) + [Row(ps[|ps| - 1])]
  }

  /** A container holding exactly one port, directly. */
  function Single(p: Port): Element
  {
    Panel([PortElement(p)])
  }

  lemma SinglePorts(p: Port)
    ensures Harvest(Single(p)) == [p]
    ensures DirectPorts(ChildrenOf(Single(p))) == [p]
  {
    var e := Single(p);
    assert [PortElement(p)][..0] == [];
    assert DirectPorts(e.children) == [p];
    assert HarvestBelow(e, 1) == Harvest(PortElement(p)) + HarvestBelow(e, 0);
  }

  lemma RowPorts(p: Port)
    ensures Harvest(Row(p)) == [p]
  {
    var row := Row(p);
    assert [PortElement(p), Field][..1] == [PortElement(p)];
    assert [PortElement(p)][..0] == [];
    assert DirectPorts(row.children) == DirectPorts([PortElement(p)]) == [p];
    assert HarvestBelow(row, 1) == Harvest(PortElement(p)) + HarvestBelow(row, 0) == [];
    assert HarvestBelow(row, 2) == Harvest(Field) + HarvestBelow(row, 1) == [];
  }

  lemma {:induction false} RowsBelow(ps: seq<Port>, k: nat)
    requires k <= |ps|
    ensures HarvestBelow(Panel(Rows(ps)), k) == Reverse(ps[..k])
  {
    if k > 0 {
      RowsBelow(ps, k - 1);
      RowPorts(ps[k - 1]);
      assert ps[..k][..k - 1] == ps[..k - 1];
    }
  }

  lemma {:induction false} RowsNoDirectPorts(ps: seq<Port>, k: nat)
    requires k <= |ps|
    ensures DirectPorts(Rows(ps)[..k]) == []
  {
    if k > 0 {
      assert Rows(ps)[..k][..k - 1] == Rows(ps)[..k - 1];
      RowsNoDirectPorts(ps, k - 1);
    }
  }

  /**
   * The search over a branch's output container returns the row ports last
   * row first, while the container's direct Port children are none.
   */
  lemma RowsPorts(ps: seq<Port>)
    ensures Harvest(Panel(Rows(ps))) == Reverse(ps)
    ensures DirectPorts(ChildrenOf(Panel(Rows(ps)))) == []
  {
    RowsBelow(ps, |ps|);
    RowsNoDirectPorts(ps, |ps|);
    assert ps[..|ps|] == ps;
    assert Rows(ps)[..|ps|] == Rows(ps);
  }

  // ------------------------------------------------------------ list helpers

  /** List.IndexOf: the first position of x, or -1. */
  function IndexOf<T(==)>(s: seq<T>, x: T): (r: int)
    ensures -1 <= r < |s|
    ensures r == -1 <==> x !in s
    ensures r >= 0 ==> s[r] == x && x !in s[..r]
  {
    if s == [] then -1
    else if s[0] == x then 0
    else
      var r := IndexOf(s[1..], x);
      assert r >= 0 ==> s[1..][..r] == s[1..r + 1];
      if r == -1 then -1 else r + 1
  }

  /** Enumerable.ElementAtOrDefault for a reference type: null (None) outside the list. */
  function ElementAtOrDefault<T>(s: seq<T>, i: int): (r: Option<T>)
    ensures r.Some? <==> 0 <= i < |s|
    ensures r.Some? ==> r.value == s[i]
  {
    if 0 <= i < |s| then Some(s[i]) else None
  }

  function FirstOrDefault<T>(s: seq<T>): (r: Option<T>)
    ensures r.Some? <==> s != []
    ensures r.Some? ==> r.value == s[0]
  {
    ElementAtOrDefault(s, 0)
  }

  // ------------------------------------------------------------ ids

  function MaxLength(ss: seq<string>): (m: nat)
    ensures forall i :: 0 <= i < |ss| ==> |ss[i]| <= m
  {
    if ss == [] then 0
    else
      var m := MaxLength(ss[..|ss| - 1]);
      if |ss[|ss| - 1]| > m then |ss[|ss| - 1]| else m
  }

  function Repeat(c: char, n: nat): (r: string)
    ensures |r| == n
  {
    if n == 0 then "" else Repeat(c, n - 1) + [c]
  }

  /**
   * Stand-in for Guid.NewGuid().ToString(): some non-empty id that no
   * current id equals.  The GUID text format is not modelled.
   */
  function NewGuid(inUse: seq<string>): (g: string)
    ensures g != "" && g !in inUse
  {
    Repeat('g', MaxLength(inUse) + 1)
  }

  /**
   * The id field's change callback: the edit is trimmed and its newlines
   * become spaces; it is accepted when non-empty and either there is no
   * validator, the validator does not know the id, or it is the node's own id.
   */
  function EditedId(current: string, value: string, hasValidator: bool, inUse: seq<string>): (r: string)
  {
    var newId := ReplaceChar(Trim(value), '\n', ' ');
    if newId != "" && (!hasValidator || newId !in inUse || newId == current) then newId else current
  }

  // ------------------------------------------------------------ the node

  class DialogueNode {
    var id: string
    var speaker: string
    var dialogueText: string
    var functionName: string
    var position: Vec
    /** BranchNode is the subclass; a node's class never changes. */
    const isBranch: bool
    /** BranchNode.Choices (unused on a plain node). */
    var choices: seq<string>
    /** BranchNode._choiceCounter: the number the "Add Choice" button uses next. */
    var choiceCounter: nat
    /** Whether SetIdValidator has been called (the validator is the owning graph view). */
    var hasIdValidator: bool
    var inputContainer: Element
    var outputContainer: Element
    /** The port of the input container. */
    ghost var inputPort: Port?
    /** The output ports in the order they were created: the single port, or one per row. */
    ghost var outputPorts: seq<Port>

    /** Everything Valid asks of the node except the output side. */
    ghost predicate ValidIdAndInput()
      reads this`id, this`inputPort, this`inputContainer
    {
      && id != ""
      && inputPort != null && inputPort.node == this && inputPort.direction == Input
      && inputContainer == Single(inputPort)
    }

    ghost predicate Valid()
      reads this`id, this`inputPort, this`inputContainer, this`outputContainer, this`outputPorts, this`choices
    {
      && ValidIdAndInput()
      && (forall i :: 0 <= i < |outputPorts| ==> outputPorts[i].node == this && outputPorts[i].direction == Output)
      && (forall i, j :: 0 <= i < j < |outputPorts| ==> outputPorts[i] != outputPorts[j])
      && (if isBranch
          then outputContainer == Panel(Rows(outputPorts)) && |outputPorts| <= |choices|
          else |outputPorts| == 1 && outputContainer == Single(outputPorts[0]))
    }

    /** What GetOutputPorts returns. */
    function OutputPortList(): seq<Port>
      reads this
    {
      Harvest(outputContainer)
    }

    /** What GetInputPorts returns. */
    function InputPortList(): seq<Port>
      reads this
    {
      Harvest(inputContainer)
    }

    /**
     * `new DialogueNode()` / `new BranchNode()`: a fresh GUID id, one input
     * port, and one output port, which the branch constructor clears again.
     */
    constructor (isBranch: bool, guid: string)
      requires guid != ""
      ensures Valid() && fresh(inputPort) && fresh(outputPorts)
      ensures this.isBranch == isBranch && id == guid
      ensures speaker == "" && dialogueText == "" && functionName == "" && position == Zero
      ensures choices == [] && choiceCounter == 1 && !hasIdValidator
      ensures isBranch ==> outputPorts == []
      ensures !isBranch ==> |outputPorts| == 1
    {
      this.isBranch := isBranch;
      id := guid;
      speaker, dialogueText, functionName := "", "", "";
      position := Zero;
      choices := [];
      choiceCounter := 1;
      hasIdValidator := false;
      inputContainer, outputContainer := Panel([]), Panel([]);
      inputPort, outputPorts := null, [];
      new;
      var input := new Port(this, Input);
      var output := new Port(this, Output);
      inputContainer, inputPort, outputContainer, outputPorts := Single(input), input, Single(output), [output];
      if isBranch {
        outputContainer, outputPorts := Panel([]), [];
        assert Rows([]) == [];
      }
    }

    /** A null or empty id is ignored; any other replaces the current one. */
    method SetID(newId: string)
      modifies this`id
      ensures id == if newId == "" then old(id) else newId
    {
      if newId != "" { id := newId; }
    }

    method SetIdValidator()
      modifies this`hasIdValidator
      ensures hasIdValidator
    {
      hasIdValidator := true;
    }

    /**
     * The id field's RegisterValueChangedCallback.  `inUse` is what the
     * validator's IsIdUsed answers true for at this moment.
     */
    method OnIdFieldChanged(value: string, inUse: seq<string>)
      modifies this`id
      ensures id == EditedId(old(id), value, hasIdValidator, inUse)
      ensures old(Valid()) ==> Valid()
    {
      var newId := ReplaceChar(Trim(value), '\n', ' ');
      if newId != "" && (!hasIdValidator || newId !in inUse || newId == id) {
        SetID(newId);
      }
    }

    /** Speaker, text and function are always overwritten; the id only by a non-empty id. */
    method LoadData(speaker: string, dialogueText: string, functionName: string, id: string)
      modifies this`id, this`speaker, this`dialogueText, this`functionName
      ensures this.id == if id == "" then old(this.id) else id
      ensures this.speaker == speaker && this.dialogueText == dialogueText && this.functionName == functionName
    {
      if id != "" { SetID(id); }
      this.speaker := speaker;
      this.dialogueText := dialogueText;
      this.functionName := functionName;
    }

    method GetOutputPorts() returns (ports: seq<Port>)
      ensures ports == OutputPortList()
    {
      ports := GetPortsInContainer(outputContainer);
    }

    method GetInputPorts() returns (ports: seq<Port>)
      ensures ports == InputPortList()
    {
      ports := GetPortsInContainer(inputContainer);
    }

    // -------------------------------------------------------- BranchNode members

    /** Clears the output container and adds one row per choice, in choice order. */
    method RebuildOutputPorts()
      requires ValidIdAndInput() && isBranch
      modifies this`outputContainer, this`outputPorts
      ensures Valid() && fresh(outputPorts)
      ensures |outputPorts| == |choices|
    {
      outputContainer := Panel([]);
      outputPorts := [];
      for i := 0 to |choices|
        invariant |outputPorts| == i && fresh(outputPorts)
        invariant outputContainer == Panel(Rows(outputPorts))
        invariant forall k :: 0 <= k < i ==> outputPorts[k].node == this && outputPorts[k].direction == Output
        invariant forall k, l :: 0 <= k < l < i ==> outputPorts[k] != outputPorts[l]
      {
        ghost var prev := outputPorts;
        var choicePort := new Port(this, Output);
        var row := Panel([PortElement(choicePort), Field]);
        outputContainer := Panel(outputContainer.children + [row]);
        outputPorts := outputPorts + [choicePort];
        assert outputPorts[..i] == prev;
      }
    }

    method AddChoice(choiceDialogue: string)
      requires Valid() && isBranch
      modifies this`choices, this`outputContainer, this`outputPorts
      ensures Valid() && fresh(outputPorts)
      ensures choices == old(choices) + [choiceDialogue]
      ensures |outputPorts| == |choices|
    {
      choices := choices + [choiceDialogue];
      RebuildOutputPorts();
    }

    method ClearChoices()
      requires Valid() && isBranch
      modifies this`choices, this`outputContainer, this`outputPorts
      ensures Valid()
      ensures choices == [] && outputPorts == [] && OutputPortList() == []
    {
      choices := [];
      RebuildOutputPorts();
      RowsPorts(outputPorts);
    }

    /** The "Add Choice" button: appends "Choice N" and advances N. */
    method PressAddChoice()
      requires Valid() && isBranch
      modifies this`choices, this`choiceCounter, this`outputContainer, this`outputPorts
      ensures Valid() && fresh(outputPorts)
      ensures choices == old(choices) + ["Choice " + NatToString(old(choiceCounter))]
      ensures choiceCounter == old(choiceCounter) + 1
      ensures |outputPorts| == |choices|
    {
      choices := choices + ["Choice " + NatToString(choiceCounter)];
      choiceCounter := choiceCounter + 1;
      RebuildOutputPorts();
    }

    /** The text field of row `index` changed: only that label is replaced. */
    method OnChoiceFieldChanged(index: nat, value: string)
      requires Valid() && isBranch && index < |outputPorts|
      modifies this`choices
      ensures Valid()
      ensures |choices| == |old(choices)| && choices[index] == value
      ensures forall k :: 0 <= k < |choices| && k != index ==> choices[k] == old(choices)[k]
    {
      choices := choices[index := value];
    }
  }

  /** A plain node's output search finds its single port; its input search finds its input port. */
  lemma PlainNodePorts(n: DialogueNode)
    requires n.Valid() && !n.isBranch
    ensures n.OutputPortList() == n.outputPorts && |n.OutputPortList()| == 1
    ensures DirectPorts(ChildrenOf(n.outputContainer)) == n.outputPorts
    ensures n.InputPortList() == [n.inputPort]
  {
    SinglePorts(n.outputPorts[0]);
    SinglePorts(n.inputPort);
  }

  /**
   * A branch's output search returns its row ports last row first: position
   * k holds the port of row |rows|-1-k.  None of them is a direct child of
   * the output container.
   */
  lemma BranchNodePorts(n: DialogueNode)
    requires n.Valid() && n.isBranch
    ensures |n.OutputPortList()| == |n.outputPorts|
    ensures forall k :: 0 <= k < |n.outputPorts| ==> n.OutputPortList()[k] == n.outputPorts[|n.outputPorts| - 1 - k]
    ensures DirectPorts(ChildrenOf(n.outputContainer)) == []
    ensures n.InputPortList() == [n.inputPort]
  {
    var ps := n.outputPorts;
    RowsPorts(ps);
    var found := n.OutputPortList();
    assert found == Reverse(ps);
    forall k | 0 <= k < |ps| ensures found[k] == ps[|ps| - 1 - k] {
      ReverseAt(ps, k);
    }
    SinglePorts(n.inputPort);
  }
}
