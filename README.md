# Cord: a verified model of a branching-dialogue editor core

Cord is a Unity editor tool for authoring branching dialogue as a node graph.
The model covers the following parts:

- **Dialogue nodes.** A plain node has one input port and one output port. A
  branch node has one output port per choice label, each inside its own row.
- **The canvas.** It holds the nodes and the edges between ports. It creates
  nodes, validates ids, offers compatible ports, and copies and pastes the
  selection.
- **The native container.** Node records and link records are saved from the
  canvas and loaded back into it. Links name their endpoints by id and port
  index.
- **The JSON interchange form.** Export turns a container into a flat list of
  dialogs. Import turns a dialog list back into a container and then lays it
  out with a depth-first auto-layout.
- **The Twine importer.** It turns Twee-style passage text into chains of
  plain nodes. Each chain ends in a branch node whose choices link to other
  passages by id.
- **The greedy word-wrapper** the editor uses for field text.

The code is organised as follows:

- **Values and pure functions.** Records are datatypes:
  - `DialogueContainers`: the node and link records and the container;
  - `DialogueJsonModel`: the dialog and choice records.

  The text work is functions:
  - `Text`: the .NET string operations the core uses;
  - `TwineText`: the Twine parser, with every regular expression written out
    as an explicit scanner.
- **Classes with fields.** Where the source updates objects in place, the
  model is a class with fields and `modifies` frames:
  - `DialogueNodes.DialogueNode` (plain and branch nodes);
  - `DialogueGraphViews.GraphView`;
  - `GraphSaveUtilities.GraphSaveUtility`;
  - `TwineImporters.TwineImporter`.

  Each source loop is a `while`/`for` method, proved equal to a specification
  function. The lemmas then state what that function means.

The model keeps the source's behaviour where it is surprising:

- **Branch ports come back last row first.** `GetPortsInContainer` walks the
  visual tree with a stack. A branch's ports sit inside rows, so they are
  returned last row first (`DialogueNodes.BranchNodePorts`). As a result:
  - the Twine importer connects choice k to the port of row n-1-k, where n is
    the number of rows;
  - a save records that edge at port index k, and a load reattaches it at the
    same list position, so save and load agree with each other;
  - the JSON exporter reads a link's port index as a choice index.
- **The first body line of a passage takes the passage title.** Its node gets
  the title as id and text, and the line's own content is dropped.
- **Paste leaves branch clones without ports.** A pasted branch gets its choice
  labels but no rows. An edge leaving a branch is therefore never re-created
  (`DialogueGraphViews.PasteEdgeCases`).
- **Imported ids are not checked for duplicates.** Passage titles and JSON ids
  can repeat. The Twine importer files a later node with the same id over an
  earlier one. Loading a container with repeated ids ends in the id
  dictionary's exception, which `GraphSaveUtility.LoadGraph` reports as
  `threw`.

The sources are the files under `HackYeah/Assets/Cord/Cord/`. Verify all
the `.dfy` files together, in one `dafny verify` command.

## Model

| member | source | states |
|---|---|---|
| Text.Trim | HackYeah/Assets/Cord/Cord/TwineDialogue/TwineImporter.cs:70 | String.Trim: the result has no whitespace at either end, is no longer than the input, and is empty exactly when the input is blank |
| Text.TrimEndPrefix | HackYeah/Assets/Cord/Cord/UnityDialogue/UIHelpers.cs:17 | TrimEnd keeps a prefix of the text and drops only a blank tail |
| Text.TrimStartSuffix | HackYeah/Assets/Cord/Cord/TwineDialogue/TwineImporter.cs:70 | TrimStart keeps a suffix of the text and drops only a blank head |
| Text.TrimOfTrimmed | HackYeah/Assets/Cord/Cord/TwineDialogue/TwineImporter.cs:100 | trimming text that is already trimmed changes nothing |
| Text.IndexOfChar | HackYeah/Assets/Cord/Cord/TwineDialogue/TwineImporter.cs:73 | IndexOf('\n'): -1 when the character is absent, otherwise its first position |
| Text.Split | HackYeah/Assets/Cord/Cord/UnityDialogue/UIHelpers.cs:9 | String.Split(' '): at least one piece, no piece holds the separator, and joining the pieces with the separator gives the input back |
| Text.JoinCons | HackYeah/Assets/Cord/Cord/UnityDialogue/UIHelpers.cs:42 | String.Join puts the separator between the first part and the join of the rest |
| Text.ReplaceChar | HackYeah/Assets/Cord/Cord/UnityDialogue/DialogueNode.cs:32 | Replace("\n", " "): same length, each occurrence replaced, every other character kept |
| Text.NatToString | HackYeah/Assets/Cord/Cord/UnityDialogue/BranchNode.cs:17 | the counter's decimal text is non-empty and made only of digits |
| Text.NatToStringValue | HackYeah/Assets/Cord/Cord/UnityDialogue/BranchNode.cs:17 | the text is n's decimal rendering: its digits read in base 10 give n, and it has no leading zero |
| Text.NatToStringInjective | HackYeah/Assets/Cord/Cord/UnityDialogue/BranchNode.cs:17 | different counters give different texts |
| DialogueContainers.NewNodeData | HackYeah/Assets/Cord/Cord/UnityDialogue/DialogueContainer.cs:5-14 | a new node record is a plain node at the origin with an empty choice list |
| DialogueContainers.NewContainer | HackYeah/Assets/Cord/Cord/UnityDialogue/DialogueContainer.cs:26-30 | a new container has no node records and no link records |
| DialogueContainers.UniqueIdsApart | HackYeah/Assets/Cord/Cord/UnityDialogue/DialogueContainer.cs:28 | with unique ids, records at different positions of the list carry different ids |
| DialogueContainers.DanglingLinkRepresentable | HackYeah/Assets/Cord/Cord/UnityDialogue/DialogueContainer.cs:17-29 | a container with unique ids can still hold a link whose ends name no record: nothing in the shape ties link ids to node ids |
| DialogueJsonModel.NewDialog | HackYeah/Assets/Cord/Cord/JsonDialogue/DialogueJsonModel.cs:11-19 | a dialog built from id, speaker, text and callback has no nextId and no choices |
| DialogueNodes.Port.constructor | HackYeah/Assets/Cord/Cord/UnityDialogue/DialogueNode.cs:59-65 | a new port belongs to its node and has the requested direction |
| DialogueNodes.ScanChildren | HackYeah/Assets/Cord/Cord/UnityDialogue/DialogueNode.cs:100-104 | the foreach over one element's children adds its port children to the found list in order and pushes every other child in order |
| DialogueNodes.PopStep | HackYeah/Assets/Cord/Cord/UnityDialogue/DialogueNode.cs:97-105 | one pop keeps what has been found plus what the stack still holds equal to the final answer, and shrinks the stack's total size |
| DialogueNodes.GetPortsInContainer | HackYeah/Assets/Cord/Cord/UnityDialogue/DialogueNode.cs:90-107 | the stack loop returns exactly the ports under the container: each element's own port children in order, then those of its non-port children, the last pushed first; it never descends into a port |
| DialogueNodes.SinglePorts | HackYeah/Assets/Cord/Cord/UnityDialogue/DialogueNode.cs:59-65 | a container holding one port yields that port, as its only direct port child |
| DialogueNodes.RowsPorts | HackYeah/Assets/Cord/Cord/UnityDialogue/BranchNode.cs:48-53 | a panel of rows, one port per row, yields the ports in reverse row order, and none of them is a direct child |
| DialogueNodes.IndexOf | HackYeah/Assets/Cord/Cord/UnityDialogue/GraphSaveUtility.cs:55 | List.IndexOf is -1 exactly when the element is absent, otherwise the first position holding it |
| DialogueNodes.ElementAtOrDefault | HackYeah/Assets/Cord/Cord/UnityDialogue/DialogueGraphView.cs:146 | there is an element exactly when the index is in range, and it is the element at that index |
| DialogueNodes.FirstOrDefault | HackYeah/Assets/Cord/Cord/UnityDialogue/DialogueGraphView.cs:150 | there is an element exactly when the list is non-empty, and it is the first |
| DialogueNodes.NewGuid | HackYeah/Assets/Cord/Cord/UnityDialogue/DialogueNode.cs:24 | a fresh id is non-empty and differs from every id in use |
| DialogueNodes.DialogueNode.constructor | HackYeah/Assets/Cord/Cord/UnityDialogue/DialogueNode.cs:23-69 | a new node has the given GUID as id, empty fields, one input port, and one output port for a plain node or none for a branch; the choice counter starts at 1 |
| DialogueNodes.DialogueNode.SetID | HackYeah/Assets/Cord/Cord/UnityDialogue/DialogueNode.cs:11 | an empty id is ignored; any other id replaces the current one |
| DialogueNodes.DialogueNode.SetIdValidator | HackYeah/Assets/Cord/Cord/UnityDialogue/DialogueNode.cs:71 | after the call the node has a validator |
| DialogueNodes.DialogueNode.OnIdFieldChanged | HackYeah/Assets/Cord/Cord/UnityDialogue/DialogueNode.cs:30-39 | the edit is trimmed and its newlines become spaces; it is accepted when non-empty and there is no validator, the id is unused, or it is the node's own id; otherwise the old id stays; a well-formed node stays well formed |
| DialogueNodes.DialogueNode.LoadData | HackYeah/Assets/Cord/Cord/UnityDialogue/DialogueNode.cs:73-84 | speaker, text and function are always overwritten; the id changes only when the given id is non-empty |
| DialogueNodes.DialogueNode.GetOutputPorts | HackYeah/Assets/Cord/Cord/UnityDialogue/DialogueNode.cs:86 | the result is the port search of the output container |
| DialogueNodes.DialogueNode.GetInputPorts | HackYeah/Assets/Cord/Cord/UnityDialogue/DialogueNode.cs:88 | the result is the port search of the input container |
| DialogueNodes.DialogueNode.RebuildOutputPorts | HackYeah/Assets/Cord/Cord/UnityDialogue/BranchNode.cs:30-57 | the output container is rebuilt with one row per choice, in choice order, each row holding one new output port of this node |
| DialogueNodes.DialogueNode.AddChoice | HackYeah/Assets/Cord/Cord/UnityDialogue/BranchNode.cs:24-28 | the label is appended after the existing ones, which keep their indices, and there is again one port per choice |
| DialogueNodes.DialogueNode.ClearChoices | HackYeah/Assets/Cord/Cord/UnityDialogue/BranchNode.cs:59-62 | no choices remain and the port search of the outputs finds nothing |
| DialogueNodes.DialogueNode.PressAddChoice | HackYeah/Assets/Cord/Cord/UnityDialogue/BranchNode.cs:17 | the "Add Choice" button appends "Choice N" for the current counter N, then advances the counter by one |
| DialogueNodes.DialogueNode.OnChoiceFieldChanged | HackYeah/Assets/Cord/Cord/UnityDialogue/BranchNode.cs:42-46 | editing row i replaces label i only; the other labels and the number of labels are unchanged |
| DialogueNodes.PlainNodePorts | HackYeah/Assets/Cord/Cord/UnityDialogue/DialogueNode.cs:86-88 | a plain node's output search finds exactly its single output port, and its input search its input port |
| DialogueNodes.BranchNodePorts | HackYeah/Assets/Cord/Cord/UnityDialogue/DialogueNode.cs:93-104 | a branch's output search returns its row ports last row first: entry k is the port of row n-1-k, where n is the number of rows; none is a direct child of the output container |
| UIHelpers.WrapText | HackYeah/Assets/Cord/Cord/UnityDialogue/UIHelpers.cs:5-43 | empty text comes back unchanged; otherwise the result is the greedy wrap of the words, the lines joined with "\n" |
| UIHelpers.StepWord | HackYeah/Assets/Cord/Cord/UnityDialogue/UIHelpers.cs:15-37 | one word: a line that would overflow is flushed, then a long word is cut into chunks or a short word is appended with a space |
| UIHelpers.AddChunks | HackYeah/Assets/Cord/Cord/UnityDialogue/UIHelpers.cs:29-35 | the inner loop appends the width-sized chunks of the word, in order |
| UIHelpers.ChunksShape | HackYeah/Assets/Cord/Cord/UnityDialogue/UIHelpers.cs:21-36 | a word is cut into chunks of exactly the width, then a non-empty remainder of at most the width, and the chunks spell the word |
| UIHelpers.WrapLinesBounded | HackYeah/Assets/Cord/Cord/UnityDialogue/UIHelpers.cs:15-40 | with a width of at least 1, every emitted line fits within the width |
| UIHelpers.WrapLinesTrimmed | HackYeah/Assets/Cord/Cord/UnityDialogue/UIHelpers.cs:17 | no emitted line ends in a space |
| UIHelpers.WrapKeepsWords | HackYeah/Assets/Cord/Cord/UnityDialogue/UIHelpers.cs:9-42 | for text whose only whitespace is spaces and newlines, deleting those from the wrapped text gives the input with them deleted: the words are kept, in order |
| TwineText.IndexOfFrom | HackYeah/Assets/Cord/Cord/TwineDialogue/TwineImporter.cs:49 | the first occurrence of a token at or after a position, or -1 when there is none |
| TwineText.StripCommentsNoOpening | HackYeah/Assets/Cord/Cord/TwineDialogue/TwineImporter.cs:49 | text without a comment opening is left as it is |
| TwineText.StripCommentsCut | HackYeah/Assets/Cord/Cord/TwineDialogue/TwineImporter.cs:49 | the first comment, through the first closing after its opening, is cut, and the rest is processed on its own |
| TwineText.StripCommentsSinglePass | HackYeah/Assets/Cord/Cord/TwineDialogue/TwineImporter.cs:49 | removal is one pass: cutting an inner comment can form a new comment, which stays in the text |
| TwineText.SplitSpans | HackYeah/Assets/Cord/Cord/TwineDialogue/TwineImporter.cs:66 | the split pieces tile the text in order: consecutive pieces are separated by one separator match at a line start, and no separator starts inside a piece |
| TwineText.PassageTextsNoSeparator | HackYeah/Assets/Cord/Cord/TwineDialogue/TwineImporter.cs:66 | text with no line starting with optional whitespace then "::" is a single chunk |
| TwineText.CutMetadataOfBlock | HackYeah/Assets/Cord/Cord/TwineDialogue/TwineImporter.cs:87 | a header name followed by a {...} metadata block keeps only the trimmed name |
| TwineText.CutMetadataNoBlock | HackYeah/Assets/Cord/Cord/TwineDialogue/TwineImporter.cs:87 | a header whose last visible character is not "}" is only trimmed |
| TwineText.UnquoteHeader | HackYeah/Assets/Cord/Cord/TwineDialogue/TwineImporter.cs:89 | a header of at least two characters wrapped in double quotes loses exactly those two quotes; any other header is unchanged |
| TwineText.RemoveBracesClean | HackYeah/Assets/Cord/Cord/TwineDialogue/TwineImporter.cs:104 | after directive removal no "{" is followed anywhere later by a "}" |
| TwineText.RemoveBracesIdempotent | HackYeah/Assets/Cord/Cord/TwineDialogue/TwineImporter.cs:104 | removing directives twice gives the same text as removing them once |
| TwineText.RemoveBracesOfDirective | HackYeah/Assets/Cord/Cord/TwineDialogue/TwineImporter.cs:104 | a {...} directive between brace-free text is cut out entirely and the rest is kept |
| TwineText.BodyLine | HackYeah/Assets/Cord/Cord/TwineDialogue/TwineImporter.cs:100-106 | a kept body line is non-empty, trimmed, and free of {...} spans |
| TwineText.BodyLines | HackYeah/Assets/Cord/Cord/TwineDialogue/TwineImporter.cs:95-107 | the kept lines of a body are at most as many as its raw lines, each clean |
| TwineText.ParsePassage | HackYeah/Assets/Cord/Cord/TwineDialogue/TwineImporter.cs:68-116 | a chunk gives a passage only with a non-empty title, and every line of it is clean |
| TwineText.ParsedPassagesClean | HackYeah/Assets/Cord/Cord/TwineDialogue/TwineImporter.cs:62-120 | every parsed passage has a non-empty title and clean lines |
| TwineText.HeaderLine | HackYeah/Assets/Cord/Cord/TwineDialogue/TwineImporter.cs:73-91 | a chunk whose first line is a plain name gives a passage exactly when the name is not reserved, and then the title is that name, whatever the body |
| TwineText.ReservedHeaderSkipped | HackYeah/Assets/Cord/Cord/TwineDialogue/TwineImporter.cs:14-27 | a chunk headed by a reserved name (StoryTitle, StoryData, ...) gives no passage |
| TwineText.ReadBodyLine | HackYeah/Assets/Cord/Cord/TwineDialogue/TwineImporter.cs:100-106 | one raw line, read step by step, gives the line BodyLine describes |
| TwineText.ReadBodyLines | HackYeah/Assets/Cord/Cord/TwineDialogue/TwineImporter.cs:95-108 | the line loop keeps exactly the body's clean lines, in order |
| TwineText.ParsePassages | HackYeah/Assets/Cord/Cord/TwineDialogue/TwineImporter.cs:62-120 | the passages are those of the split chunks, in input order, skipping reserved and empty headers; every title is non-empty |
| TwineText.ParseParts | HackYeah/Assets/Cord/Cord/TwineDialogue/TwineImporter.cs:68-117 | the chunk loop keeps the passages the chunks give, in chunk order |
| TwineText.ReadPassage | HackYeah/Assets/Cord/Cord/TwineDialogue/TwineImporter.cs:70-116 | one chunk, read step by step, gives the passage ParsePassage describes |
| TwineText.NextChoice | HackYeah/Assets/Cord/Cord/TwineDialogue/TwineImporter.cs:155 | the result is the leftmost match at or after the position: "[[" there, the first "]]" after it, no newline inside; None exactly when no match starts at or after the position |
| TwineText.HasChoiceTokens | HackYeah/Assets/Cord/Cord/TwineDialogue/TwineImporter.cs:141 | a line counts as a choice line exactly when the match loop finds a [[...]] in it |
| TwineText.UnnestedFrom | HackYeah/Assets/Cord/Cord/TwineDialogue/TwineImporter.cs:273-287 | the least index at or after a position where the token occurs at bracket depth 0, counting the bracket at that index, or -1 |
| TwineText.IndexOfUnnested | HackYeah/Assets/Cord/Cord/TwineDialogue/TwineImporter.cs:273-287 | the depth loop returns -1 or the least index where the token occurs with depth 0; the depth never drops below 0 |
| TwineText.StripSurroundingQuotes | HackYeah/Assets/Cord/Cord/TwineDialogue/TwineImporter.cs:265-271 | the result is trimmed |
| TwineText.QuotedIsTrimmed | HackYeah/Assets/Cord/Cord/TwineDialogue/TwineImporter.cs:267 | a quoted text is unchanged by the first trim |
| TwineText.StripOneLayer | HackYeah/Assets/Cord/Cord/TwineDialogue/TwineImporter.cs:268 | a text in matching double or single quotes loses exactly one layer and is trimmed again |
| TwineText.StripUnquoted | HackYeah/Assets/Cord/Cord/TwineDialogue/TwineImporter.cs:270 | trimmed unquoted text is returned as it is |
| TwineText.ParseChoice | HackYeah/Assets/Cord/Cord/TwineDialogue/TwineImporter.cs:157-178 | label and target are both trimmed |
| TwineText.ParseChoiceNoArrow | HackYeah/Assets/Cord/Cord/TwineDialogue/TwineImporter.cs:159 | without an arrow, label and target are the same unquoted inner text |
| TwineText.ParseChoiceArrow | HackYeah/Assets/Cord/Cord/TwineDialogue/TwineImporter.cs:161-166 | for label->target the label is what stands before the first unnested arrow and the target what follows, each unquoted separately |
| TwineText.ParseChoiceBackArrow | HackYeah/Assets/Cord/Cord/TwineDialogue/TwineImporter.cs:169-174 | for target<-label with no "->", the sides are swapped: label after the arrow, target before it |
| TwineImporters.FirstChoiceLineIsFirst | HackYeah/Assets/Cord/Cord/TwineDialogue/TwineImporter.cs:136-143 | no line before the branch line holds a link, and the branch line, when there is one, does |
| TwineImporters.FirstChoiceBoundary | HackYeah/Assets/Cord/Cord/TwineDialogue/TwineImporter.cs:136-202 | the first line holding a link is the only point where the line loop can stop |
| TwineImporters.BlankHasNoChoice | HackYeah/Assets/Cord/Cord/TwineDialogue/TwineImporter.cs:139 | a blank line holds no link |
| TwineImporters.ChainLinesExact | HackYeah/Assets/Cord/Cord/TwineDialogue/TwineImporter.cs:136-139 | the lines that get a chain node are exactly the non-blank lines before the branch line, in increasing order |
| TwineImporters.LineRecordMoved | HackYeah/Assets/Cord/Cord/TwineDialogue/TwineImporter.cs:212-222 | a line's node is the same wherever it is placed |
| TwineImporters.PassageRecordsBranch | HackYeah/Assets/Cord/Cord/TwineDialogue/TwineImporter.cs:143-203 | a passage with a link line becomes its chain nodes, then one branch node whose text is the previous node's, or the title when the chain is empty, and nothing after it |
| TwineImporters.ChainLinks | HackYeah/Assets/Cord/Cord/TwineDialogue/TwineImporter.cs:226-232 | each node of a passage is linked from its predecessor, port 0 to port 0: one link fewer than nodes |
| TwineImporters.NextPassageStart | HackYeah/Assets/Cord/Cord/TwineDialogue/TwineImporter.cs:239 | each passage starts 250 below the one before |
| TwineImporters.ChainEdgeSaved | HackYeah/Assets/Cord/Cord/TwineDialogue/TwineImporter.cs:226-232 | between two chain nodes the edge always exists, and it saves as a link from port 0 to port 0 |
| TwineImporters.ChainEdgesSaved | HackYeah/Assets/Cord/Cord/TwineDialogue/TwineImporter.cs:226-232 | a passage's chain edges save as the chain links of its node records |
| TwineImporters.PassageChainSaved | HackYeah/Assets/Cord/Cord/TwineDialogue/TwineImporter.cs:194-200 | the chain edges of a built passage, the one into its branch included, save as the chain links of its records |
| TwineImporters.ChoiceEdgeSaved | HackYeah/Assets/Cord/Cord/TwineDialogue/TwineImporter.cs:248-259 | the edge of choice k leaves the port of row n-1-k, where n is the number of rows, and saves at port index k; it is made exactly when the target id is non-empty and names a created node |
| TwineImporters.BranchRowPort | HackYeah/Assets/Cord/Cord/TwineDialogue/TwineImporter.cs:252-255 | entry k of a branch's port list is the port of row n-1-k, of that branch, and is found again at index k |
| TwineImporters.RegistryAdd | HackYeah/Assets/Cord/Cord/TwineDialogue/TwineImporter.cs:224 | filing a node under its id keeps every entry under its own id and adds exactly that id |
| TwineImporters.LastText | HackYeah/Assets/Cord/Cord/TwineDialogue/TwineImporter.cs:147 | the branch takes the text of the last chain node, or the title when there is none |
| TwineImporters.ChoiceEdgesSaved | HackYeah/Assets/Cord/Cord/TwineDialogue/TwineImporter.cs:246-261 | a passage's choice edges save as its resolved choice links, in choice order |
| TwineImporters.BuiltChoiceEdgesSaved | HackYeah/Assets/Cord/Cord/TwineDialogue/TwineImporter.cs:242-263 | all built passages' choice edges save as the imported choice links, passage by passage |
| TwineImporters.CollectedChoice | HackYeah/Assets/Cord/Cord/TwineDialogue/TwineImporter.cs:182-188 | choice k of a passage waits at port index k of its branch for the k-th parsed target |
| TwineImporters.ImportedRegistry | HackYeah/Assets/Cord/Cord/TwineDialogue/TwineImporter.cs:131 | the created-node map files every new node under its own id, and its keys are the ids of the new records |
| TwineImporters.ImportedEdgesAmong | HackYeah/Assets/Cord/Cord/TwineDialogue/TwineImporter.cs:56-59 | every edge an import adds runs between nodes the import created |
| TwineImporters.TwineImporter.constructor | HackYeah/Assets/Cord/Cord/TwineDialogue/TwineImporter.cs:29-32 | a new importer targets the given canvas, with no created nodes and the start position at (100, 100) |
| TwineImporters.TwineImporter.ImportToGraph | HackYeah/Assets/Cord/Cord/TwineDialogue/TwineImporter.cs:34-45 | a missing file changes nothing; otherwise the canvas gains exactly the nodes and links the file's text describes |
| TwineImporters.TwineImporter.Import | HackYeah/Assets/Cord/Cord/TwineDialogue/TwineImporter.cs:47-60 | the canvas gains new nodes and edges, and nothing else changes; saved, they are exactly ImportedGraph of the text: every passage's nodes, then the chain links, then the resolved choice links; every new edge runs between new nodes |
| TwineImporters.TwineImporter.Reset | HackYeah/Assets/Cord/Cord/TwineDialogue/TwineImporter.cs:53-54 | the created nodes are forgotten and the start goes back to (100, 100); the canvas is untouched |
| TwineImporters.TwineImporter.ImportPassages | HackYeah/Assets/Cord/Cord/TwineDialogue/TwineImporter.cs:53-59 | building then connecting the passages adds exactly the records and links PassagesGraph describes |
| TwineImporters.TwineImporter.BuildPassages | HackYeah/Assets/Cord/Cord/TwineDialogue/TwineImporter.cs:56-57 | the passage loop builds each passage in order, each starting one step below the last |
| TwineImporters.TwineImporter.ImportedNext | HackYeah/Assets/Cord/Cord/TwineDialogue/TwineImporter.cs:56-57 | building passage i after the first i passages gives the first i+1 passages imported |
| TwineImporters.TwineImporter.ConnectBuiltChoices | HackYeah/Assets/Cord/Cord/TwineDialogue/TwineImporter.cs:59 | connecting the choices adds edges that save as the imported choice links, and leaves the built nodes and chain edges as they were |
| TwineImporters.TwineImporter.ConnectChoices | HackYeah/Assets/Cord/Cord/TwineDialogue/TwineImporter.cs:242-263 | the canvas gains the choice edges of every passage, in order |
| TwineImporters.TwineImporter.ConnectPassageChoices | HackYeah/Assets/Cord/Cord/TwineDialogue/TwineImporter.cs:246-261 | the canvas gains one passage's choice edges, in choice order |
| TwineImporters.TwineImporter.ConnectChoice | HackYeah/Assets/Cord/Cord/TwineDialogue/TwineImporter.cs:248-259 | one choice adds its edge when its target id is non-empty and known, its port index is in range and the target has an input port; otherwise nothing |
| TwineImporters.TwineImporter.BuildPassageGraph | HackYeah/Assets/Cord/Cord/TwineDialogue/TwineImporter.cs:122-240 | a passage adds its nodes, filed by id, whose records are PassageRecords at the current start, with the chain edges between them; the start moves 250 down; the passage's choices are collected |
| TwineImporters.TwineImporter.AddTitleNode | HackYeah/Assets/Cord/Cord/TwineDialogue/TwineImporter.cs:127-134 | an empty passage adds one node whose id and text are the title, with an empty speaker |
| TwineImporters.TwineImporter.BuildLines | HackYeah/Assets/Cord/Cord/TwineDialogue/TwineImporter.cs:136-237 | the line loop builds the passage's chain and, at the first link line, its branch |
| TwineImporters.TwineImporter.TakeLine | HackYeah/Assets/Cord/Cord/TwineDialogue/TwineImporter.cs:138-236 | one line: a blank line is skipped, a link line adds the branch and ends the passage, and any other line adds its chain node one step right |
| TwineImporters.TwineImporter.AddLineNode | HackYeah/Assets/Cord/Cord/TwineDialogue/TwineImporter.cs:206-235 | a line without a link adds its node: the title for line 0, otherwise the id title_lineN with speaker and text split at the first ":"; it is linked from the previous node |
| TwineImporters.TwineImporter.AddBranchNode | HackYeah/Assets/Cord/Cord/TwineDialogue/TwineImporter.cs:143-203 | the first link line adds the branch node after the chain, linked from the last chain node, and finishes the passage |
| TwineImporters.TwineImporter.NewTitleNode | HackYeah/Assets/Cord/Cord/TwineDialogue/TwineImporter.cs:129-130 | the node of an empty passage saves as the title record at the start position |
| TwineImporters.TwineImporter.NewLineNode | HackYeah/Assets/Cord/Cord/TwineDialogue/TwineImporter.cs:212-222 | the node of line i saves as LineRecord: line 0 takes the title, a later line its own speaker and text |
| TwineImporters.TwineImporter.NewBranch | HackYeah/Assets/Cord/Cord/TwineDialogue/TwineImporter.cs:145-190 | the branch has id title_branch, the given text, one row per link of every line of the passage, and a pending choice per row at its index |
| TwineImporters.ReadChoice | HackYeah/Assets/Cord/Cord/TwineDialogue/TwineImporter.cs:157-178 | one [[...]] inner text gives the label and target ParseChoice describes |
| TwineImporters.CollectChoices | HackYeah/Assets/Cord/Cord/TwineDialogue/TwineImporter.cs:153-190 | every link of every line becomes one choice label of the branch, in order, and one pending choice at its port index |
| TwineImporters.TwineImporter.ConnectFirstPorts | HackYeah/Assets/Cord/Cord/TwineDialogue/TwineImporter.cs:194-200 | an edge from the first output port of one node to the first input port of the next is added when both exist |
| TwineImporters.TwineImporter.AddToPassage | HackYeah/Assets/Cord/Cord/TwineDialogue/TwineImporter.cs:224-232 | a node joins the canvas and the created nodes, and is linked from the previous chain node when there is one |
| DialogueJsonUtility.LinksFrom | HackYeah/Assets/Cord/Cord/JsonDialogue/DialogueJsonUtility.cs:13-14 | the group of a source id holds exactly the links leaving that id, and no more entries than there are links |
| DialogueJsonUtility.SourcePositionsExact | HackYeah/Assets/Cord/Cord/JsonDialogue/DialogueJsonUtility.cs:13-14 | the positions of the links leaving an id are all listed, once each, in increasing order |
| DialogueJsonUtility.LinksFromInOrder | HackYeah/Assets/Cord/Cord/JsonDialogue/DialogueJsonUtility.cs:13-14 | GroupBy keeps link order: the k-th entry of the group is the link at the k-th position leaving the id |
| DialogueJsonUtility.FirstAtPortOfGroup | HackYeah/Assets/Cord/Cord/JsonDialogue/DialogueJsonUtility.cs:36-37 | FirstOrDefault at port i on the group finds the first link of the whole list that leaves the node at port i |
| DialogueJsonUtility.FirstOfGroup | HackYeah/Assets/Cord/Cord/JsonDialogue/DialogueJsonUtility.cs:46-47 | the group's first entry is the first link of the whole list that leaves the node |
| DialogueJsonUtility.FirstAtPort | HackYeah/Assets/Cord/Cord/JsonDialogue/DialogueJsonUtility.cs:38 | the first link of the group at a port index, or -1 when none is at that index |
| DialogueJsonUtility.ExportDialogMeaning | HackYeah/Assets/Cord/Cord/JsonDialogue/DialogueJsonUtility.cs:16-51 | a dialog copies id, speaker, text and function; for a branch, choice i has label i, its nextId is the target of the first link (in link order) leaving the node at port i, and "" when no link leaves at port i; for a plain node there are no choices, the nextId is the target of its first outgoing link in link order, and "" without one |
| DialogueJsonUtility.ExportShape | HackYeah/Assets/Cord/Cord/JsonDialogue/DialogueJsonUtility.cs:16-53 | the export has one dialog per node record, in node order, with the record's id |
| DialogueJsonUtility.ExportToJson | HackYeah/Assets/Cord/Cord/JsonDialogue/DialogueJsonUtility.cs:9-60 | the record-building loops produce exactly Export of the container |
| DialogueJsonUtility.ChoiceLinksMembers | HackYeah/Assets/Cord/Cord/JsonDialogue/DialogueJsonUtility.cs:102-118 | a dialog's choice links are exactly, for each choice i with a non-empty nextId, a link at port i to that id and port 0 |
| DialogueJsonUtility.ImportLinksMembers | HackYeah/Assets/Cord/Cord/JsonDialogue/DialogueJsonUtility.cs:89-119 | the imported links are exactly a port-0 link for each non-empty nextId and a port-i link for each choice i with one; the target port is always 0 and targets are not checked |
| DialogueJsonUtility.AddDialogLinks | HackYeah/Assets/Cord/Cord/JsonDialogue/DialogueJsonUtility.cs:91-118 | the link loop for one dialog appends that dialog's links, in order |
| DialogueJsonUtility.ImportFromJson | HackYeah/Assets/Cord/Cord/JsonDialogue/DialogueJsonUtility.cs:62-123 | there is no container exactly when the file is missing; otherwise one record per dialog in order, a branch exactly when it has choices, then the imported links, with the records laid out by AutoLayout |
| DialogueJsonUtility.NodeIndex | HackYeah/Assets/Cord/Cord/JsonDialogue/DialogueJsonUtility.cs:160 | the first record with the id, or -1 when no record has it |
| DialogueJsonUtility.ExportImportNodes | HackYeah/Assets/Cord/Cord/JsonDialogue/DialogueJsonUtility.cs:16-87 | export then import gives back every node record, in order, apart from its position |
| DialogueJsonUtility.OneLinkPerPort | HackYeah/Assets/Cord/Cord/JsonDialogue/DialogueJsonUtility.cs:38 | in an exportable container at most one link leaves a node at each port |
| DialogueJsonUtility.LinkSurvives | HackYeah/Assets/Cord/Cord/JsonDialogue/DialogueJsonUtility.cs:26-51 | every link of an exportable container is carried by its node's exported dialog |
| DialogueJsonUtility.LinkCameFrom | HackYeah/Assets/Cord/Cord/JsonDialogue/DialogueJsonUtility.cs:89-119 | every link the import creates from an exported container was in it |
| DialogueJsonUtility.ExportImportRoundTrip | HackYeah/Assets/Cord/Cord/JsonDialogue/DialogueJsonUtility.cs:9-123 | for an exportable container (unique ids; target port 0; a plain node leaves only port 0 and holds no labels; a branch has labels and leaves only their ports, one link each), import after export gives the same records in order apart from positions, and the same set of links |
| DialogueJsonUtility.ChildrenMap | HackYeah/Assets/Cord/Cord/JsonDialogue/DialogueJsonUtility.cs:127 | the children map has a key for exactly the ids some link leaves, and maps it only to link targets |
| DialogueJsonUtility.Targets | HackYeah/Assets/Cord/Cord/JsonDialogue/DialogueJsonUtility.cs:129 | the target set holds exactly the ids some link enters |
| DialogueJsonUtility.RootIndices | HackYeah/Assets/Cord/Cord/JsonDialogue/DialogueJsonUtility.cs:130 | each root is the position of a record no link targets |
| DialogueJsonUtility.RootIndicesExact | HackYeah/Assets/Cord/Cord/JsonDialogue/DialogueJsonUtility.cs:130 | every record no link targets is a root, and the roots come in strictly increasing record order, so each appears once |
| DialogueJsonUtility.LayoutRoots | HackYeah/Assets/Cord/Cord/JsonDialogue/DialogueJsonUtility.cs:130-132 | the layout roots are valid record positions: the untargeted records, or else the first record alone |
| DialogueJsonUtility.Place | HackYeah/Assets/Cord/Cord/JsonDialogue/DialogueJsonUtility.cs:145-170 | a layout step changes only positions and only adds visited ids |
| DialogueJsonUtility.PlaceChildren | HackYeah/Assets/Cord/Cord/JsonDialogue/DialogueJsonUtility.cs:155-169 | laying out children changes only positions and only adds visited ids |
| DialogueJsonUtility.PlaceChildrenStep | HackYeah/Assets/Cord/Cord/JsonDialogue/DialogueJsonUtility.cs:158-167 | a child id naming no record is skipped; otherwise child i is laid out at (x + 350, current y + i times 250) before the rest, and what it returns becomes the current y |
| DialogueJsonUtility.PlaceMoves | HackYeah/Assets/Cord/Cord/JsonDialogue/DialogueJsonUtility.cs:145-170 | an unvisited node ends at (x, y) and is marked visited; only unvisited nodes move, so each node is placed at most once; every moved node is reached from the start through the links |
| DialogueJsonUtility.FirstChildPlaced | HackYeah/Assets/Cord/Cord/JsonDialogue/DialogueJsonUtility.cs:158-166 | the first child of a node laid out at (x, y), when unvisited and named by a record, ends at (x + 350, y) |
| DialogueJsonUtility.LayoutRootsFromPlaces | HackYeah/Assets/Cord/Cord/JsonDialogue/DialogueJsonUtility.cs:138-142 | the first root lands at (100, start y); with roots not reaching one another, root q lands at (100, start y + 400 times q) |
| DialogueJsonUtility.UnreachedKept | HackYeah/Assets/Cord/Cord/JsonDialogue/DialogueJsonUtility.cs:138-142 | a node no root reaches through the links keeps its position |
| DialogueJsonUtility.AutoLayoutRoots | HackYeah/Assets/Cord/Cord/JsonDialogue/DialogueJsonUtility.cs:130-142 | the first root lands at (100, 100); with unique ids and some untargeted record, root r lands at (100, 100 + 400 times r) |
| DialogueJsonUtility.LayoutNodeRecursive | HackYeah/Assets/Cord/Cord/JsonDialogue/DialogueJsonUtility.cs:145-170 | the recursive method returns the records, the visited ids and the y that Place describes |
| DialogueJsonUtility.AutoLayoutNodes | HackYeah/Assets/Cord/Cord/JsonDialogue/DialogueJsonUtility.cs:125-143 | the root loop returns AutoLayout of the records and links |
| GraphSaveUtilities.AtLeastZero | HackYeah/Assets/Cord/Cord/UnityDialogue/GraphSaveUtility.cs:61 | Mathf.Max(0, i) is never negative and keeps a non-negative i |
| GraphSaveUtilities.ClampIndex | HackYeah/Assets/Cord/Cord/UnityDialogue/GraphSaveUtility.cs:137 | a clamped index is never negative, is below the count when there are ports, and keeps an index already in range |
| GraphSaveUtilities.NodeRecords | HackYeah/Assets/Cord/Cord/UnityDialogue/GraphSaveUtility.cs:26-44 | one record per canvas node, in canvas order, each the node's id, fields, position, kind, and labels for a branch |
| GraphSaveUtilities.LinkRecords | HackYeah/Assets/Cord/Cord/UnityDialogue/GraphSaveUtility.cs:46-67 | one link record per edge, in edge order, with the ports' positions in the port lists, floored at 0 |
| GraphSaveUtilities.SavedBranchRowIndex | HackYeah/Assets/Cord/Cord/UnityDialogue/GraphSaveUtility.cs:52-55 | an edge leaving row r of a branch is saved at port index n-1-r, where n is the number of rows |
| GraphSaveUtilities.SavedPlainIndex | HackYeah/Assets/Cord/Cord/UnityDialogue/GraphSaveUtility.cs:52-56 | an edge leaving a plain node, or entering any node, is saved at port index 0 |
| GraphSaveUtilities.NodeWithId | HackYeah/Assets/Cord/Cord/UnityDialogue/GraphSaveUtility.cs:124-132 | the lookup finds a node with the id, or -1 when no canvas node has it |
| GraphSaveUtilities.NodeWithIdUnique | HackYeah/Assets/Cord/Cord/UnityDialogue/GraphSaveUtility.cs:124 | with distinct ids, looking up a node's own id finds that node |
| GraphSaveUtilities.PortListsDistinct | HackYeah/Assets/Cord/Cord/UnityDialogue/GraphSaveUtility.cs:52-53 | a node's output and input port lists hold no port twice, and only ports of that node |
| GraphSaveUtilities.LoadThenSaveLink | HackYeah/Assets/Cord/Cord/UnityDialogue/GraphSaveUtility.cs:122-148 | a link that loads saves back with the same ids, its source index clamped into the port list, and target port 0 |
| GraphSaveUtilities.SaveThenLoadEdge | HackYeah/Assets/Cord/Cord/UnityDialogue/GraphSaveUtility.cs:46-67 | with distinct ids, saving an edge between two canvas ports and loading the link draws the same edge again, between the same two ports |
| GraphSaveUtilities.GraphSaveUtility.constructor | HackYeah/Assets/Cord/Cord/UnityDialogue/GraphSaveUtility.cs:12-15 | GetInstance targets the given canvas, with no cached container |
| GraphSaveUtilities.GraphSaveUtility.SaveGraph | HackYeah/Assets/Cord/Cord/UnityDialogue/GraphSaveUtility.cs:17-72 | nothing for an empty path; otherwise the container of the canvas's node records and link records |
| GraphSaveUtilities.GraphSaveUtility.SaveNodes | HackYeah/Assets/Cord/Cord/UnityDialogue/GraphSaveUtility.cs:26-44 | the node loop produces NodeRecords of the canvas nodes |
| GraphSaveUtilities.GraphSaveUtility.SaveLinks | HackYeah/Assets/Cord/Cord/UnityDialogue/GraphSaveUtility.cs:46-67 | the edge loop produces LinkRecords of the canvas edges |
| GraphSaveUtilities.GraphSaveUtility.LoadGraph | HackYeah/Assets/Cord/Cord/UnityDialogue/GraphSaveUtility.cs:74-88 | an empty path or a missing container leaves the canvas untouched; otherwise the canvas is replaced by one node per record in order, and it throws exactly when ids repeat, leaving no edges; otherwise the edges are the loaded links |
| GraphSaveUtilities.GraphSaveUtility.ClearGraph | HackYeah/Assets/Cord/Cord/UnityDialogue/GraphSaveUtility.cs:90-95 | no node and no edge remains |
| GraphSaveUtilities.GraphSaveUtility.CreateNodes | HackYeah/Assets/Cord/Cord/UnityDialogue/GraphSaveUtility.cs:97-120 | one node per cached record is appended, in record order, each saving back as its record, with a fresh GUID for an empty id |
| GraphSaveUtilities.GraphSaveUtility.CreateNode | HackYeah/Assets/Cord/Cord/UnityDialogue/GraphSaveUtility.cs:101-118 | one record's node joins the canvas and saves back as the record |
| GraphSaveUtilities.GraphSaveUtility.LoadNode | HackYeah/Assets/Cord/Cord/UnityDialogue/GraphSaveUtility.cs:103-118 | the node of a record carries its id, or the fresh GUID when that is empty, its fields and position, and for a branch its labels with one row each |
| GraphSaveUtilities.GraphSaveUtility.LoadFields | HackYeah/Assets/Cord/Cord/UnityDialogue/GraphSaveUtility.cs:105-117 | the node is created at the record's position, with the record's id and fields |
| GraphSaveUtilities.GraphSaveUtility.AddChoices | HackYeah/Assets/Cord/Cord/UnityDialogue/GraphSaveUtility.cs:109-111 | after ClearChoices, the labels are added in order, with one row each |
| GraphSaveUtilities.GraphSaveUtility.ConnectNodes | HackYeah/Assets/Cord/Cord/UnityDialogue/GraphSaveUtility.cs:122-148 | the dictionary throws exactly when canvas ids repeat; otherwise one edge per link that resolves, in link order |
| GraphSaveUtilities.GraphSaveUtility.ConnectAll | HackYeah/Assets/Cord/Cord/UnityDialogue/GraphSaveUtility.cs:126-147 | the link loop adds LoadedEdges of the links |
| GraphSaveUtilities.GraphSaveUtility.ConnectLink | HackYeah/Assets/Cord/Cord/UnityDialogue/GraphSaveUtility.cs:128-146 | one link adds its edge when it resolves, and nothing otherwise |
| GraphSaveUtilities.GraphSaveUtility.ResolveLink | HackYeah/Assets/Cord/Cord/UnityDialogue/GraphSaveUtility.cs:128-143 | a link becomes no edge when an id is unknown or an end has no ports; otherwise the edge between the clamped ports |
| DialogueGraphViews.Ids | HackYeah/Assets/Cord/Cord/UnityDialogue/DialogueGraphView.cs:61 | the ids of the canvas nodes, one per node, in node order |
| DialogueGraphViews.CompatiblePortsMembers | HackYeah/Assets/Cord/Cord/UnityDialogue/DialogueGraphView.cs:63-75 | a port is offered exactly when it is on the canvas and not on the start port's node, which excludes the start port itself |
| DialogueGraphViews.EdgesWithinMembers | HackYeah/Assets/Cord/Cord/UnityDialogue/DialogueGraphView.cs:88-91 | the copied edges are exactly the edges whose two ends are both on copied nodes |
| DialogueGraphViews.CloneMapClones | HackYeah/Assets/Cord/Cord/UnityDialogue/DialogueGraphView.cs:105-131 | the clone map's keys are exactly the copied nodes, and each maps to a clone of it with an id that was not on the canvas |
| DialogueGraphViews.PasteEdgeCases | HackYeah/Assets/Cord/Cord/UnityDialogue/DialogueGraphView.cs:133-158 | a copied edge is re-created exactly when it leaves a plain node from its output port, and then it runs from the clone's output port to the other clone's input port |
| DialogueGraphViews.PasteEdgeFromBranch | HackYeah/Assets/Cord/Cord/UnityDialogue/DialogueGraphView.cs:142-146 | an edge leaving a branch is never re-created: its port is not a direct child of the output container |
| DialogueGraphViews.PasteEdgeFromPlain | HackYeah/Assets/Cord/Cord/UnityDialogue/DialogueGraphView.cs:142-156 | an edge leaving a plain node's output port is re-created between the clones, and any other is skipped |
| DialogueGraphViews.EditKeepsDistinct | HackYeah/Assets/Cord/Cord/UnityDialogue/DialogueNode.cs:33 | with the canvas as validator, an id edit keeps the canvas ids distinct |
| DialogueGraphViews.EditWithoutValidatorCanDuplicate | HackYeah/Assets/Cord/Cord/UnityDialogue/DialogueNode.cs:33 | without a validator an edit can duplicate an id: renaming "a" to "b" next to "b" |
| DialogueGraphViews.NewPlacedNode | HackYeah/Assets/Cord/Cord/UnityDialogue/DialogueGraphView.cs:43-46 | a new node with the given GUID, the canvas as validator and the given position, with empty fields |
| DialogueGraphViews.MakeClone | HackYeah/Assets/Cord/Cord/UnityDialogue/DialogueGraphView.cs:110-126 | a new node offset by (50, 50) from the original, with its speaker, text, function and labels, and the second GUID as id |
| DialogueGraphViews.GraphView.constructor | HackYeah/Assets/Cord/Cord/UnityDialogue/DialogueGraphView.cs:10-25 | a new canvas has no nodes, edges or selection, and empty copy buffers |
| DialogueGraphViews.GraphView.IsIdUsed | HackYeah/Assets/Cord/Cord/UnityDialogue/DialogueGraphView.cs:61 | true exactly when some canvas node has that id |
| DialogueGraphViews.GraphView.CreateDialogueNode | HackYeah/Assets/Cord/Cord/UnityDialogue/DialogueGraphView.cs:41-49 | a plain node with an id new to the canvas, the canvas as validator and empty fields is appended at the position, with one output port |
| DialogueGraphViews.GraphView.CreateBranchNode | HackYeah/Assets/Cord/Cord/UnityDialogue/DialogueGraphView.cs:51-59 | a branch with an id new to the canvas, no choices and no output ports is appended at the position |
| DialogueGraphViews.GraphView.AddNode | HackYeah/Assets/Cord/Cord/UnityDialogue/DialogueGraphView.cs:45 | AddElement appends the node and its id |
| DialogueGraphViews.GraphView.Select | HackYeah/Assets/Cord/Cord/UnityDialogue/DialogueGraphView.cs:130 | AddToSelection appends the node to the selection and leaves the canvas as it is |
| DialogueGraphViews.GraphView.AddEdge | HackYeah/Assets/Cord/Cord/UnityDialogue/DialogueGraphView.cs:155 | AddElement appends the edge |
| DialogueGraphViews.GraphView.RemoveAllElements | HackYeah/Assets/Cord/Cord/UnityDialogue/GraphSaveUtility.cs:92-94 | removing every graph element leaves no node and no edge |
| DialogueGraphViews.GraphView.EditNodeId | HackYeah/Assets/Cord/Cord/UnityDialogue/DialogueNode.cs:30-39 | typing into node k's id field changes only node k's id, by the acceptance rule with the canvas as validator, and keeps distinct ids distinct |
| DialogueGraphViews.GraphView.GetCompatiblePorts | HackYeah/Assets/Cord/Cord/UnityDialogue/DialogueGraphView.cs:63-75 | the result is every canvas port not on the start port's node, in canvas order |
| DialogueGraphViews.GraphView.CopySelection | HackYeah/Assets/Cord/Cord/UnityDialogue/DialogueGraphView.cs:77-94 | the buffer becomes the selected nodes, and the copied edges exactly the edges with both ends among them; an empty selection leaves both buffers empty |
| DialogueGraphViews.GraphView.CloneNode | HackYeah/Assets/Cord/Cord/UnityDialogue/DialogueGraphView.cs:108-130 | one clone with an id new to the canvas is appended to the canvas and to the selection |
| DialogueGraphViews.GraphView.CloneStep | HackYeah/Assets/Cord/Cord/UnityDialogue/DialogueGraphView.cs:106-131 | one more copied node cloned keeps the paste invariant |
| DialogueGraphViews.GraphView.CloneCopiedNodes | HackYeah/Assets/Cord/Cord/UnityDialogue/DialogueGraphView.cs:103-131 | the selection is cleared, then becomes one clone per copied node, in order; the clone map is filled in copy order |
| DialogueGraphViews.GraphView.ReconnectEdge | HackYeah/Assets/Cord/Cord/UnityDialogue/DialogueGraphView.cs:135-157 | one copied edge adds its re-created edge, or nothing |
| DialogueGraphViews.GraphView.ReconnectCopiedEdges | HackYeah/Assets/Cord/Cord/UnityDialogue/DialogueGraphView.cs:133-158 | the edge loop adds the re-created copied edges, in order, and changes no node |
| DialogueGraphViews.GraphView.ReconnectPasted | HackYeah/Assets/Cord/Cord/UnityDialogue/DialogueGraphView.cs:133-158 | re-creating the copied edges keeps every fact about the pasted clones |
| DialogueGraphViews.GraphView.PasteSelection | HackYeah/Assets/Cord/Cord/UnityDialogue/DialogueGraphView.cs:96-160 | an empty buffer changes nothing; otherwise the clones are appended and are exactly the new selection, each cloned from its original with a fresh id; the copied edges are re-created between the clones where PasteEdge maps them; the originals are outside the method's frame and unchanged |

## Left out

- File and asset I/O is outside the model. This covers `File.Exists`, `ReadAllText` and `WriteAllText`, and `AssetDatabase` create, load and save. A file or asset that is read is an `Option` input, and one that is written is the method's result. The `EditorUtility.DisplayDialog` pop-ups and the `Debug.Log` messages are dropped.
- The text format of `JsonUtility.ToJson` and `FromJson` is not modelled: it is a library serialiser. Only the record-to-record mapping is modelled.
- `Guid.NewGuid()` is a deterministic oracle that returns a non-empty id not in use. The GUID text format is not modelled.
- `Vector2` positions are integer pairs. Every position the core assigns is an integer sum of 100, 50, 250, 350 and 400 steps, so nothing is rounded.
- C# `null` strings are treated as `""`, since every reader tests them with `IsNullOrEmpty`. A JSON `choices` list that is `null` is treated as empty.
- The .NET regular expressions are written out as explicit scanners.
  - Whitespace is `char.IsWhiteSpace`.
  - `StartsWith` and `EndsWith` on one-character strings are ordinal tests. Culture-sensitive comparison is not modelled.
- The TextField widgets are left out: their display text (`WrapText` of the id or the dialogue), colours, manipulators and `SetPosition` sizes. Also left out are the speaker, dialogue and function field callbacks, which only assign a field.
- `Port.Capacity.Single` is not enforced, and no edge is refused because a port already has one. Port orientation and port type are not modelled.
- The order of `graphView.nodes`, `graphView.edges` and `ports` is taken to be insertion order. For `ports`, that is each node's input port and then its output ports.
- The selection holds nodes only. `RemoveAllElements` leaves the selection list as it is.
- `ConnectNodes` throws from `ToDictionary` when ids repeat. The model reports this as `threw`, with the nodes loaded and no edge drawn. How the exception propagates out of the editor callback is not modelled.
- The key-event routing (`OnKeyDown`) is not part of this model. Neither are `DialogueGraphWindow.cs` or the gameplay scripts under `Scripts/` and `3D/`.
- Strings are sequences of Unicode characters, while C# `Length`, `Substring` and indices count UTF-16 code units. The two agree on text without characters outside the Basic Multilingual Plane. For a character outside it, such as an emoji, C# counts two units. So `UIHelpers.WrapText` measures such a word as shorter than C# does and may leave it whole where C# cuts it into 40-unit chunks, possibly through a surrogate pair.
- A port's owning node is fixed when the port is made (`Port.node`). In the editor, a row port detached by `RebuildOutputPorts` or `ClearChoices` (`outputContainer.Clear()`) has no node any more. An edge still attached to such a port is skipped by `SaveGraph` and not copied by `CopySelection`. The model instead still sees its branch: `SaveGraph` saves it at source port 0, because `IndexOf` gives -1 and is floored at 0, and `CopySelection` copies it when both ends are selected.
- UIHelpers.WrapText: requires a width of at least 1. With a width of 0 the source's chunk loop never advances, and every caller passes 40.
- TwineText.IndexOfUnnested: requires a non-empty token. The source calls it only with `"->"` and `"<-"`.
- DialogueJsonUtility.FirstChildPlaced: states the position of the first child only. The rule for child i (x + 350, the y returned by the previous child plus i times 250) holds through the definition of `PlaceChildren` and `PlaceChildrenStep`.
- TwineText.StripSurroundingQuotes: its own contract states only that the result is trimmed. The cases are stated by `StripOneLayer` and `StripUnquoted`.
- TwineText.ParseChoice: its own contract states only that both parts are trimmed. The arrow cases are stated by `ParseChoiceNoArrow`, `ParseChoiceArrow` and `ParseChoiceBackArrow`, for sides without brackets.
