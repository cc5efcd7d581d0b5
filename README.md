# Reasoning-tree conversations, steps and tree viewer — a Dafny model

This project models the data core of the o1-replication-journey reasoning-tree tooling:

- **Messages and conversations** (`o1_replication_journey/conversation.py`): chat messages with a role, content, optional name and weight, and their compact dictionary form. It also covers the score read from a scoring message's `Total Score:` line, the `TERMINAL: YES/NO` verdict of a terminal-check message, and conversation concatenation. Finally it covers the message-dictionary export and import (`to_mmd`/`from_mmd`) and the Markdown rendering.
- **Reasoning steps** (`o1_replication_journey/step.py`): the root holding the base conversation, and reasoning steps linked to their parent. It covers step scores and ordering, terminal checks, and the two walks up to the root. One walk builds the conversation that prompts the next step; the other builds the trajectory of step messages.
- **Tree summaries for the viewer** (`visualize_tree.py`): whether a subtree still holds an accepted leaf, the score range of a subtree, and the colour of each step. It also covers the node list, edge list and id-to-step table that the viewer builds from a tree.

Modules:

- `Wrappers` (`wrappers.dfy`): `Option` and `Result`.
- `Strings` (`strings.dfy`): the Python string operations the core relies on. These are substring search (`in`, `find`), `split`, `join`, `strip`, ASCII `upper`/`title`, `hex(n)[2:]` and `zfill`.
- `Floats` (`floats.dfy`): a decimal reading of `float()` over an optional sign, digits and an optional point.
- `Conversations` (`conversation.dfy`): messages and conversations.
- `Steps` (`step.dfy`): the step tree seen from a node upwards. `Step` is a datatype whose `ReasoningStep` holds its `parentStep`. Both walks are `while` loops over the parent chain, proved equal to recursive functions of the path.
- `TreeView` (`visualize_tree.dfy`): the tree seen from the root downwards, as `Tree(id, kind, children)`. `create_flow_elements` is a recursive method with a loop over the children. It is proved equal to pre-order functions, and the lemmas relate those functions to the tree.

Where the code and its documentation disagree, the model follows the code:

- `ReasoningStep.to_stepped_conversation` (step.py:99-115) puts the stepper message after each step message, not before it. A first step under the root gives `base + [step, next]`, not `base + [next, step]`.
- With `with_next_stepper=False`, the code drops the stepper after the newest step, which is the last message of the result. It does not drop the stepper next to the root.
- The base conversation is always put in front (step.py:112), although the docstring at step.py:33 says "without system prompt".
- `Depth` counts the reasoning steps from the root down to the node. A step whose parent is the root has depth 1 and a trajectory of one message.

## Model

| member | source | states |
|---|---|---|
| Conversations.ParseRole | o1_replication_journey/conversation.py:11 | a role is accepted only as one of the literals `user`, `system`, `assistant`, and reads back as that literal; any other string is refused |
| Conversations.SystemMessage | o1_replication_journey/conversation.py:16-19 | the message's compact dictionary holds exactly role `system` and the content |
| Conversations.UserMessage | o1_replication_journey/conversation.py:21-24 | the message's compact dictionary holds exactly role `user` and the content |
| Conversations.AssistantMessage | o1_replication_journey/conversation.py:26-29 | the message's compact dictionary holds exactly role `assistant` and the content |
| Conversations.ToDict | o1_replication_journey/conversation.py:11-33 | role and content always present; `name` present iff set; `weight` present iff not the default 1; no other keys |
| Conversations.FromDict | o1_replication_journey/conversation.py:11-14 | validation succeeds exactly for the dictionaries that meet the schema (`Conforms`: role one of the three literals, content a string, name a string or `None` if present, weight an integer if present, other keys free); the role is refused exactly when it is not a literal; the message holds the dictionary's role and content, its name unless absent or `None`, and its weight or 1 |
| Conversations.DefaultsAndExtraKeysAccepted | o1_replication_journey/conversation.py:11-14 | `name: None`, `weight: 1` and a key outside the schema still validate, to the same message as `Message.user(content)` |
| Conversations.DictRoundTrip | o1_replication_journey/conversation.py:11-33 | validating the compact dictionary of any message gives back its role, content, name and weight |
| Conversations.UnknownRoleRejected | o1_replication_journey/conversation.py:11 | a role string outside the three literals fails validation |
| Conversations.CompactFormOfValidated | o1_replication_journey/conversation.py:11-33 | the compact form of a validated dictionary keeps its role and content, and its name and weight unless they are the defaults |
| Conversations.ToConversation | o1_replication_journey/conversation.py:35-37 | a one-message conversation holding the message |
| Conversations.ScoreMessageFrom | o1_replication_journey/conversation.py:43-46 | the score message has the same fields (same compact dictionary) as the message it is made from |
| Conversations.TerminalCheckMessageFrom | o1_replication_journey/conversation.py:72-75 | the terminal-check message has the same fields as the message it is made from |
| Conversations.AddMessage | o1_replication_journey/conversation.py:124-127 | `c + m`: the old messages unchanged, then `m`; length grows by one |
| Conversations.AddConversation | o1_replication_journey/conversation.py:124-128 | `c + d`: `c`'s messages, then `d`'s; lengths add |
| Conversations.PrependMessage | o1_replication_journey/conversation.py:130-132 | `m + c`: `m` first, then `c`'s messages unchanged |
| Conversations.AddMessageIsConcatenation | o1_replication_journey/conversation.py:124-132 | adding or prepending a message is concatenation with its one-message conversation |
| Conversations.AddConversationMonoid | o1_replication_journey/conversation.py:124-128 | concatenation is associative, with the empty conversation as its identity |
| Conversations.MmdEntry | o1_replication_journey/conversation.py:104-114 | the entry for any message, score and terminal-check messages included, is that message's compact dictionary |
| Conversations.ToMmd | o1_replication_journey/conversation.py:102-115 | one entry per message, in order, each the message's compact dictionary |
| Conversations.FromMmd | o1_replication_journey/conversation.py:97-100 | succeeds iff every entry validates, then with one message per entry in order; otherwise reports the first entry that fails |
| Conversations.MmdRoundTrip | o1_replication_journey/conversation.py:97-115 | importing an export succeeds and gives back every message's role, content, name and weight |
| Conversations.ToMmdOfConcatenation | o1_replication_journey/conversation.py:102-128 | the export of `c + d` is the export of `c` followed by that of `d` |
| Conversations.Block | o1_replication_journey/conversation.py:120 | a block starts with `**` (the bold role heading) and ends with the message's content |
| Conversations.ToMarkdown | o1_replication_journey/conversation.py:117-122 | every message's block occurs in the rendering |
| Conversations.Blocks | o1_replication_journey/conversation.py:119-122 | one Markdown block per message, in order |
| Conversations.RoleTitles | o1_replication_journey/conversation.py:120 | the roles title-case to `User`, `System`, `Assistant` |
| Conversations.ToMarkdownBase | o1_replication_journey/conversation.py:117-122 | an empty conversation renders as the empty string; one message renders as its block |
| Conversations.ToMarkdownAppend | o1_replication_journey/conversation.py:117-122 | adding a message adds a blank line and that message's block |
| Conversations.MarkedLines | o1_replication_journey/conversation.py:53 | every kept line holds `Total Score:`, and the result is empty iff no line holds it |
| Conversations.MarkedLinesMembers | o1_replication_journey/conversation.py:53 | a line is kept exactly when it is a line of the input that holds `Total Score:` |
| Conversations.ScoreWith | o1_replication_journey/conversation.py:48-62 | a score other than -1.0 comes from a line that holds `Total Score:` (which line, and how it is read: ScoreReadsLastMarkedLine) |
| Conversations.Score | o1_replication_journey/conversation.py:48-62 | content without `Total Score:` scores -1.0 |
| Conversations.ScoreWithoutMarker | o1_replication_journey/conversation.py:52-61 | content without `Total Score:` scores -1.0 |
| Conversations.LastMarkedLine | o1_replication_journey/conversation.py:53-55 | the marked line chosen is the last line that holds the marker |
| Conversations.SecondField | o1_replication_journey/conversation.py:56 | the second field of the split is the text between the first marker and the next one (or the line's end) |
| Conversations.ScoreReadsLastMarkedLine | o1_replication_journey/conversation.py:52-61 | the score is the parse of the stripped text after the first marker of the last marked line, or -1.0 when that does not parse |
| Conversations.SingleLine | o1_replication_journey/conversation.py:53 | text without a line break is one line |
| Conversations.LinesAppendLine | o1_replication_journey/conversation.py:53 | adding a line adds one element to the split, the rest unchanged |
| Conversations.ScoreLineField | o1_replication_journey/conversation.py:56 | after the marker, the field read is all the rest of the line |
| Conversations.ScoreOfFinalLine | o1_replication_journey/conversation.py:52-61 | content ending in a `Total Score:` line scores that line's stripped value, or -1.0 when it does not parse |
| Conversations.ExampleFields | o1_replication_journey/conversation.py:57-58 | ` 7.5` and ` 9` strip and parse to 7.5 and 9.0 |
| Conversations.ScoreExampleFinalLine | o1_replication_journey/conversation.py:52-58 | `reasoning...` then `Total Score: 7.5` scores 7.5 |
| Conversations.ScoreExampleLastLineWins | o1_replication_journey/conversation.py:53-55 | with two `Total Score:` lines (1 then 9), the later one wins: 9.0 |
| Conversations.ScoreLess | o1_replication_journey/conversation.py:64-66 | the order depends on the content only: two messages with the same content are never ordered |
| Conversations.ScoreLessIsStrictOrder | o1_replication_journey/conversation.py:64-66 | `a < b` iff a's score is greater; irreflexive, asymmetric, transitive |
| Conversations.IsFinal | o1_replication_journey/conversation.py:77-89 | `True` iff the upper-cased content holds `TERMINAL: YES`; `False` iff it holds `TERMINAL: NO` and not `TERMINAL: YES`; otherwise no verdict |
| Conversations.UpperIdempotent | o1_replication_journey/conversation.py:81-83 | upper-casing twice is upper-casing once |
| Conversations.IsFinalCaseInsensitive | o1_replication_journey/conversation.py:78-84 | the verdict depends only on the upper-cased content |
| Conversations.IsFinalFindsYes | o1_replication_journey/conversation.py:81-82 | content holding `terminal: yes` in any case is final, whatever else it holds (`TERMINAL: NO` included) |
| Conversations.IsFinalFindsNo | o1_replication_journey/conversation.py:83-84 | content holding `terminal: no` in any case, and no `TERMINAL: YES`, is not final |
| Conversations.IsFinalUndetermined | o1_replication_journey/conversation.py:78-84 | content holding neither marker gives no verdict (None) |
| Steps.StepperIsUserNext | o1_replication_journey/step.py:6 | the stepper message is the user message `next` |
| Steps.Score | o1_replication_journey/step.py:82-85 | the root scores 0.0; a reasoning step scores what its score message scores (the root's score is at step.py:55-57) |
| Steps.Less | o1_replication_journey/step.py:28-30 | between reasoning steps, the order is that of their score messages |
| Steps.LessIsStrictOrder | o1_replication_journey/step.py:28-30 | `a < b` iff a's score is greater; a strict order agreeing with the score messages' order |
| Steps.LeastIsHighestScored | o1_replication_journey/step.py:28-30 | a step that no other step precedes has the highest score |
| Steps.IsTerminalStep | o1_replication_journey/step.py:87-92 | no verdict without a terminal check, otherwise the check's `is_final` |
| Steps.IsTerminalMarker | o1_replication_journey/step.py:94-97 | a step is the terminal marker iff the trajectory ending at it ends with a `Done.` message |
| Steps.Ancestor | o1_replication_journey/step.py:103-106 | going n parent links up lowers the depth by n |
| Steps.PathMessages | o1_replication_journey/step.py:117-126 | one step message per level of the path |
| Steps.SteppedPath | o1_replication_journey/step.py:99-115 | two messages per level of the path |
| Steps.PathMessagesRootToNode | o1_replication_journey/step.py:117-126 | the i-th step message is that of the ancestor at depth i + 1: root-to-node order |
| Steps.SteppedPathLayout | o1_replication_journey/step.py:102-113 | step message i at position 2i, the stepper right after it |
| Steps.ReversePush | o1_replication_journey/step.py:112-113 | `xs[::-1]` of a list with one more element appended starts with that element, followed by the reversal of the rest (the same reversal is at step.py:125) |
| Steps.CollectStepAndStepper | o1_replication_journey/step.py:103-106 | one round of the walk (collect the stepper, then the node's message, move to the parent) keeps "stepped path above the node + reversal of what was collected" equal to the node's whole stepped path |
| Steps.SteppedConversation | o1_replication_journey/step.py:99-115 | the base conversation first, unchanged; then two messages per level, one fewer without the next stepper; with it, the last message is the stepper |
| Steps.Trajectory | o1_replication_journey/step.py:117-126 | one step message per level, the node's own message last |
| Steps.ToSteppedConversation | o1_replication_journey/step.py:99-115 | the walk up the parent chain returns the base conversation followed by the stepped path, less its last stepper when none is wanted (the root's case is step.py:59-60) |
| Steps.ToStepTrajectory | o1_replication_journey/step.py:117-126 | the walk returns the root's base conversation and the path's step messages in root-to-node order (the root's case is step.py:62-65) |
| Steps.RootSteppedConversation | o1_replication_journey/step.py:59-65 | a root gives its base conversation whatever the flag, and an empty trajectory |
| Steps.SteppedConversationLayout | o1_replication_journey/step.py:99-126 | at depth d: the base conversation unchanged, then step i at base+2i (the trajectory's i-th message) and a stepper at base+2i+1; length base+2d, or base+2d-1 without the next stepper |
| Steps.WithoutNextStepperDropsLast | o1_replication_journey/step.py:108-113 | without the next stepper the result is the one with it minus exactly its last message, which is the stepper |
| Steps.TrajectoryShape | o1_replication_journey/step.py:117-126 | the trajectory's base is the root's, it has depth-many messages, the node's own message last |
| Steps.RootOfPath | o1_replication_journey/step.py:103-106 | following all parent links reaches a root, the one whose base conversation is used (the same walk is at step.py:120-122) |
| Steps.FirstStepConversation | o1_replication_journey/step.py:99-126 | a step under the root gives `base + [m, next]`, or `base + [m]` without the next stepper, and trajectory `[m]` |
| TreeView.Preorder | visualize_tree.py:110-141 | the listing starts with the node itself; every node below a well-formed tree is well-formed |
| TreeView.ChildSubtreeInPreorder | visualize_tree.py:113-141 | every node of a child's subtree is listed in the parent's subtree |
| TreeView.HasAcceptedLeafs | visualize_tree.py:25-35 | an accepted step is not aborted, and a leaf step is accepted iff it is not aborted (inner steps: AcceptedIffPath) |
| TreeView.AcceptedPathIsAccepted | visualize_tree.py:25-35 | a path of non-aborted steps down to a leaf makes a step accepted |
| TreeView.AcceptedHasPath | visualize_tree.py:25-35 | an accepted step has such a path |
| TreeView.AcceptedIffPath | visualize_tree.py:25-35 | accepted iff such a path exists; an aborted step never is; a leaf step is iff not aborted |
| TreeView.MinMaxScores | visualize_tree.py:38-45 | lo <= hi, every score in the subtree (the node's own included) lies in [lo, hi], and both bounds are scores of the subtree; a leaf gives (score, score) |
| TreeView.MinMaxKids | visualize_tree.py:40-42 | the same over the first k children's subtrees |
| TreeView.WeightInUnitRange | visualize_tree.py:79-82 | a score between min and max has a weight between 0 and 1 |
| TreeView.WeightMonotone | visualize_tree.py:79-82 | a higher score has at least the weight of a lower one |
| TreeView.HexByteOfChannel | visualize_tree.py:85-86 | a channel from 0 to 255 prints as exactly two hex digits that read back as the channel; below 16 the padding supplies the leading `0` |
| TreeView.BlueChannel | visualize_tree.py:87 | `hex(40)[2:].zfill(2)` is `28` |
| TreeView.ChannelsInRange | visualize_tree.py:85-86 | a weight between 0 and 1 puts red and green between 40 and 240 |
| TreeView.ScoreColor | visualize_tree.py:76-88 | a `#` followed by at least six characters (the exact format in range: ScoreColorFormat) |
| TreeView.ScoreColorFormat | visualize_tree.py:76-88 | score 0.0 is `#00FF00`; otherwise `#` + 6 hex digits: red, green (both 40..240, 140 when min = max), then `28` |
| TreeView.HigherScoreIsGreener | visualize_tree.py:79-86 | a higher score is at least as green and at most as red |
| TreeView.NodeOf | visualize_tree.py:54-108 | the node carries the step's id |
| TreeView.NodeBackground | visualize_tree.py:58-102 | a root is drawn with background `#f5f5f5` and border `3px solid #ddd`; a step's background is its score colour |
| TreeView.NodeBorder | visualize_tree.py:89-103 | a step's border is `3px solid #888888` exactly when it carries an improved step |
| TreeView.EdgeTo | visualize_tree.py:120-136 | the edge runs from the parent's id to the child's, and is bright green and raised exactly when the child is accepted |
| TreeView.FlowNodes | visualize_tree.py:110-141 | the list starts with the node's own flow node |
| TreeView.CreateFlowElements | visualize_tree.py:48-160 | the nodes, edges and table built equal the pre-order node list, the per-child edge list (edge, then the child's edges) and the merged table |
| TreeView.FlowNodesFollowPreorder | visualize_tree.py:110-141 | one flow node per subtree node, in pre-order, the node itself first |
| TreeView.EdgeCount | visualize_tree.py:113-142 | #edges = #nodes - 1 |
| TreeView.EdgesAreTreeEdges | visualize_tree.py:113-142 | every edge runs from a subtree node to one of its children, styled by whether the child is accepted |
| TreeView.TreeEdgesAreEdges | visualize_tree.py:113-142 | every parent-child pair of the subtree has its edge |
| TreeView.EdgesToChildren | visualize_tree.py:113-138 | the node has an edge to each of its children |
| TreeView.IdsOfMembers | visualize_tree.py:54-56 | an id is among the ids of a node list exactly when some node of the list carries it |
| TreeView.IdsOfConcatenation | visualize_tree.py:143 | the ids of two concatenated node lists are the union of their ids |
| TreeView.IdsToStepKeys | visualize_tree.py:52-56 | the table's keys are exactly the ids of the subtree's nodes (the children's tables are merged in at line 143) |
| TreeView.IdsToStepValues | visualize_tree.py:52-56 | each key leads to a node of the subtree with that id (the children's tables are merged in at line 143) |
| Strings.IndexOf | o1_replication_journey/conversation.py:53-56 | the first position of the substring, or none when it occurs nowhere (the `in` tests at conversation.py:81-83 use it too) |
| Strings.Split | o1_replication_journey/conversation.py:53-56 | at least one part; two or more parts iff the separator occurs |
| Strings.SplitJoin | o1_replication_journey/conversation.py:53-56 | joining the parts with the separator gives back the text, and no part holds the separator |
| Strings.JoinHoldsParts | o1_replication_journey/conversation.py:119-122 | every part occurs in the joined text |
| Strings.SplitPartContains | o1_replication_journey/conversation.py:53-55 | whatever a line of the split contains, the whole text contains |
| Strings.StripTrims | o1_replication_journey/conversation.py:57 | the result is a slice of the input with only whitespace before and after it, and it neither starts nor ends with whitespace |
| Strings.LowerHexRoundTrip | visualize_tree.py:85-87 | the hex digits read back as the number; 16..255 takes two digits |
| Strings.ZFill | visualize_tree.py:85-87 | the result has length max(len, width) |
| Strings.ZFillPads | visualize_tree.py:85-87 | a string as wide as the width is kept; a shorter one keeps its characters at the right end and gains only `0`s, after a leading sign if there is one |
| Floats.ParseFloat | o1_replication_journey/conversation.py:52 | a text that parses is non-empty and made of digits and points after an optional sign; a leading `-` gives a value of at most 0 |
| Floats.ParseFloatReadsIntegers | o1_replication_journey/conversation.py:52 | the decimal form of an integer, with or without a minus sign, parses back to it |
| Floats.ParseFloatExamples | o1_replication_journey/conversation.py:52 | `7.5`, `9` and `-2` parse; the empty string and `.` do not |

## Left out

- The Streamlit UI in visualize_tree.py (`main`, page layout, the flow widget, session state, details panel) is not modelled. It is GUI code over a third-party library.
- Pickle loading and the resource cache (visualize_tree.py:14-18) are not modelled. They are file I/O and deserialisation.
- A flow node keeps what its style is computed from (`Look`: the root's fixed style, or the step's score, the score range and whether it was improved); `Background` and `Border` turn that into the `background` and `border` strings.
- Node labels are not modelled: the `textwrap.shorten` text, the `{score:.2f}` formatting and the root's first-message preview. They are presentation only.
- TreeView.CreateFlowElements: returns normally for a root whose base conversation is empty. The code raises `IndexError` there, because the root's label reads `messages[0]` (visualize_tree.py:64); labels are not modelled.
- TreeView.ScoreColor: scores, the weight and the channel products are exact reals, where the code computes in IEEE doubles (visualize_tree.py:79-86). A channel can then come out one lower in the code: with lo 0.1, hi 0.3 and score 0.2 the model's weight is exactly 0.5 and red is 140 (`8c`); in doubles the weight is 0.5000000000000001 and `int(40+200*(1-w))` gives 139 (`8b`).
- The constant style entries (`borderRadius`, `padding`, `width`, `pos`, `node_type`, `edge_type`, `animated`) and the edge id string are not modelled. They do not depend on the tree.
- The `typer.echo` diagnostics (conversation.py:60,86-88) are not modelled. They go to stderr; only the returned values are modelled.
- The `except` branch of `is_final` is not modelled: `str.upper` and `in` do not raise.
- Floats.ParseFloat: accepts only an optional sign, digits and an optional point, as an exact rational. Exponents, `inf`/`nan`, underscores and IEEE rounding of Python's `float()` are not modelled. The score lemmas hold for any parser (`ScoreWith` takes it as a parameter).
- Strings.Upper, Strings.Title: ASCII case mapping only, not Unicode `str.upper`/`str.title`. This is enough for the roles and the terminal markers.
- Conversations.FromDict: checks the exact types of the four fields and ignores other keys. Pydantic's lax coercion (e.g. `"2"` for an int weight) is not modelled.
- Conversations.FromMmd: reports only the first invalid entry and field, where pydantic reports all errors.
- The `cached_property` memoisation of `score` and `is_final` is not modelled. A function gives the same result.
- The subclasses `ScoreMessage` and `TerminalCheckMessage` are a `kind` tag on `Message`. The score and verdict functions take any message.
- Node identity (`id(step)`, visualize_tree.py:21-22) is an `id` field of `TreeView.Tree`; the model does not assume ids are distinct.
- The commented-out improved-step edges (visualize_tree.py:145-159) are not modelled.
- TreeView.HasAcceptedLeafs: requires a reasoning step. The root branches of `has_accepted_leafs` (visualize_tree.py:26-30 for a root with children, 34-35 for a childless root, which reads a missing attribute) are not modelled: the function is only called on children, which are always steps.
- Steps.Step holds the parent link only; `child_steps` lives in the down-linked `TreeView.Tree`. One inductive datatype cannot hold both links. The viewer's tree keeps each step's score as a real, its aborted flag, and whether an improved step is set.
- Cycle detection is not modelled. The code does none, and a Dafny datatype's parent chain always ends at a root, so both walks terminate.
