/**
 * The reasoning-step tree seen from a node upwards: a `Root` holding the
 * base conversation, and reasoning steps linked to the step they were
 * generated from. The two walks from a node up to the root rebuild the
 * conversation that prompted the next step and the trajectory of steps.
 */
module Steps {
  import opened Wrappers
  import opened Conversations

  const TERMINATION_MARKER: string := "Done."

  /** The prompt put between steps to ask for the next one: a user message saying `next`. */
  const STEPPER_MESSAGE: Message := Message(User, "next", None, 1, Plain)

  /** The stepper is the message `Message.user("next")` builds. */
  lemma StepperIsUserNext()
    ensures STEPPER_MESSAGE == UserMessage("next")
  {
  }

  /** A base conversation and the step messages generated after it. */
  datatype StepTrajectory = StepTrajectory(baseConversation: Conversation, stepMessages: seq<Message>)

  /**
   * A node of the tree with its link to its parent; following `parentStep`
   * always reaches a `Root`. The children of a node are the subject of
   * the viewer's tree (module TreeView).
   */
  datatype Step =
    | Root(baseConversation: Conversation)
    | ReasoningStep(
        parentStep: Step,
        stepMessage: Message,
        scoreMessage: Message,
        verificationMessage: Message,
        terminalMessageCheck: Option<Message>,
        improvedStep: Option<Step>,
        aborted: bool)

  // ---------------------------------------------------------------------
  // Scores, ordering and terminal checks
  // ---------------------------------------------------------------------

  /** `Step.score`: 0.0 at the root, the score message's score elsewhere. */
  function Score(s: Step): (r: real)
    ensures s.Root? ==> r == 0.0
    ensures s.ReasoningStep? ==> r == Conversations.Score(s.scoreMessage)
  {
    match s
    case Root(_) => 0.0
    case ReasoningStep(_, _, scoreMessage, _, _, _, _) => Conversations.Score(scoreMessage)
  }

  /** `Step.__lt__`: the higher-scored step sorts first. */
  predicate Less(a: Step, b: Step)
    ensures a.ReasoningStep? && b.ReasoningStep? ==> (Less(a, b) <==> ScoreLess(a.scoreMessage, b.scoreMessage))
  {
    Score(a) > Score(b)
  }

  /** `Step.__lt__` is a strict order, and it orders steps as their score messages do. */
  lemma LessIsStrictOrder(a: Step, b: Step, c: Step)
    ensures !Less(a, a)
    ensures Less(a, b) ==> !Less(b, a)
    ensures Less(a, b) && Less(b, c) ==> Less(a, c)
    ensures a.ReasoningStep? && b.ReasoningStep? ==> (Less(a, b) <==> ScoreLess(a.scoreMessage, b.scoreMessage))
  {
  }

  /**
   * What a min-heap ordered by `Less` pops first: a step that no other step
   * is `Less` than has the highest score of all.
   */
  lemma LeastIsHighestScored(steps: seq<Step>, k: nat)
    requires k < |steps|
    requires forall j :: 0 <= j < |steps| ==> !Less(steps[j], steps[k])
    ensures forall j :: 0 <= j < |steps| ==> Score(steps[j]) <= Score(steps[k])
  {
  }

  /** `ReasoningStep.is_terminal_step`: no verdict without a terminal check, else its `is_final`. */
  function IsTerminalStep(s: Step): (r: Option<bool>)
    requires s.ReasoningStep?
    ensures s.terminalMessageCheck.None? ==> r.None?
    ensures s.terminalMessageCheck.Some? ==> r == IsFinal(s.terminalMessageCheck.value.content)
  {
    match s.terminalMessageCheck
    case None => None
    case Some(check) => IsFinal(check.content)
  }

  /**
   * `ReasoningStep.is_terminal_marker`: the step message is exactly `Done.`,
   * so the trajectory that ends at the step ends with `Done.`.
   */
  predicate IsTerminalMarker(s: Step)
    requires s.ReasoningStep?
    ensures IsTerminalMarker(s) <==> Trajectory(s).stepMessages[Depth(s) - 1].content == TERMINATION_MARKER
  {
    TERMINATION_MARKER == s.stepMessage.content
  }

  // ---------------------------------------------------------------------
  // The path from the root
  // ---------------------------------------------------------------------

  /** The number of reasoning steps between a node and its root, the node included. */
  function Depth(s: Step): nat {
    match s
    case Root(_) => 0
    case ReasoningStep(parent, _, _, _, _, _, _) => Depth(parent) + 1
  }

  /** The node `n` parent links above `s`. */
  function Ancestor(s: Step, n: nat): (a: Step)
    requires n <= Depth(s)
    ensures Depth(a) == Depth(s) - n
  {
    if n == 0 then s else Ancestor(s.parentStep, n - 1)
  }

  /** The base conversation of the root above `s`. */
  function BaseOf(s: Step): Conversation {
    match s
    case Root(base) => base
    case ReasoningStep(parent, _, _, _, _, _, _) => BaseOf(parent)
  }

  /** The step messages on the path from the root down to `s`. */
  function PathMessages(s: Step): (ms: seq<Message>)
    ensures |ms| == Depth(s)
  {
    match s
    case Root(_) => []
    case ReasoningStep(parent, m, _, _, _, _, _) => PathMessages(parent) + [m]
  }

  /** The path with `STEPPER_MESSAGE` after each step message. */
  function SteppedPath(s: Step): (ms: seq<Message>)
    ensures |ms| == 2 * Depth(s)
  {
    match s
    case Root(_) => []
    case ReasoningStep(parent, m, _, _, _, _, _) => SteppedPath(parent) + [m, STEPPER_MESSAGE]
  }

  /** The path messages are in root-to-node order: the i-th is that of the ancestor at depth i + 1. */
  lemma {:induction false} PathMessagesRootToNode(s: Step, i: nat)
    requires i < Depth(s)
    ensures Ancestor(s, Depth(s) - 1 - i).ReasoningStep?
    ensures PathMessages(s)[i] == Ancestor(s, Depth(s) - 1 - i).stepMessage
  {
    if i < Depth(s) - 1 {
      PathMessagesRootToNode(s.parentStep, i);
    }
  }

  /** The stepped path alternates: step i at position 2i, a stepper right after it. */
  lemma {:induction false} SteppedPathLayout(s: Step, i: nat)
    requires i < Depth(s)
    ensures SteppedPath(s)[2 * i] == PathMessages(s)[i]
    ensures SteppedPath(s)[2 * i + 1] == STEPPER_MESSAGE
  {
    if i < Depth(s) - 1 {
      SteppedPathLayout(s.parentStep, i);
    }
  }

  // ---------------------------------------------------------------------
  // The two walks
  // ---------------------------------------------------------------------

  /** `to_stepped_conversation(with_next_stepper)` as a function of the path. */
  function SteppedConversation(s: Step, withNextStepper: bool): (c: Conversation)
    ensures |c.messages| == |BaseOf(s).messages|
              + (if s.Root? then 0 else if withNextStepper then 2 * Depth(s) else 2 * Depth(s) - 1)
    ensures c.messages[..|BaseOf(s).messages|] == BaseOf(s).messages
    ensures s.ReasoningStep? && withNextStepper ==> c.messages[|c.messages| - 1] == STEPPER_MESSAGE
  {
    match s
    case Root(base) => base
    case ReasoningStep(_, _, _, _, _, _, _) =>
      var path := SteppedPath(s);
      AddConversation(BaseOf(s), Conversation(if withNextStepper then path else path[..|path| - 1]))
  }

  /** `to_step_trajectory()` as a function of the path. */
  function Trajectory(s: Step): (t: StepTrajectory)
    ensures |t.stepMessages| == Depth(s)
    ensures s.ReasoningStep? ==> t.stepMessages[Depth(s) - 1] == s.stepMessage
  {
    StepTrajectory(BaseOf(s), PathMessages(s))
  }

  /** Python's `xs[::-1]`. */
  function Reverse<T>(xs: seq<T>): (r: seq<T>)
    ensures |r| == |xs|
  {
    if xs == [] then [] else Reverse(xs[1..]) + [xs[0]]
  }

  /** Appending an element and reversing puts that element first. */
  lemma {:induction false} ReversePush<T>(xs: seq<T>, x: T)
    ensures Reverse(xs + [x]) == [x] + Reverse(xs)
  {
    if xs != [] {
      assert (xs + [x])[1..] == xs[1..] + [x];
      ReversePush(xs[1..], x);
    }
  }

  /** Collecting the stepper and then a node's message moves that pair from the path to the collected list. */
  lemma CollectStepAndStepper(node: Step, collected: seq<Message>)
    requires node.ReasoningStep?
    ensures SteppedPath(node.parentStep) + Reverse(collected + [STEPPER_MESSAGE, node.stepMessage])
            == SteppedPath(node) + Reverse(collected)
  {
    ReversePush(collected, STEPPER_MESSAGE);
    ReversePush(collected + [STEPPER_MESSAGE], node.stepMessage);
    assert collected + [STEPPER_MESSAGE] + [node.stepMessage] == collected + [STEPPER_MESSAGE, node.stepMessage];
  }

  /**
   * `Root.to_stepped_conversation` and `ReasoningStep.to_stepped_conversation`:
   * walk up to the root collecting each step message followed by the
   * stepper (in reverse), drop the first collected element when no
   * trailing stepper is wanted, reverse, and put the root's base
   * conversation in front.
   */
  method ToSteppedConversation(s: Step, withNextStepper: bool) returns (c: Conversation)
    ensures c == SteppedConversation(s, withNextStepper)
  {
    if s.Root? {
      return s.baseConversation;
    }
    var reversedMessages: seq<Message> := [];
    var node := s;
    while !node.Root?
      invariant SteppedPath(node) + Reverse(reversedMessages) == SteppedPath(s)
      invariant BaseOf(node) == BaseOf(s)
      decreases node
    {
      CollectStepAndStepper(node, reversedMessages);
      reversedMessages := reversedMessages + [STEPPER_MESSAGE, node.stepMessage];
      node := node.parentStep;
    }
    assert Reverse(reversedMessages) == SteppedPath(s);
    if !withNextStepper {
      assert Reverse(reversedMessages[1..]) == Reverse(reversedMessages)[..|reversedMessages| - 1];
      reversedMessages := reversedMessages[1..];
    }
    c := AddConversation(node.baseConversation, Conversation(Reverse(reversedMessages)));
  }

  /**
   * `Root.to_step_trajectory` and `ReasoningStep.to_step_trajectory`: walk
   * up to the root collecting the step messages, then reverse them.
   */
  method ToStepTrajectory(s: Step) returns (t: StepTrajectory)
    ensures t == Trajectory(s)
  {
    if s.Root? {
      return StepTrajectory(s.baseConversation, []);
    }
    var reversedMessages: seq<Message> := [];
    var node := s;
    while !node.Root?
      invariant PathMessages(node) + Reverse(reversedMessages) == PathMessages(s)
      invariant BaseOf(node) == BaseOf(s)
      decreases node
    {
      ReversePush(reversedMessages, node.stepMessage);
      reversedMessages := reversedMessages + [node.stepMessage];
      node := node.parentStep;
    }
    t := StepTrajectory(node.baseConversation, Reverse(reversedMessages));
  }

  // ---------------------------------------------------------------------
  // What the walks produce
  // ---------------------------------------------------------------------

  /** A root's stepped conversation is its base conversation, whatever the flag. */
  lemma RootSteppedConversation(base: Conversation, withNextStepper: bool)
    ensures SteppedConversation(Root(base), withNextStepper) == base
    ensures Trajectory(Root(base)) == StepTrajectory(base, [])
  {
  }

  /** The part of the stepped path a stepped conversation keeps: all of it, or all but the last stepper. */
  function KeptPath(s: Step, withNextStepper: bool): seq<Message>
    requires s.ReasoningStep?
  {
    var path := SteppedPath(s);
    if withNextStepper then path else path[..|path| - 1]
  }

  /** A reasoning step's stepped conversation is the base conversation and then the kept path. */
  lemma SteppedConversationSplits(s: Step, withNextStepper: bool)
    requires s.ReasoningStep?
    ensures SteppedConversation(s, withNextStepper).messages == BaseOf(s).messages + KeptPath(s, withNextStepper)
  {
  }

  /** Position i of the path in the kept part: step i at 2i, a stepper at 2i + 1 unless it was dropped. */
  lemma KeptPathLayout(s: Step, withNextStepper: bool, i: nat)
    requires s.ReasoningStep? && i < Depth(s)
    ensures |KeptPath(s, withNextStepper)| == 2 * Depth(s) - (if withNextStepper then 0 else 1)
    ensures KeptPath(s, withNextStepper)[2 * i] == PathMessages(s)[i]
    ensures withNextStepper || i < Depth(s) - 1 ==> KeptPath(s, withNextStepper)[2 * i + 1] == STEPPER_MESSAGE
  {
    SteppedPathLayout(s, i);
  }

  /**
   * For a step at depth d, the stepped conversation is the base
   * conversation followed by s1, STEPPER, s2, STEPPER, ..., sd, STEPPER,
   * the last STEPPER only when it is asked for.
   */
  lemma SteppedConversationLayout(s: Step, withNextStepper: bool)
    requires s.ReasoningStep?
    ensures |SteppedConversation(s, withNextStepper).messages|
            == |BaseOf(s).messages| + 2 * Depth(s) - (if withNextStepper then 0 else 1)
    ensures SteppedConversation(s, withNextStepper).messages[..|BaseOf(s).messages|] == BaseOf(s).messages
    ensures forall i :: 0 <= i < Depth(s) ==>
              SteppedConversation(s, withNextStepper).messages[|BaseOf(s).messages| + 2 * i] == Trajectory(s).stepMessages[i]
    ensures forall i :: 0 <= i < Depth(s) && (withNextStepper || i < Depth(s) - 1) ==>
              SteppedConversation(s, withNextStepper).messages[|BaseOf(s).messages| + 2 * i + 1] == STEPPER_MESSAGE
  {
    SteppedConversationPrefix(s, withNextStepper);
    forall i | 0 <= i < Depth(s)
      ensures SteppedConversation(s, withNextStepper).messages[|BaseOf(s).messages| + 2 * i] == Trajectory(s).stepMessages[i]
      ensures withNextStepper || i < Depth(s) - 1 ==>
                SteppedConversation(s, withNextStepper).messages[|BaseOf(s).messages| + 2 * i + 1] == STEPPER_MESSAGE
    {
      SteppedConversationAt(s, withNextStepper, i);
      if withNextStepper || i < Depth(s) - 1 {
        SteppedConversationStepperAt(s, withNextStepper, i);
      }
    }
  }

  /** The base conversation comes first, and the kept path fills the rest. */
  lemma SteppedConversationPrefix(s: Step, withNextStepper: bool)
    requires s.ReasoningStep?
    ensures |SteppedConversation(s, withNextStepper).messages|
            == |BaseOf(s).messages| + 2 * Depth(s) - (if withNextStepper then 0 else 1)
    ensures SteppedConversation(s, withNextStepper).messages[..|BaseOf(s).messages|] == BaseOf(s).messages
  {
    var c := SteppedConversation(s, withNextStepper).messages;
    var base := BaseOf(s).messages;
    var kept := KeptPath(s, withNextStepper);
    SteppedConversationSplits(s, withNextStepper);
    KeptPathLayout(s, withNextStepper, 0);
    assert c == base + kept;
    assert |c| == |base| + |kept|;
    assert c[..|base|] == base;
  }

  /** One level of the layout: the i-th step message sits at |base| + 2i. */
  lemma SteppedConversationAt(s: Step, withNextStepper: bool, i: nat)
    requires s.ReasoningStep? && i < Depth(s)
    ensures |BaseOf(s).messages| + 2 * i < |SteppedConversation(s, withNextStepper).messages|
    ensures SteppedConversation(s, withNextStepper).messages[|BaseOf(s).messages| + 2 * i] == Trajectory(s).stepMessages[i]
  {
    var kept := KeptPath(s, withNextStepper);
    SteppedConversationSplits(s, withNextStepper);
    KeptPathLayout(s, withNextStepper, i);
    assert Trajectory(s).stepMessages == PathMessages(s);
    LevelAfterBase(SteppedConversation(s, withNextStepper).messages, BaseOf(s).messages, kept, PathMessages(s), i, false);
  }

  /** The stepper after the i-th step message, at |base| + 2i + 1, unless it is the dropped last one. */
  lemma SteppedConversationStepperAt(s: Step, withNextStepper: bool, i: nat)
    requires s.ReasoningStep? && i < Depth(s) && (withNextStepper || i < Depth(s) - 1)
    ensures |BaseOf(s).messages| + 2 * i + 1 < |SteppedConversation(s, withNextStepper).messages|
    ensures SteppedConversation(s, withNextStepper).messages[|BaseOf(s).messages| + 2 * i + 1] == STEPPER_MESSAGE
  {
    var kept := KeptPath(s, withNextStepper);
    SteppedConversationSplits(s, withNextStepper);
    KeptPathLayout(s, withNextStepper, i);
    LevelAfterBase(SteppedConversation(s, withNextStepper).messages, BaseOf(s).messages, kept, PathMessages(s), i, true);
  }

  /** Level i of a conversation made of `base` and then `kept`: its step at |base| + 2i, and its stepper when kept. */
  lemma LevelAfterBase(c: seq<Message>, base: seq<Message>, kept: seq<Message>, steps: seq<Message>, i: nat, hasStepper: bool)
    requires c == base + kept
    requires 2 * i < |kept| && i < |steps| && kept[2 * i] == steps[i]
    requires hasStepper ==> 2 * i + 1 < |kept| && kept[2 * i + 1] == STEPPER_MESSAGE
    ensures |base| + 2 * i < |c| && c[|base| + 2 * i] == steps[i]
    ensures hasStepper ==> |base| + 2 * i + 1 < |c| && c[|base| + 2 * i + 1] == STEPPER_MESSAGE
  {
  }

  /**
   * Without the next stepper the conversation is the one with it minus
   * exactly its final message, which is the stepper.
   */
  lemma WithoutNextStepperDropsLast(s: Step)
    requires s.ReasoningStep?
    ensures var full := SteppedConversation(s, true).messages;
            |full| > 0 && full[|full| - 1] == STEPPER_MESSAGE
            && SteppedConversation(s, false).messages == full[..|full| - 1]
  {
    var path := SteppedPath(s);
    var base := BaseOf(s).messages;
    assert (base + path)[..|base| + |path| - 1] == base + path[..|path| - 1];
  }

  /** The trajectory of a step is made of the root's base conversation and one message per level. */
  lemma TrajectoryShape(s: Step)
    ensures Trajectory(s).baseConversation == Ancestor(s, Depth(s)).baseConversation
    ensures |Trajectory(s).stepMessages| == Depth(s)
    ensures s.ReasoningStep? ==> Trajectory(s).stepMessages[Depth(s) - 1] == s.stepMessage
  {
    RootOfPath(s);
  }

  /** Following all the parent links from a node reaches the root whose base conversation it reports. */
  lemma {:induction false} RootOfPath(s: Step)
    ensures Ancestor(s, Depth(s)).Root?
    ensures Ancestor(s, Depth(s)).baseConversation == BaseOf(s)
  {
    if s.ReasoningStep? {
      RootOfPath(s.parentStep);
    }
  }

  /** A first step under the root: `base + [m, STEPPER]`, or `base + [m]` without the next stepper. */
  lemma FirstStepConversation(base: Conversation, m: Message, score: Message, verification: Message,
                              check: Option<Message>, improved: Option<Step>, aborted: bool)
    ensures var s := ReasoningStep(Root(base), m, score, verification, check, improved, aborted);
            SteppedConversation(s, true).messages == base.messages + [m, STEPPER_MESSAGE]
            && SteppedConversation(s, false).messages == base.messages + [m]
            && Trajectory(s) == StepTrajectory(base, [m])
  {
    var s := ReasoningStep(Root(base), m, score, verification, check, improved, aborted);
    assert SteppedPath(s) == [m, STEPPER_MESSAGE];
    assert SteppedPath(s)[..1] == [m];
    assert BaseOf(s) == base;
    assert SteppedConversation(s, true) == Conversation(base.messages + [m, STEPPER_MESSAGE]);
  }
}
