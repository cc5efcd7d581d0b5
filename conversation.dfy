/**
 * Chat messages and conversations: the message record and its compact
 * dictionary form, conversation concatenation, the compact list form
 * (`to_mmd`/`from_mmd`), Markdown rendering, and the two text extractors
 * (`ScoreMessage.score` and `TerminalCheckMessage.is_final`).
 */
module Conversations {
  import opened Wrappers
  import opened Strings
  import Floats

  // ---------------------------------------------------------------------
  // Messages
  // ---------------------------------------------------------------------

  datatype Role = User | System | Assistant

  /** The literal a role is written as. */
  function RoleName(r: Role): string {
    match r
    case User => "user"
    case System => "system"
    case Assistant => "assistant"
  }

  /** The role literal check of the message schema. */
  function ParseRole(s: string): (r: Option<Role>)
    ensures r.Some? ==> RoleName(r.value) == s
    ensures r.None? ==> s != "user" && s != "system" && s != "assistant"
  {
    if s == "user" then Some(User)
    else if s == "system" then Some(System)
    else if s == "assistant" then Some(Assistant)
    else None
  }

  /** Which Python class a message value is an instance of; the subclasses add no fields. */
  datatype MessageKind = Plain | Scored | TerminalCheck

  /** A chat message; `name` defaults to `None` and `weight` to 1. */
  datatype Message = Message(role: Role, content: string, name: Option<string>, weight: int, kind: MessageKind)

  /** `Message.system(content)`: only role and content differ from the defaults. */
  function SystemMessage(content: string): (m: Message)
    ensures ToDict(m) == map["role" := Str("system"), "content" := Str(content)]
  {
    Message(System, content, None, 1, Plain)
  }

  /** `Message.user(content)`. */
  function UserMessage(content: string): (m: Message)
    ensures ToDict(m) == map["role" := Str("user"), "content" := Str(content)]
  {
    Message(User, content, None, 1, Plain)
  }

  /** `Message.assistant(content)`. */
  function AssistantMessage(content: string): (m: Message)
    ensures ToDict(m) == map["role" := Str("assistant"), "content" := Str(content)]
  {
    Message(Assistant, content, None, 1, Plain)
  }

  /** `ScoreMessage.from_message(m)`: the same fields, as a score message. */
  function ScoreMessageFrom(m: Message): (r: Message)
    ensures r.kind == Scored && ToDict(r) == ToDict(m)
  {
    m.(kind := Scored)
  }

  /** `TerminalCheckMessage.from_message(m)`. */
  function TerminalCheckMessageFrom(m: Message): (r: Message)
    ensures r.kind == TerminalCheck && ToDict(r) == ToDict(m)
  {
    m.(kind := TerminalCheck)
  }

  /** The plain `Message` with the same fields. */
  function AsPlain(m: Message): Message {
    m.(kind := Plain)
  }

  // ---------------------------------------------------------------------
  // The compact dictionary form
  // ---------------------------------------------------------------------

  /** A dictionary value: a string, an integer, `None`, or anything else. */
  datatype Value = Str(s: string) | Int(i: int) | Null | Other

  type Dict = map<string, Value>

  const MESSAGE_FIELDS: set<string> := {"role", "content", "name", "weight"}

  /** `Message.to_dict()`: `model_dump(exclude_defaults=True)`. */
  function ToDict(m: Message): (d: Dict)
    ensures "role" in d && "content" in d
    ensures "name" in d <==> m.name.Some?
    ensures "weight" in d <==> m.weight != 1
    ensures d.Keys <= MESSAGE_FIELDS
  {
    var d := map["role" := Str(RoleName(m.role)), "content" := Str(m.content)];
    var d := if m.name.Some? then d["name" := Str(m.name.value)] else d;
    if m.weight != 1 then d["weight" := Int(m.weight)] else d
  }

  /** The field whose value broke the message schema. */
  datatype FieldError = InvalidRole | InvalidContent | InvalidName | InvalidWeight

  /**
   * The message schema with exact types, field by field: `role` one of the
   * three literals, `content` a string, `name` a string or `None` when
   * present, `weight` an integer when present. Other keys do not matter.
   */
  predicate Conforms(d: Dict) {
    && "role" in d && d["role"] in {Str("user"), Str("system"), Str("assistant")}
    && "content" in d && d["content"].Str?
    && ("name" in d ==> d["name"].Str? || d["name"] == Null)
    && ("weight" in d ==> d["weight"].Int?)
  }

  /**
   * Validation of one dictionary against the message schema (`name`
   * defaults to `None`, `weight` to 1); the first field checked that
   * breaks it is reported.
   */
  function FromDict(d: Dict): (r: Result<Message, FieldError>)
    ensures r.Success? <==> Conforms(d)
    ensures r == Failure(InvalidRole) <==> !("role" in d && d["role"] in {Str("user"), Str("system"), Str("assistant")})
    ensures r.Success? ==> r.value.kind == Plain
                           && d["role"] == Str(RoleName(r.value.role)) && d["content"] == Str(r.value.content)
    ensures r.Success? ==> (r.value.name.Some? <==> "name" in d && d["name"] != Null)
                           && (r.value.name.Some? ==> d["name"] == Str(r.value.name.value))
    ensures r.Success? ==> ("weight" in d ==> d["weight"] == Int(r.value.weight))
                           && ("weight" !in d ==> r.value.weight == 1)
  {
    if "role" !in d || !d["role"].Str? || ParseRole(d["role"].s).None? then Failure(InvalidRole)
    else if "content" !in d || !d["content"].Str? then Failure(InvalidContent)
    else if "name" in d && !d["name"].Str? && !d["name"].Null? then Failure(InvalidName)
    else if "weight" in d && !d["weight"].Int? then Failure(InvalidWeight)
    else
      var name := if "name" in d && d["name"].Str? then Some(d["name"].s) else None;
      var weight := if "weight" in d then d["weight"].i else 1;
      Success(Message(ParseRole(d["role"].s).value, d["content"].s, name, weight, Plain))
  }

  /** Validating the compact form of a message gives back its fields. */
  lemma DictRoundTrip(m: Message)
    ensures FromDict(ToDict(m)) == Success(AsPlain(m))
  {
    match m.role
    case User =>
    case System =>
    case Assistant =>
  }

  /** `None` for the name, the default weight and keys outside the schema do not stop validation. */
  lemma DefaultsAndExtraKeysAccepted(content: string, extra: string, v: Value)
    requires extra !in MESSAGE_FIELDS
    ensures FromDict(map["role" := Str("user"), "content" := Str(content), "name" := Null,
                         "weight" := Int(1), extra := v])
            == Success(UserMessage(content))
  {
  }

  /** A role outside the three literals is rejected. */
  lemma UnknownRoleRejected(d: Dict)
    requires "role" in d && d["role"].Str?
    requires d["role"].s != "user" && d["role"].s != "system" && d["role"].s != "assistant"
    ensures FromDict(d) == Failure(InvalidRole)
  {
  }

  /**
   * The compact form of a validated dictionary is the dictionary minus the
   * keys outside the schema and the fields that hold their default value.
   */
  lemma CompactFormOfValidated(d: Dict)
    requires FromDict(d).Success?
    ensures var c := ToDict(FromDict(d).value);
            (forall k :: k in c ==> k in d && d[k] == c[k])
            && (forall k :: k in d && k in MESSAGE_FIELDS && k !in c ==>
                  (k == "name" && d[k] == Null) || (k == "weight" && d[k] == Int(1)))
  {
    var m := FromDict(d).value;
    assert RoleName(m.role) == d["role"].s;
  }

  // ---------------------------------------------------------------------
  // Conversations
  // ---------------------------------------------------------------------

  datatype Conversation = Conversation(messages: seq<Message>)

  /** `Message.to_conversation()`. */
  function ToConversation(m: Message): (c: Conversation)
    ensures |c.messages| == 1 && c.messages[0] == m
  {
    Conversation([m])
  }

  /** `c + m`: `m` becomes the last message; the messages of `c` keep their places. */
  function AddMessage(c: Conversation, m: Message): (r: Conversation)
    ensures |r.messages| == |c.messages| + 1
    ensures r.messages[..|c.messages|] == c.messages && r.messages[|c.messages|] == m
  {
    Conversation(c.messages + [m])
  }

  /** `c + d`: the messages of `c` followed by those of `d`. */
  function AddConversation(c: Conversation, d: Conversation): (r: Conversation)
    ensures |r.messages| == |c.messages| + |d.messages|
    ensures r.messages[..|c.messages|] == c.messages && r.messages[|c.messages|..] == d.messages
  {
    Conversation(c.messages + d.messages)
  }

  /** `m + c` (`Conversation.__radd__`): `m` becomes the first message. */
  function PrependMessage(m: Message, c: Conversation): (r: Conversation)
    ensures |r.messages| == |c.messages| + 1
    ensures r.messages[0] == m && r.messages[1..] == c.messages
  {
    Conversation([m] + c.messages)
  }

  /** Appending and prepending a message are concatenation with its one-message conversation. */
  lemma AddMessageIsConcatenation(c: Conversation, m: Message)
    ensures AddMessage(c, m) == AddConversation(c, ToConversation(m))
    ensures PrependMessage(m, c) == AddConversation(ToConversation(m), c)
  {
  }

  /** Concatenation is associative and has the empty conversation as unit. */
  lemma AddConversationMonoid(a: Conversation, b: Conversation, c: Conversation)
    ensures AddConversation(AddConversation(a, b), c) == AddConversation(a, AddConversation(b, c))
    ensures AddConversation(Conversation([]), a) == a && AddConversation(a, Conversation([])) == a
  {
    assert (a.messages + b.messages) + c.messages == a.messages + (b.messages + c.messages);
    assert [] + a.messages == a.messages;
    assert a.messages + [] == a.messages;
  }

  // ---------------------------------------------------------------------
  // to_mmd and from_mmd
  // ---------------------------------------------------------------------

  /** Keeps the keys that are fields of the plain message schema. */
  function RestrictToFields(d: Dict): Dict {
    map k | k in d && k in MESSAGE_FIELDS :: d[k]
  }

  /**
   * One entry of `to_mmd`: a subclass instance is first rebuilt as a plain
   * `Message` from its compact form restricted to the schema's fields.
   */
  function MmdEntry(m: Message): (d: Dict)
    ensures d == ToDict(m)
  {
    if m.kind != Plain then
      var fields := RestrictToFields(ToDict(m));
      assert fields == ToDict(m);
      DictRoundTrip(m);
      ToDict(FromDict(fields).value)
    else
      ToDict(m)
  }

  /** `Conversation.to_mmd()`: the compact form of every message, in order. */
  function ToMmd(c: Conversation): (ds: seq<Dict>)
    ensures |ds| == |c.messages|
    ensures forall i :: 0 <= i < |ds| ==> ds[i] == ToDict(c.messages[i])
  {
    seq(|c.messages|, i requires 0 <= i < |c.messages| => MmdEntry(c.messages[i]))
  }

  /** The entry that failed validation and why. */
  datatype SchemaError = SchemaError(index: nat, field: FieldError)

  /**
   * `Conversation.from_mmd(ds)`: validates every dictionary; fails if any
   * entry breaks the schema, reporting the first such entry.
   */
  function FromMmd(ds: seq<Dict>): (r: Result<Conversation, SchemaError>)
    ensures r.Success? <==> forall i :: 0 <= i < |ds| ==> FromDict(ds[i]).Success?
    ensures r.Success? ==> |r.value.messages| == |ds|
                           && forall i :: 0 <= i < |ds| ==> Success(r.value.messages[i]) == FromDict(ds[i])
    ensures r.Failure? ==> r.error.index < |ds|
                           && FromDict(ds[r.error.index]) == Failure(r.error.field)
                           && forall i :: 0 <= i < r.error.index ==> FromDict(ds[i]).Success?
    decreases |ds|
  {
    if ds == [] then
      Success(Conversation([]))
    else
      match FromDict(ds[0])
      case Failure(f) => Failure(SchemaError(0, f))
      case Success(m) =>
        match FromMmd(ds[1..])
        case Failure(e) =>
          Failure(SchemaError(e.index + 1, e.field))
        case Success(rest) =>
          Success(Conversation([m] + rest.messages))
  }

  /**
   * `from_mmd(c.to_mmd())` succeeds with the same role, content, name and
   * weight for every message, and `to_mmd` of it gives the same list again.
   */
  lemma MmdRoundTrip(c: Conversation)
    ensures FromMmd(ToMmd(c)).Success?
    ensures var back := FromMmd(ToMmd(c)).value;
            |back.messages| == |c.messages|
            && (forall i :: 0 <= i < |c.messages| ==> back.messages[i] == AsPlain(c.messages[i]))
            && ToMmd(back) == ToMmd(c)
  {
    var ds := ToMmd(c);
    forall i | 0 <= i < |ds|
      ensures FromDict(ds[i]) == Success(AsPlain(c.messages[i]))
    {
      DictRoundTrip(c.messages[i]);
    }
    var back := FromMmd(ds).value;
    assert forall i :: 0 <= i < |c.messages| ==> back.messages[i] == AsPlain(c.messages[i]);
  }

  /** `to_mmd` maps a concatenation to the concatenation of the two lists. */
  lemma ToMmdOfConcatenation(c: Conversation, d: Conversation)
    ensures ToMmd(AddConversation(c, d)) == ToMmd(c) + ToMmd(d)
  {
  }

  // ---------------------------------------------------------------------
  // Markdown
  // ---------------------------------------------------------------------

  /** One rendered message: `**Role:**` on its own line, then the content. */
  function Block(m: Message): (b: string)
    ensures |b| >= 2 + |m.content| && b[..2] == "**" && b[|b| - |m.content|..] == m.content
  {
    "**" + Title(RoleName(m.role)) + ":**\n" + m.content
  }

  /** `Conversation.to_markdown()`: the blocks joined by a blank line. */
  function ToMarkdown(c: Conversation): (r: string)
    ensures forall i :: 0 <= i < |c.messages| ==> Contains(r, Block(c.messages[i]))
  {
    JoinHoldsParts(Blocks(c.messages), "\n\n");
    Join(Blocks(c.messages), "\n\n")
  }

  function Blocks(ms: seq<Message>): (bs: seq<string>)
    ensures |bs| == |ms| && forall i :: 0 <= i < |ms| ==> bs[i] == Block(ms[i])
  {
    seq(|ms|, i requires 0 <= i < |ms| => Block(ms[i]))
  }

  /** The role headings are `User`, `System` and `Assistant`. */
  lemma RoleTitles()
    ensures Title(RoleName(User)) == "User"
    ensures Title(RoleName(System)) == "System"
    ensures Title(RoleName(Assistant)) == "Assistant"
  {
    UserTitle();
    SystemTitle();
    AssistantTitle();
  }

  lemma UserTitle()
    ensures Title("user") == "User"
  {
    TitleOfLowerWord('u', "ser");
    assert "user" == ['u'] + "ser" && "User" == ['U'] + "ser";
  }

  lemma SystemTitle()
    ensures Title("system") == "System"
  {
    TitleOfLowerWord('s', "ystem");
    assert "system" == ['s'] + "ystem" && "System" == ['S'] + "ystem";
  }

  lemma AssistantTitle()
    ensures Title("assistant") == "Assistant"
  {
    TitleOfLowerWord('a', "ssistant");
    assert "assistant" == ['a'] + "ssistant" && "Assistant" == ['A'] + "ssistant";
  }

  /** An empty conversation renders as `""`; one message renders as its block. */
  lemma ToMarkdownBase(m: Message)
    ensures ToMarkdown(Conversation([])) == ""
    ensures ToMarkdown(ToConversation(m)) == Block(m)
  {
  }

  /** Appending a message appends a blank line and its block. */
  lemma ToMarkdownAppend(c: Conversation, m: Message)
    requires |c.messages| > 0
    ensures ToMarkdown(AddMessage(c, m)) == ToMarkdown(c) + "\n\n" + Block(m)
  {
    var blocks := Blocks(c.messages);
    assert Blocks(c.messages + [m]) == blocks + [Block(m)];
    JoinAppend(blocks, Block(m), "\n\n");
  }

  // ---------------------------------------------------------------------
  // ScoreMessage.score
  // ---------------------------------------------------------------------

  const SCORE_MARKER: string := "Total Score:"

  /** The score value that stands for "no score could be read". */
  const NO_SCORE: real := -1.0

  /** `content.split("\n")`. */
  function Lines(content: string): seq<string> {
    Split(content, "\n")
  }

  /** `[line for line in lines if "Total Score:" in line]`. */
  function MarkedLines(lines: seq<string>): (r: seq<string>)
    ensures forall k :: 0 <= k < |r| ==> Contains(r[k], SCORE_MARKER)
    ensures |r| == 0 <==> forall k :: 0 <= k < |lines| ==> !Contains(lines[k], SCORE_MARKER)
    decreases |lines|
  {
    if lines == [] then []
    else
      var init := lines[..|lines| - 1];
      var last := lines[|lines| - 1];
      assert forall k :: 0 <= k < |init| ==> init[k] == lines[k];
      MarkedLines(init) + if Contains(last, SCORE_MARKER) then [last] else []
  }

  /** The filter keeps exactly the input lines that hold the marker. */
  lemma {:induction false} MarkedLinesMembers(lines: seq<string>)
    ensures forall l :: l in MarkedLines(lines) <==> l in lines && Contains(l, SCORE_MARKER)
    decreases |lines|
  {
    if lines != [] {
      var init := lines[..|lines| - 1];
      var last := lines[|lines| - 1];
      assert lines == init + [last];
      MarkedLinesMembers(init);
    }
  }

  /**
   * `ScoreMessage.score` with the number parser as a parameter: the last
   * line holding the marker, the text after its first marker (up to a
   * second one), stripped and parsed; -1.0 when there is no such line
   * (`IndexError`) or the parse fails (`ValueError`).
   */
  function ScoreWith(content: string, parse: string -> Option<real>): (r: real)
    ensures r != NO_SCORE ==> exists k :: 0 <= k < |Lines(content)| && Contains(Lines(content)[k], SCORE_MARKER)
  {
    var marked := MarkedLines(Lines(content));
    if |marked| == 0 then NO_SCORE
    else
      var fields := Split(marked[|marked| - 1], SCORE_MARKER);
      match parse(Strip(fields[1]))
      case None => NO_SCORE
      case Some(v) => v
  }

  /** `ScoreMessage.score`, reading the number with `float`. */
  function Score(m: Message): (r: real)
    ensures !Contains(m.content, SCORE_MARKER) ==> r == NO_SCORE
  {
    if Contains(m.content, SCORE_MARKER) then ScoreWith(m.content, Floats.ParseFloat)
    else
      ScoreWithoutMarker(m.content, Floats.ParseFloat);
      ScoreWith(m.content, Floats.ParseFloat)
  }

  /** `ScoreMessage.__lt__`: a higher score sorts first. */
  predicate ScoreLess(a: Message, b: Message)
    ensures a.content == b.content ==> !ScoreLess(a, b)
  {
    Score(a) > Score(b)
  }

  /** Content without the marker scores -1.0, whatever the parser. */
  lemma ScoreWithoutMarker(content: string, parse: string -> Option<real>)
    requires !Contains(content, SCORE_MARKER)
    ensures ScoreWith(content, parse) == NO_SCORE
  {
    var lines := Lines(content);
    forall k | 0 <= k < |lines|
      ensures !Contains(lines[k], SCORE_MARKER)
    {
      if Contains(lines[k], SCORE_MARKER) {
        SplitPartContains(content, "\n", k, SCORE_MARKER);
      }
    }
  }

  /** The last element of the filtered lines is the last line holding the marker. */
  lemma {:induction false} LastMarkedLine(lines: seq<string>, k: nat)
    requires k < |lines| && Contains(lines[k], SCORE_MARKER)
    requires forall j :: k < j < |lines| ==> !Contains(lines[j], SCORE_MARKER)
    ensures |MarkedLines(lines)| > 0 && MarkedLines(lines)[|MarkedLines(lines)| - 1] == lines[k]
    decreases |lines|
  {
    var init := lines[..|lines| - 1];
    var last := lines[|lines| - 1];
    assert MarkedLines(lines) == MarkedLines(init) + if Contains(last, SCORE_MARKER) then [last] else [];
    if k < |lines| - 1 {
      assert init[k] == lines[k];
      assert !Contains(last, SCORE_MARKER);
      assert forall j :: k < j < |init| ==> init[j] == lines[j];
      LastMarkedLine(init, k);
    }
  }

  /** The text of a marked line from its first marker to the next marker, or to the end of the line. */
  function MarkerField(line: string): string
    requires Contains(line, SCORE_MARKER)
  {
    var i := IndexOf(line, SCORE_MARKER).value;
    var rest := line[i + |SCORE_MARKER|..];
    match IndexOf(rest, SCORE_MARKER)
    case None => rest
    case Some(j) => rest[..j]
  }

  /** The second field of `line.split("Total Score:")` runs from the first marker to the next one or the end. */
  lemma SecondField(line: string)
    requires Contains(line, SCORE_MARKER)
    ensures Split(line, SCORE_MARKER)[1] == MarkerField(line)
  {
  }

  /**
   * The score is read from the last line holding the marker, from the text
   * between its first marker and the next one (or the end of the line).
   */
  lemma ScoreReadsLastMarkedLine(content: string, parse: string -> Option<real>, k: nat)
    requires k < |Lines(content)| && Contains(Lines(content)[k], SCORE_MARKER)
    requires forall j :: k < j < |Lines(content)| ==> !Contains(Lines(content)[j], SCORE_MARKER)
    ensures ScoreWith(content, parse)
            == match parse(Strip(MarkerField(Lines(content)[k]))) case None => NO_SCORE case Some(v) => v
  {
    LastMarkedLine(Lines(content), k);
    SecondField(Lines(content)[k]);
  }

  predicate NoLineBreak(s: string) {
    forall k :: 0 <= k < |s| ==> s[k] != '\n'
  }

  /** Text without a line break is one line. */
  lemma SingleLine(a: string)
    requires NoLineBreak(a)
    ensures Lines(a) == [a]
  {
    forall j: nat
      ensures !OccursAt(a, "\n", j)
    {
      if j + 1 <= |a| {
        assert a[j..j + 1][0] == a[j];
      }
    }
    SplitWithoutSeparator(a, "\n");
  }

  /** In `a + "\n" + b` with no line break in `a`, the first line break is the one added. */
  lemma FirstBreakAfter(a: string, b: string)
    requires !Contains(a, "\n")
    ensures IndexOf(a + "\n" + b, "\n") == Some(|a|)
  {
    var whole := a + "\n" + b;
    assert whole[|a|..|a| + 1] == "\n";
    forall j: nat | j < |a|
      ensures !OccursAt(whole, "\n", j)
    {
      assert !OccursAt(a, "\n", j);
      assert whole[j..j + 1] == a[j..j + 1];
    }
    FirstOccurrence(whole, "\n", |a|);
  }

  /** A line break followed by a last line without one adds that line to the lines of the text. */
  lemma {:induction false} LinesAppendLine(a: string, b: string)
    requires NoLineBreak(b)
    ensures Lines(a + "\n" + b) == Lines(a) + [b]
    decreases |a|
  {
    if Contains(a, "\n") {
      var i := IndexOf(a, "\n").value;
      var a1 := a[i + 1..];
      assert a + "\n" + b == a + ("\n" + b);
      assert a1 + ("\n" + b) == a1 + "\n" + b;
      SplitExtend(a, "\n" + b, "\n");
      LinesAppendLine(a1, b);
    } else {
      TwoLines(a, b);
    }
  }

  /** A line with no break, a break, and a last line: exactly those two lines. */
  lemma TwoLines(a: string, b: string)
    requires !Contains(a, "\n") && NoLineBreak(b)
    ensures Lines(a + "\n" + b) == [a, b]
  {
    var whole := a + "\n" + b;
    SingleLine(b);
    FirstBreakAfter(a, b);
    assert whole[..|a|] == a && whole[|a| + 1..] == b;
  }

  /** A line `Total Score: <text>` whose text holds no second marker: its field is `<text>`. */
  lemma ScoreLineField(value: string)
    requires !Contains(value, SCORE_MARKER)
    ensures Contains(SCORE_MARKER + value, SCORE_MARKER) && MarkerField(SCORE_MARKER + value) == value
  {
    var line := SCORE_MARKER + value;
    assert SCORE_MARKER <= line;
  }

  /** The marker holds no line break, so neither does a line made of it and such a value. */
  lemma MarkerLineHasNoBreak(value: string)
    requires NoLineBreak(value)
    ensures NoLineBreak(SCORE_MARKER + value)
  {
    var line := SCORE_MARKER + value;
    forall k | 0 <= k < |line|
      ensures line[k] != '\n'
    {
      if k >= |SCORE_MARKER| {
        assert line[k] == value[k - |SCORE_MARKER|];
      }
    }
  }

  /** A last line `Total Score: <text>` decides the score, whatever the lines before it say. */
  lemma ScoreOfFinalLine(content: string, before: string, value: string, parse: string -> Option<real>)
    requires NoLineBreak(value) && !Contains(value, SCORE_MARKER)
    requires content == before + "\n" + SCORE_MARKER + value
    ensures ScoreWith(content, parse) == match parse(Strip(value)) case None => NO_SCORE case Some(v) => v
  {
    var line := SCORE_MARKER + value;
    assert content == before + "\n" + line;
    MarkerLineHasNoBreak(value);
    LinesAppendLine(before, line);
    ScoreLineField(value);
    var lines := Lines(content);
    assert lines[|lines| - 1] == line;
    ScoreReadsLastMarkedLine(content, parse, |lines| - 1);
  }

  /** The fields of the two examples below read as numbers once stripped. */
  lemma ExampleFields()
    ensures Floats.ParseFloat(Strip(" 7.5")) == Some(7.5) && Floats.ParseFloat(Strip(" 9")) == Some(9.0)
  {
    StripLeadingSpace("7.5");
    StripLeadingSpace("9");
    assert " 7.5" == " " + "7.5" && " 9" == " " + "9";
    Floats.ParseFloatExamples();
  }

  /** `Total Score: 7.5` after a line of text scores 7.5. */
  lemma ScoreExampleFinalLine(content: string)
    requires content == "reasoning...\nTotal Score: 7.5"
    ensures ScoreWith(content, Floats.ParseFloat) == 7.5
  {
    ScoreOfFinalLine(content, "reasoning...", " 7.5", Floats.ParseFloat);
    ExampleFields();
  }

  /** Of two lines holding the marker, the last one gives the score. */
  lemma ScoreExampleLastLineWins(content: string)
    requires content == "Total Score: 1\nmore text\nTotal Score: 9"
    ensures ScoreWith(content, Floats.ParseFloat) == 9.0
  {
    ScoreOfFinalLine(content, "Total Score: 1\nmore text", " 9", Floats.ParseFloat);
    ExampleFields();
  }

  /** `ScoreMessage.__lt__` is a strict order: irreflexive, asymmetric and transitive. */
  lemma ScoreLessIsStrictOrder(a: Message, b: Message, c: Message)
    ensures !ScoreLess(a, a)
    ensures a.content == b.content ==> !ScoreLess(a, b)
    ensures ScoreLess(a, b) && ScoreLess(b, c) ==> ScoreLess(a, c)
    ensures ScoreLess(a, b) <==> Score(a) > Score(b)
  {
  }

  // ---------------------------------------------------------------------
  // TerminalCheckMessage.is_final
  // ---------------------------------------------------------------------

  const TERMINAL_YES: string := "TERMINAL: YES"
  const TERMINAL_NO: string := "TERMINAL: NO"

  /** `TerminalCheckMessage.is_final`: `YES` wins over `NO`; neither gives `None`. */
  function IsFinal(content: string): (r: Option<bool>)
    ensures r == Some(true) <==> Contains(Upper(content), TERMINAL_YES)
    ensures r == Some(false) <==> !Contains(Upper(content), TERMINAL_YES) && Contains(Upper(content), TERMINAL_NO)
  {
    if Contains(Upper(content), TERMINAL_YES) then Some(true)
    else if Contains(Upper(content), TERMINAL_NO) then Some(false)
    else None
  }

  lemma UpperIdempotent(s: string)
    ensures Upper(Upper(s)) == Upper(s)
  {
  }

  /** The check does not depend on letter case. */
  lemma IsFinalCaseInsensitive(s: string, t: string)
    requires Upper(s) == Upper(t)
    ensures IsFinal(s) == IsFinal(t)
    ensures IsFinal(Upper(s)) == IsFinal(s)
  {
    UpperIdempotent(s);
  }

  /** Any spelling of `terminal: yes` anywhere makes the step final, even beside a `NO`. */
  lemma IsFinalFindsYes(a: string, w: string, b: string)
    requires Upper(w) == TERMINAL_YES
    ensures IsFinal(a + w + b) == Some(true)
  {
    UpperConcat(a + w, b);
    UpperConcat(a, w);
    OccurrenceContains(Upper(w), TERMINAL_YES, 0);
    ContainsInfix(Upper(a), Upper(w), Upper(b), TERMINAL_YES);
  }

  /** Any spelling of `terminal: no`, with no `yes` anywhere, makes the step not final. */
  lemma IsFinalFindsNo(a: string, w: string, b: string)
    requires Upper(w) == TERMINAL_NO
    requires !Contains(Upper(a + w + b), TERMINAL_YES)
    ensures IsFinal(a + w + b) == Some(false)
  {
    UpperConcat(a + w, b);
    UpperConcat(a, w);
    OccurrenceContains(Upper(w), TERMINAL_NO, 0);
    ContainsInfix(Upper(a), Upper(w), Upper(b), TERMINAL_NO);
  }

  /** Text with neither marker gives no verdict. */
  lemma IsFinalUndetermined(s: string)
    requires !Contains(Upper(s), TERMINAL_YES) && !Contains(Upper(s), TERMINAL_NO)
    ensures IsFinal(s) == None
  {
  }
}
