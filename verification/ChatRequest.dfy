/** Building the chat request: token estimates, the content of each stored message, and the merging of
    consecutive user messages. */
module ChatRequest {
  import opened Options
  import opened Text

  /** A stored message whose attachments are gone makes the build throw. */
  datatype Result<+T> = Ok(value: T) | MissingAttachments

  datatype Part = TextPart(text: string) | ImagePart(url: string)

  datatype Content = Plain(text: string) | Parts(parts: seq<Part>)

  datatype ToolCall = ToolCall(id: string, name: string, arguments: string)

  datatype ChatMessage =
    | System(note: string)
    | User(content: Content)
    | Assistant(reply: Option<string>, calls: seq<ToolCall>)
    | Tool(callId: string, output: string)

  // ---------- Token estimates ----------

  const MESSAGE_OVERHEAD := 8
  const IMAGE_TOKENS := 1024

  predicate IsAscii(c: char) {
    c as int < 128
  }

  function AsciiCount(text: string): (n: nat)
    ensures n <= |text|
  {
    if text == [] then 0 else (if IsAscii(text[0]) then 1 else 0) + AsciiCount(text[1..])
  }

  function OtherCount(text: string): nat {
    |text| - AsciiCount(text)
  }

  function Ceiling(x: real): int {
    -((-x).Floor)
  }

  /** ceil(n / 3.5), in integers. */
  function SevenHalvesUp(n: nat): nat {
    (2 * n + 6) / 7
  }

  lemma CeilingOfSevenHalves(n: nat)
    ensures Ceiling(n as real / 3.5) == SevenHalvesUp(n)
  {
    var q := SevenHalvesUp(n);
    var x := n as real / 3.5;
    assert 7 * (q - 1) < 2 * n <= 7 * q;
    assert x * 7.0 == 2.0 * (n as real);
    assert (7 * (q - 1)) as real < (2 * n) as real <= (7 * q) as real;
    assert (q - 1) as real < x <= q as real;
  }

  function TextTokens(text: string): nat {
    SevenHalvesUp(AsciiCount(text)) + OtherCount(text)
  }

  lemma {:induction false} AsciiCountConcat(a: string, b: string)
    ensures AsciiCount(a + b) == AsciiCount(a) + AsciiCount(b)
    decreases |a|
  {
    if a == [] {
      assert a + b == b;
    } else {
      assert (a + b)[1..] == a[1..] + b;
      AsciiCountConcat(a[1..], b);
    }
  }

  lemma {:induction false} AllAscii(text: string)
    requires forall i | 0 <= i < |text| :: IsAscii(text[i])
    ensures AsciiCount(text) == |text|
    decreases |text|
  {
    if text != [] {
      AllAscii(text[1..]);
    }
  }

  method EstimateTextTokens(text: string) returns (tokens: nat)
    ensures tokens == TextTokens(text)
  {
    var ascii, other := 0, 0;
    for i := 0 to |text|
      invariant ascii == AsciiCount(text[..i]) && other == i - ascii
    {
      assert text[..i + 1] == text[..i] + [text[i]];
      AsciiCountConcat(text[..i], [text[i]]);
      if text[i] as int < 128 {
        ascii := ascii + 1;
      } else {
        other := other + 1;
      }
    }
    assert text[..|text|] == text;
    CeilingOfSevenHalves(ascii);
    tokens := Ceiling(ascii as real / 3.5) + other;
  }

  function PartTokens(part: Part): nat {
    match part
    case TextPart(text) => TextTokens(text)
    case ImagePart(_) => IMAGE_TOKENS
  }

  function PartsTokens(parts: seq<Part>): nat {
    if parts == [] then 0 else PartTokens(parts[0]) + PartsTokens(parts[1..])
  }

  function CallsTokens(calls: seq<ToolCall>): nat {
    if calls == [] then 0
    else MESSAGE_OVERHEAD + TextTokens(calls[0].name + calls[0].arguments) + CallsTokens(calls[1..])
  }

  function MessageTokens(m: ChatMessage): nat {
    MESSAGE_OVERHEAD +
    match m
    case System(note) => TextTokens(note)
    case User(Plain(text)) => TextTokens(text)
    case User(Parts(parts)) => PartsTokens(parts)
    case Assistant(reply, calls) =>
      (if reply.Some? then TextTokens(reply.value) else 0) + CallsTokens(calls)
    case Tool(_, output) => TextTokens(output)
  }

  function Tokens(messages: seq<ChatMessage>): nat {
    if messages == [] then 0 else MessageTokens(messages[0]) + Tokens(messages[1..])
  }

  lemma {:induction false} PartsTokensConcat(a: seq<Part>, b: seq<Part>)
    ensures PartsTokens(a + b) == PartsTokens(a) + PartsTokens(b)
    decreases |a|
  {
    if a == [] {
      assert a + b == b;
    } else {
      assert (a + b)[1..] == a[1..] + b;
      PartsTokensConcat(a[1..], b);
    }
  }

  lemma {:induction false} CallsTokensConcat(a: seq<ToolCall>, b: seq<ToolCall>)
    ensures CallsTokens(a + b) == CallsTokens(a) + CallsTokens(b)
    decreases |a|
  {
    if a == [] {
      assert a + b == b;
    } else {
      assert (a + b)[1..] == a[1..] + b;
      CallsTokensConcat(a[1..], b);
    }
  }

  lemma {:induction false} TokensConcat(a: seq<ChatMessage>, b: seq<ChatMessage>)
    ensures Tokens(a + b) == Tokens(a) + Tokens(b)
    decreases |a|
  {
    if a == [] {
      assert a + b == b;
    } else {
      assert (a + b)[1..] == a[1..] + b;
      TokensConcat(a[1..], b);
    }
  }

  method EstimateParts(parts: seq<Part>) returns (total: nat)
    ensures total == PartsTokens(parts)
  {
    total := 0;
    for j := 0 to |parts|
      invariant total == PartsTokens(parts[..j])
    {
      assert parts[..j + 1] == parts[..j] + [parts[j]];
      PartsTokensConcat(parts[..j], [parts[j]]);
      if parts[j].TextPart? {
        var n := EstimateTextTokens(parts[j].text);
        total := total + n;
      } else {
        total := total + IMAGE_TOKENS;
      }
    }
    assert parts[..|parts|] == parts;
  }

  method EstimateCalls(calls: seq<ToolCall>) returns (total: nat)
    ensures total == CallsTokens(calls)
  {
    total := 0;
    for j := 0 to |calls|
      invariant total == CallsTokens(calls[..j])
    {
      assert calls[..j + 1] == calls[..j] + [calls[j]];
      CallsTokensConcat(calls[..j], [calls[j]]);
      var n := EstimateTextTokens(calls[j].name + calls[j].arguments);
      total := total + MESSAGE_OVERHEAD + n;
    }
    assert calls[..|calls|] == calls;
  }

  /** `estimateTokens`. */
  method EstimateTokens(messages: seq<ChatMessage>) returns (total: nat)
    ensures total == Tokens(messages)
  {
    total := 0;
    for i := 0 to |messages|
      invariant total == Tokens(messages[..i])
    {
      assert messages[..i + 1] == messages[..i] + [messages[i]];
      TokensConcat(messages[..i], [messages[i]]);
      var n, calls := 0, 0;
      match messages[i] {
        case System(note) => n := EstimateTextTokens(note);
        case User(Plain(text)) => n := EstimateTextTokens(text);
        case User(Parts(parts)) => n := EstimateParts(parts);
        case Assistant(reply, toolCalls) =>
          if reply.Some? {
            n := EstimateTextTokens(reply.value);
          }
          calls := EstimateCalls(toolCalls);
        case Tool(_, output) => n := EstimateTextTokens(output);
      }
      total := total + MESSAGE_OVERHEAD + n + calls;
    }
    assert messages[..|messages|] == messages;
  }

  // ---------- Stored messages ----------

  /** `quotedName` is the file name as a JSON string. */
  datatype Attachment = Image(url: string) | TextFile(quotedName: string, text: string)

  datatype Role = FromUser | FromAssistant

  datatype Message = Message(
    id: string, role: Role, text: string, attachments: seq<Attachment>, attachmentsMissing: bool,
    interrupted: bool, protocol: Option<seq<ChatMessage>>)

  datatype Compaction = Compaction(through: string, summary: string, dropped: bool, count: nat)

  const INTERRUPTED_NOTE := "[Interrupted by the user]"
  const SUMMARY_LEAD := "Summary of the earlier conversation:"
  const SUMMARY_ACK := "Understood. I will " + "continue from that summary."

  function AttachmentPart(a: Attachment): Part {
    match a
    case Image(url) => ImagePart(url)
    case TextFile(quotedName, text) => TextPart("Attached file " + quotedName + ":\n" + text)
  }

  function AttachmentParts(attachments: seq<Attachment>): seq<Part> {
    seq(|attachments|, i requires 0 <= i < |attachments| => AttachmentPart(attachments[i]))
  }

  function UserContent(text: string, attachments: seq<Attachment>): Content {
    if attachments == [] then Plain(text)
    else Parts((if text == "" then [] else [TextPart(text)]) + AttachmentParts(attachments))
  }

  method UserMessageContent(text: string, attachments: seq<Attachment>) returns (content: Content)
    ensures content == UserContent(text, attachments)
  {
    if attachments == [] {
      return Plain(text);
    }
    var parts := if text == "" then [] else [TextPart(text)];
    ghost var lead := parts;
    for i := 0 to |attachments|
      invariant parts == lead + AttachmentParts(attachments[..i])
    {
      parts := parts + [AttachmentPart(attachments[i])];
      assert AttachmentParts(attachments[..i + 1])
          == AttachmentParts(attachments[..i]) + [AttachmentPart(attachments[i])];
    }
    assert attachments[..|attachments|] == attachments;
    content := Parts(parts);
  }

  function MessageToChat(m: Message): Result<seq<ChatMessage>> {
    if m.attachmentsMissing then MissingAttachments
    else if m.protocol.Some? then Ok(m.protocol.value)
    else if m.role.FromUser? then
      Ok(if m.text != "" || m.attachments != [] then [User(UserContent(m.text, m.attachments))] else [])
    else
      Ok(if m.text != "" then [Assistant(Some(m.text), [])] else [])
  }

  /** What one stored message adds to a request. An interrupted reply keeps its text and gains a note. */
  function ItemsOf(m: Message): Result<seq<ChatMessage>> {
    if m.role.FromAssistant? && m.interrupted && m.protocol.None? then
      Ok(if IsBlank(m.text) then []
         else [Assistant(Some(TrimEnd(m.text) + "\n\n" + INTERRUPTED_NOTE), [])])
    else
      MessageToChat(m)
  }

  function Items(messages: seq<Message>): Result<seq<ChatMessage>> {
    if messages == [] then Ok([])
    else
      var rest := Items(messages[1..]);
      var first := ItemsOf(messages[0]);
      if first.Ok? && rest.Ok? then Ok(first.value + rest.value) else MissingAttachments
  }

  lemma {:induction false} ItemsConcat(a: seq<Message>, b: seq<Message>)
    ensures Items(a + b) ==
            if Items(a).Ok? && Items(b).Ok? then Ok(Items(a).value + Items(b).value) else MissingAttachments
    decreases |a|
  {
    if a == [] {
      assert a + b == b;
      if Items(b).Ok? {
        assert [] + Items(b).value == Items(b).value;
      }
    } else {
      assert (a + b)[1..] == a[1..] + b;
      ItemsConcat(a[1..], b);
      if ItemsOf(a[0]).Ok? && Items(a[1..]).Ok? && Items(b).Ok? {
        assert (ItemsOf(a[0]).value + Items(a[1..]).value) + Items(b).value
            == ItemsOf(a[0]).value + (Items(a[1..]).value + Items(b).value);
      }
    }
  }

  lemma ItemsOfOne(m: Message)
    ensures Items([m]) == ItemsOf(m)
  {
    assert [m][1..] == [];
    if ItemsOf(m).Ok? {
      assert ItemsOf(m).value + [] == ItemsOf(m).value;
    }
  }

  lemma ItemsUpTo(messages: seq<Message>, i: nat)
    requires i < |messages| && Items(messages[..i]).Ok?
    ensures var chat := ItemsOf(messages[i]);
            Items(messages[..i + 1]) ==
              if chat.Ok? then Ok(Items(messages[..i]).value + chat.value) else MissingAttachments
  {
    assert messages[..i + 1] == messages[..i] + [messages[i]];
    ItemsConcat(messages[..i], [messages[i]]);
    ItemsOfOne(messages[i]);
  }

  lemma {:induction false} ItemsFail(messages: seq<Message>, i: nat)
    requires i <= |messages| && Items(messages[..i]).MissingAttachments?
    ensures Items(messages).MissingAttachments?
  {
    assert messages == messages[..i] + messages[i..];
    ItemsConcat(messages[..i], messages[i..]);
  }

  // ---------- Visible messages ----------

  /** The position of the first message with this id, or the length. */
  function IndexOf(messages: seq<Message>, id: string): (i: nat)
    ensures i <= |messages|
    ensures i < |messages| ==> messages[i].id == id
    ensures forall j | 0 <= j < i :: messages[j].id != id
  {
    if messages == [] || messages[0].id == id then 0 else 1 + IndexOf(messages[1..], id)
  }

  predicate Has(messages: seq<Message>, id: string) {
    IndexOf(messages, id) < |messages|
  }

  function Visible(messages: seq<Message>, compaction: Option<Compaction>): seq<Message> {
    if compaction.None? || !Has(messages, compaction.value.through) then messages
    else messages[IndexOf(messages, compaction.value.through) + 1..]
  }

  // ---------- Merging ----------

  function PartsOf(content: Content): seq<Part> {
    match content
    case Plain(text) => [TextPart(text)]
    case Parts(parts) => parts
  }

  predicate AllText(parts: seq<Part>) {
    forall p <- parts :: p.TextPart?
  }

  function JoinTexts(parts: seq<Part>): string
    requires AllText(parts)
  {
    if parts == [] then "" else if |parts| == 1 then parts[0].text
    else parts[0].text + "\n\n" + JoinTexts(parts[1..])
  }

  function MergeContents(a: Content, b: Content): Content {
    var parts := PartsOf(a) + PartsOf(b);
    if AllText(parts) then Plain(JoinTexts(parts)) else Parts(parts)
  }

  predicate EndsWithUser(messages: seq<ChatMessage>) {
    messages != [] && messages[|messages| - 1].User?
  }

  function Push(result: seq<ChatMessage>, item: ChatMessage): seq<ChatMessage> {
    if item.User? && EndsWithUser(result) then
      result[..|result| - 1] + [User(MergeContents(result[|result| - 1].content, item.content))]
    else
      result + [item]
  }

  function PushAll(result: seq<ChatMessage>, items: seq<ChatMessage>): seq<ChatMessage>
    decreases |items|
  {
    if items == [] then result else PushAll(Push(result, items[0]), items[1..])
  }

  lemma {:induction false} PushAllConcat(result: seq<ChatMessage>, a: seq<ChatMessage>, b: seq<ChatMessage>)
    ensures PushAll(result, a + b) == PushAll(PushAll(result, a), b)
    decreases |a|
  {
    if a == [] {
      assert a + b == b;
    } else {
      assert (a + b)[1..] == a[1..] + b;
      PushAllConcat(Push(result, a[0]), a[1..], b);
    }
  }

  /** The two messages that stand for the folded prefix. */
  function SummaryPair(messages: seq<Message>, compaction: Option<Compaction>): seq<ChatMessage> {
    if compaction.Some? && compaction.value.summary != "" && Has(messages, compaction.value.through) then
      [User(Plain(SUMMARY_LEAD + "\n\n" + compaction.value.summary)), Assistant(Some(SUMMARY_ACK), [])]
    else []
  }

  function Request(messages: seq<Message>, compaction: Option<Compaction>): Result<seq<ChatMessage>> {
    var items := Items(Visible(messages, compaction));
    if items.Ok? then Ok(PushAll(SummaryPair(messages, compaction), items.value)) else MissingAttachments
  }

  /** The inner loop of `chatContext`: a user item joins the user message before it. */
  method PushInTurn(before: seq<ChatMessage>, chat: seq<ChatMessage>) returns (result: seq<ChatMessage>)
    ensures result == PushAll(before, chat)
  {
    result := before;
    for j := 0 to |chat|
      invariant result == PushAll(before, chat[..j])
    {
      var item := chat[j];
      assert chat[..j + 1] == chat[..j] + [item];
      PushAllConcat(before, chat[..j], [item]);
      if item.User? && EndsWithUser(result) {
        var last := |result| - 1;
        result := result[last := User(MergeContents(result[last].content, item.content))];
      } else {
        result := result + [item];
      }
    }
    assert chat[..|chat|] == chat;
  }

  /** `chatContext`. */
  method ChatContext(messages: seq<Message>, compaction: Option<Compaction>)
    returns (context: Result<seq<ChatMessage>>)
    ensures context == Request(messages, compaction)
  {
    var result := SummaryPair(messages, compaction);
    var visible := Visible(messages, compaction);
    ghost var pair := result;
    for i := 0 to |visible|
      invariant Items(visible[..i]).Ok? && result == PushAll(pair, Items(visible[..i]).value)
    {
      var chat := ItemsOf(visible[i]);
      ItemsUpTo(visible, i);
      if chat.MissingAttachments? {
        ItemsFail(visible, i + 1);
        return MissingAttachments;
      }
      PushAllConcat(pair, Items(visible[..i]).value, chat.value);
      result := PushInTurn(result, chat.value);
    }
    assert visible[..|visible|] == visible;
    context := Ok(result);
  }
}
