/** What a built request keeps of the stored conversation: no adjacent user messages, every user part in
    order, strict alternation, and what merging does to the token estimate. */
module RequestLaws {
  import opened Options
  import opened ChatRequest

  // ---------- No adjacent user messages ----------

  ghost predicate NoAdjacentUsers(messages: seq<ChatMessage>) {
    forall i | 0 <= i < |messages| - 1 :: !(messages[i].User? && messages[i + 1].User?)
  }

  lemma {:induction false} PushAllKeepsUsersApart(result: seq<ChatMessage>, items: seq<ChatMessage>)
    requires NoAdjacentUsers(result)
    ensures NoAdjacentUsers(PushAll(result, items))
    decreases |items|
  {
    if items != [] {
      PushAllKeepsUsersApart(Push(result, items[0]), items[1..]);
    }
  }

  /** For every conversation, protocol messages included. */
  lemma RequestKeepsUsersApart(messages: seq<Message>, compaction: Option<Compaction>)
    requires Request(messages, compaction).Ok?
    ensures NoAdjacentUsers(Request(messages, compaction).value)
  {
    PushAllKeepsUsersApart(SummaryPair(messages, compaction), Items(Visible(messages, compaction)).value);
  }

  // ---------- Nothing a user said is lost, moved or doubled ----------

  /** Parts in order, where a text that meets a text is joined to it by a blank line. */
  function Glue(p: seq<Part>, q: seq<Part>): seq<Part> {
    if p != [] && q != [] && p[|p| - 1].TextPart? && q[0].TextPart? then
      p[..|p| - 1] + [TextPart(p[|p| - 1].text + "\n\n" + q[0].text)] + q[1..]
    else
      p + q
  }

  function Normal(parts: seq<Part>): (n: seq<Part>)
    ensures n == [] <==> parts == []
  {
    if parts == [] then [] else Glue([parts[0]], Normal(parts[1..]))
  }

  lemma GlueAssociates(p: seq<Part>, q: seq<Part>, r: seq<Part>)
    requires q != []
    ensures Glue(Glue(p, q), r) == Glue(p, Glue(q, r))
  {
    var left, right := Glue(Glue(p, q), r), Glue(p, Glue(q, r));
    if p == [] {
      assert Glue(p, q) == q;
      assert right == Glue(q, r);
    } else if r == [] {
      assert Glue(q, r) == q;
      assert left == Glue(p, q);
    } else {
      var a, z := p[|p| - 1], r[0];
      if |q| == 1 && a.TextPart? && q[0].TextPart? && z.TextPart? {
        assert (a.text + "\n\n" + q[0].text) + "\n\n" + z.text == a.text + "\n\n" + (q[0].text + "\n\n" + z.text);
        assert left == p[..|p| - 1] + [TextPart(a.text + "\n\n" + q[0].text + "\n\n" + z.text)] + r[1..];
      } else {
        assert left == right;
      }
    }
  }

  lemma {:induction false} NormalConcat(a: seq<Part>, b: seq<Part>)
    ensures Normal(a + b) == Glue(Normal(a), Normal(b))
    decreases |a|
  {
    if a == [] {
      assert a + b == b;
      assert Glue([], Normal(b)) == Normal(b);
    } else {
      assert (a + b)[1..] == a[1..] + b;
      NormalConcat(a[1..], b);
      if a[1..] == [] {
        assert a[1..] + b == b;
        assert Normal(a) == [a[0]];
      } else {
        GlueAssociates([a[0]], Normal(a[1..]), Normal(b));
      }
    }
  }

  lemma {:induction false} NormalOfTexts(parts: seq<Part>)
    requires parts != [] && AllText(parts)
    ensures Normal(parts) == [TextPart(JoinTexts(parts))]
    decreases |parts|
  {
    if |parts| == 1 {
      assert parts[1..] == [];
      assert parts[0].TextPart? && parts == [TextPart(parts[0].text)];
      assert Glue([parts[0]], []) == [parts[0]];
    } else {
      NormalOfTexts(parts[1..]);
    }
  }

  lemma MergeKeepsParts(a: Content, b: Content)
    requires PartsOf(a) != [] && PartsOf(b) != []
    ensures Normal(PartsOf(MergeContents(a, b))) == Glue(Normal(PartsOf(a)), Normal(PartsOf(b)))
  {
    var parts := PartsOf(a) + PartsOf(b);
    NormalConcat(PartsOf(a), PartsOf(b));
    if AllText(parts) {
      NormalOfTexts(parts);
    }
  }

  /** A run of user messages, by its parts, or any other message as it is. */
  datatype Turn = Said(parts: seq<Part>) | Kept(message: ChatMessage)

  function TurnOf(m: ChatMessage): Turn {
    if m.User? then Said(Normal(PartsOf(m.content))) else Kept(m)
  }

  /** The turns of a message list: each maximal run of user messages is one turn. */
  function Turns(items: seq<ChatMessage>): seq<Turn> {
    if items == [] then [] else
    var rest := Turns(items[1..]);
    if items[0].User? && rest != [] && rest[0].Said? then
      [Said(Glue(TurnOf(items[0]).parts, rest[0].parts))] + rest[1..]
    else
      [TurnOf(items[0])] + rest
  }

  /** Every user message has at least one part; `userMessageContent` never yields an empty list. */
  predicate Spoken(items: seq<ChatMessage>) {
    forall m <- items :: m.User? ==> PartsOf(m.content) != []
  }

  lemma {:induction false} TurnsOfMerged(before: seq<ChatMessage>, a: Content, b: Content, after: seq<ChatMessage>)
    requires PartsOf(a) != [] && PartsOf(b) != []
    ensures Turns(before + [User(a), User(b)] + after) == Turns(before + [User(MergeContents(a, b))] + after)
    decreases |before|
  {
    var two, one := before + [User(a), User(b)] + after, before + [User(MergeContents(a, b))] + after;
    if before == [] {
      assert two == [User(a)] + ([User(b)] + after) && one == [User(MergeContents(a, b))] + after;
      TurnsOfTwo(a, b, after);
    } else {
      assert two[1..] == before[1..] + [User(a), User(b)] + after;
      assert one[1..] == before[1..] + [User(MergeContents(a, b))] + after;
      TurnsOfMerged(before[1..], a, b, after);
    }
  }

  lemma {:induction false} TurnsOfFirst(a: Content, after: seq<ChatMessage>, rest: seq<Turn>)
    requires rest == Turns(after)
    ensures Turns([User(a)] + after) ==
            if rest != [] && rest[0].Said? then [Said(Glue(Normal(PartsOf(a)), rest[0].parts))] + rest[1..]
            else [Said(Normal(PartsOf(a)))] + rest
  {
    assert ([User(a)] + after)[1..] == after;
  }

  lemma {:induction false} TurnsOfTwo(a: Content, b: Content, after: seq<ChatMessage>)
    requires PartsOf(a) != [] && PartsOf(b) != []
    ensures Turns([User(a)] + ([User(b)] + after)) == Turns([User(MergeContents(a, b))] + after)
  {
    var rest := Turns(after);
    TurnsOfFirst(b, after, rest);
    TurnsOfFirst(a, [User(b)] + after, Turns([User(b)] + after));
    TurnsOfFirst(MergeContents(a, b), after, rest);
    MergeKeepsParts(a, b);
    if rest != [] && rest[0].Said? {
      GlueAssociates(Normal(PartsOf(a)), Normal(PartsOf(b)), rest[0].parts);
    }
  }

  lemma {:induction false} PushAllKeepsTurns(result: seq<ChatMessage>, items: seq<ChatMessage>)
    requires Spoken(result) && Spoken(items)
    ensures Turns(PushAll(result, items)) == Turns(result + items)
    decreases |items|
  {
    if items == [] {
      assert result + items == result;
    } else {
      var next := Push(result, items[0]);
      if items[0].User? && EndsWithUser(result) {
        var last := |result| - 1;
        assert result + items == result[..last] + [result[last], items[0]] + items[1..];
        TurnsOfMerged(result[..last], result[last].content, items[0].content, items[1..]);
      } else {
        assert result + items == next + items[1..];
      }
      PushAllKeepsTurns(next, items[1..]);
    }
  }

  lemma {:induction false} TurnsOfSeparated(messages: seq<ChatMessage>)
    requires NoAdjacentUsers(messages)
    ensures |Turns(messages)| == |messages|
    ensures forall i | 0 <= i < |messages| :: Turns(messages)[i] == TurnOf(messages[i])
    decreases |messages|
  {
    if messages != [] {
      TurnsOfSeparated(messages[1..]);
      if |messages| > 1 {
        assert messages[1..][0] == messages[1];
        assert Turns(messages[1..])[0] == TurnOf(messages[1]);
      }
      forall i | 0 <= i < |messages|
        ensures Turns(messages)[i] == TurnOf(messages[i])
      {
        if i > 0 {
          assert messages[1..][i - 1] == messages[i];
          assert Turns(messages[1..])[i - 1] == TurnOf(messages[i]);
        }
      }
    }
  }

  /** The request is the turns of what the messages say: one message a turn, other messages unchanged,
      and the parts of each run of user messages in order. */
  lemma RequestKeepsTurns(messages: seq<Message>, compaction: Option<Compaction>)
    requires Request(messages, compaction).Ok?
    requires Spoken(Items(Visible(messages, compaction)).value)
    ensures var request := Request(messages, compaction).value;
            var turns := Turns(SummaryPair(messages, compaction) + Items(Visible(messages, compaction)).value);
            && |request| == |turns|
            && forall i | 0 <= i < |request| :: TurnOf(request[i]) == turns[i]
  {
    RequestKeepsUsersApart(messages, compaction);
    PushAllKeepsTurns(SummaryPair(messages, compaction), Items(Visible(messages, compaction)).value);
    TurnsOfSeparated(Request(messages, compaction).value);
  }

  // ---------- Strict alternation ----------

  /** A message with no recorded tool protocol, with its attachments, and not an empty user turn. */
  predicate Simple(m: Message) {
    && m.protocol.None? && !m.attachmentsMissing
    && (m.role.FromUser? ==> m.text != "" || m.attachments != [])
  }

  ghost predicate SimpleDialogue(messages: seq<Message>) {
    && (forall m <- messages :: Simple(m))
    && (messages != [] ==> messages[0].role.FromUser?)
    && (forall i | 0 <= i < |messages| - 1 ::
          messages[i].role.FromAssistant? ==> messages[i + 1].role.FromUser?)
  }

  ghost predicate Alternates(request: seq<ChatMessage>) {
    forall i | 0 <= i < |request| ::
      if i % 2 == 0 then request[i].User? else request[i].Assistant?
  }

  /** User and assistant messages only, never two assistants in a row. */
  ghost predicate AssistantsApart(items: seq<ChatMessage>) {
    && (forall m <- items :: m.User? || m.Assistant?)
    && (forall i | 0 <= i < |items| - 1 :: items[i].Assistant? ==> items[i + 1].User?)
  }

  lemma {:induction false} SimpleItems(messages: seq<Message>)
    requires forall m <- messages :: Simple(m)
    requires forall i | 0 <= i < |messages| - 1 ::
               messages[i].role.FromAssistant? ==> messages[i + 1].role.FromUser?
    ensures Items(messages).Ok? && AssistantsApart(Items(messages).value) && Spoken(Items(messages).value)
    ensures messages != [] && messages[0].role.FromUser? ==>
              Items(messages).value != [] && Items(messages).value[0].User?
    decreases |messages|
  {
    if messages != [] {
      assert Simple(messages[0]);
      var first, rest := ItemsOf(messages[0]).value, Items(messages[1..]);
      assert forall i | 0 <= i < |messages[1..]| - 1 :: messages[1..][i] == messages[i + 1];
      SimpleItems(messages[1..]);
      assert |first| <= 1;
      if messages[0].role.FromUser? {
        assert first == [User(UserContent(messages[0].text, messages[0].attachments))];
      } else if |messages| > 1 {
        assert messages[1..][0] == messages[1];
      }
    }
  }

  lemma {:induction false} PushAllAlternates(result: seq<ChatMessage>, items: seq<ChatMessage>)
    requires Alternates(result) && AssistantsApart(items)
    requires items != [] && !items[0].User? ==> EndsWithUser(result)
    ensures Alternates(PushAll(result, items))
    decreases |items|
  {
    if items != [] {
      var next := Push(result, items[0]);
      assert Alternates(next);
      assert forall i | 0 <= i < |items[1..]| - 1 :: items[1..][i] == items[i + 1];
      PushAllAlternates(next, items[1..]);
    }
  }

  lemma RequestAlternates(messages: seq<Message>, compaction: Option<Compaction>)
    requires SimpleDialogue(Visible(messages, compaction))
    ensures Request(messages, compaction).Ok?
    ensures Alternates(Request(messages, compaction).value)
    ensures Visible(messages, compaction) != [] ==> Request(messages, compaction).value != []
  {
    var visible, pair := Visible(messages, compaction), SummaryPair(messages, compaction);
    SimpleItems(visible);
    PushAllAlternates(pair, Items(visible).value);
    if visible != [] {
      PushAllNonEmpty(pair, Items(visible).value);
    }
  }

  lemma {:induction false} PushAllNonEmpty(result: seq<ChatMessage>, items: seq<ChatMessage>)
    requires result != [] || items != []
    ensures PushAll(result, items) != []
    decreases |items|
  {
    if items != [] {
      PushAllNonEmpty(Push(result, items[0]), items[1..]);
    }
  }

  // ---------- Merging and the token estimate ----------

  function AsciiIn(parts: seq<Part>): nat
    requires AllText(parts)
  {
    if parts == [] then 0 else AsciiCount(parts[0].text) + AsciiIn(parts[1..])
  }

  function OtherIn(parts: seq<Part>): nat
    requires AllText(parts)
  {
    if parts == [] then 0 else OtherCount(parts[0].text) + OtherIn(parts[1..])
  }

  lemma {:induction false} JoinCounts(parts: seq<Part>)
    requires AllText(parts) && parts != []
    ensures AsciiCount(JoinTexts(parts)) == AsciiIn(parts) + 2 * (|parts| - 1)
    ensures OtherCount(JoinTexts(parts)) == OtherIn(parts)
    decreases |parts|
  {
    if |parts| > 1 {
      var head, tail := parts[0].text, JoinTexts(parts[1..]);
      JoinCounts(parts[1..]);
      AsciiCountConcat(head + "\n\n", tail);
      AsciiCountConcat(head, "\n\n");
      assert AsciiCount("\n\n") == 2 by {
        assert "\n\n"[1..] == "\n" && "\n"[1..] == "";
      }
    }
  }

  lemma {:induction false} PartsTokensBound(parts: seq<Part>)
    requires AllText(parts)
    ensures 2 * AsciiIn(parts) <= 7 * (PartsTokens(parts) - OtherIn(parts)) <= 2 * AsciiIn(parts) + 6 * |parts|
    decreases |parts|
  {
    if parts != [] {
      PartsTokensBound(parts[1..]);
    }
  }

  /** Joining costs at most the message overhead it saves, up to fifteen parts. */
  lemma MergeNeverCostsMore(a: Content, b: Content)
    requires |PartsOf(a)| + |PartsOf(b)| <= 15 || !AllText(PartsOf(a) + PartsOf(b))
    ensures MessageTokens(User(MergeContents(a, b))) <= MessageTokens(User(a)) + MessageTokens(User(b))
  {
    var parts := PartsOf(a) + PartsOf(b);
    PartsTokensConcat(PartsOf(a), PartsOf(b));
    assert forall c: Content :: MessageTokens(User(c)) == MESSAGE_OVERHEAD + PartsTokens(PartsOf(c));
    if AllText(parts) && parts != [] {
      JoinCounts(parts);
      PartsTokensBound(parts);
    }
  }

  /** Sixteen parts of seven ASCII characters each cost more joined. */
  lemma SixteenPartsCostMore(a: Content, b: Content)
    requires |PartsOf(a)| + |PartsOf(b)| == 16 && AllText(PartsOf(a) + PartsOf(b))
    requires forall p <- PartsOf(a) + PartsOf(b) :: |p.text| == AsciiCount(p.text) == 7
    ensures MessageTokens(User(MergeContents(a, b))) > MessageTokens(User(a)) + MessageTokens(User(b))
  {
    var parts := PartsOf(a) + PartsOf(b);
    PartsTokensConcat(PartsOf(a), PartsOf(b));
    assert forall c: Content :: MessageTokens(User(c)) == MESSAGE_OVERHEAD + PartsTokens(PartsOf(c));
    JoinCounts(parts);
    SevenEach(parts);
  }

  lemma {:induction false} SevenEach(parts: seq<Part>)
    requires AllText(parts) && forall p <- parts :: |p.text| == AsciiCount(p.text) == 7
    ensures PartsTokens(parts) == 2 * |parts| && AsciiIn(parts) == 7 * |parts| && OtherIn(parts) == 0
    decreases |parts|
  {
    if parts != [] {
      SevenEach(parts[1..]);
    }
  }

  /** At most seven parts, or a part that is not text, so that no merge joins more than fifteen. */
  predicate Light(content: Content) {
    |PartsOf(content)| <= 7 || !AllText(PartsOf(content))
  }

  lemma {:induction false} PushAllNeverCostsMore(result: seq<ChatMessage>, items: seq<ChatMessage>)
    requires EndsWithUser(result) ==> Light(result[|result| - 1].content)
    requires forall m <- items :: m.User? ==> Light(m.content)
    ensures Tokens(PushAll(result, items)) <= Tokens(result) + Tokens(items)
    decreases |items|
  {
    if items != [] {
      var item, next := items[0], Push(result, items[0]);
      if item.User? && EndsWithUser(result) {
        var last := |result| - 1;
        var a := result[last].content;
        MergeNeverCostsMore(a, item.content);
        TokensConcat(result[..last], [User(MergeContents(a, item.content))]);
        TokensConcat(result[..last], [result[last]]);
        assert result[..last] + [result[last]] == result;
        assert AllText(PartsOf(a) + PartsOf(item.content)) || !AllText(PartsOf(MergeContents(a, item.content)));
      } else {
        TokensConcat(result, [item]);
      }
      PushAllNeverCostsMore(next, items[1..]);
    }
  }

  const ATTACHMENT_LIMIT := 4

  /** A message within the attachment limit; recorded protocol may hold light user messages. */
  predicate Limited(m: Message) {
    match m.protocol
    case None => |m.attachments| <= ATTACHMENT_LIMIT
    case Some(items) => forall item <- items :: item.User? ==> Light(item.content)
  }

  lemma {:induction false} LimitedItems(messages: seq<Message>)
    requires Items(messages).Ok? && forall m <- messages :: Limited(m)
    ensures forall item <- Items(messages).value :: item.User? ==> Light(item.content)
    ensures (forall m <- messages :: m.protocol.None?) ==>
              forall item <- Items(messages).value :: item.User? ==> 1 <= |PartsOf(item.content)| <= 5
    decreases |messages|
  {
    if messages != [] {
      assert messages[0] in messages;
      LimitedItems(messages[1..]);
    }
  }

  /** With the attachment limit, a request never costs more than its messages sent one by one. */
  lemma {:induction false} RequestNeverCostsMore(messages: seq<Message>, compaction: Option<Compaction>)
    requires Request(messages, compaction).Ok?
    requires forall m <- Visible(messages, compaction) :: Limited(m)
    ensures Tokens(Request(messages, compaction).value)
         <= Tokens(SummaryPair(messages, compaction)) + Tokens(Items(Visible(messages, compaction)).value)
  {
    LimitedItems(Visible(messages, compaction));
    PushAllNeverCostsMore(SummaryPair(messages, compaction), Items(Visible(messages, compaction)).value);
  }

  /** Without recorded protocol the texts a message is joined to are at most five parts, so within the limit no
      join has more than ten, and none of sixteen is reached. */
  lemma {:induction false} JoinsAreSmall(result: seq<ChatMessage>, items: seq<ChatMessage>)
    requires forall m <- items :: m.User? ==> |PartsOf(m.content)| <= 5
    requires EndsWithUser(result) && IsText(result[|result| - 1].content) ==>
               |PartsOf(result[|result| - 1].content)| <= 5
    ensures var end := PushAll(result, items);
            EndsWithUser(end) && IsText(end[|end| - 1].content) ==> |PartsOf(end[|end| - 1].content)| <= 5
    decreases |items|
  {
    if items != [] {
      assert items[0] in items;
      JoinsAreSmall(Push(result, items[0]), items[1..]);
    }
  }

  // ---------- A suffix against the whole ----------

  lemma {:induction false} PushAllAfterReply(result: seq<ChatMessage>, more: seq<ChatMessage>, items: seq<ChatMessage>)
    requires more != [] || (items != [] ==> !(EndsWithUser(result) && items[0].User?))
    ensures PushAll(result + more, items) == result + PushAll(more, items)
    decreases |items|
  {
    if items == [] {
    } else {
      var item := items[0];
      if item.User? && EndsWithUser(result + more) {
        assert more != [] && more[|more| - 1] == (result + more)[|result + more| - 1];
        var last := |more| - 1;
        assert (result + more)[..|result + more| - 1] == result + more[..last];
        assert Push(result + more, item) == result + Push(more, item);
      } else {
        assert (result + more) + [item] == result + (more + [item]);
        assert more != [] ==> more[|more| - 1] == (result + more)[|result + more| - 1];
      }
      PushAllAfterReply(result, Push(more, item), items[1..]);
    }
  }

  predicate AllPlain(items: seq<ChatMessage>) {
    forall m <- items :: m.User? ==> m.content.Plain?
  }

  lemma {:induction false} PlainPushAll(a: string, b: string, items: seq<ChatMessage>)
    requires AllPlain(items)
    requires AsciiCount(a) <= AsciiCount(b) && OtherCount(a) <= OtherCount(b)
    ensures Tokens(PushAll([User(Plain(a))], items)) <= Tokens(PushAll([User(Plain(b))], items))
    decreases |items|
  {
    if items != [] {
      var item := items[0];
      if item.User? {
        var a', b' := a + "\n\n" + item.content.text, b + "\n\n" + item.content.text;
        PlainMerge(a, item.content.text);
        PlainMerge(b, item.content.text);
        AsciiCountConcat(a + "\n\n", item.content.text);
        AsciiCountConcat(b + "\n\n", item.content.text);
        AsciiCountConcat(a, "\n\n");
        AsciiCountConcat(b, "\n\n");
        PlainPushAll(a', b', items[1..]);
      } else {
        var A, B := [User(Plain(a))], [User(Plain(b))];
        assert A + [item] == Push(A, item) && B + [item] == Push(B, item);
        PushAllAfterReply(A, [item], items[1..]);
        PushAllAfterReply(B, [item], items[1..]);
        TokensConcat(A, PushAll([item], items[1..]));
        TokensConcat(B, PushAll([item], items[1..]));
      }
    }
  }

  lemma PlainMerge(a: string, b: string)
    ensures Push([User(Plain(a))], User(Plain(b))) == [User(Plain(a + "\n\n" + b))]
  {
    var parts := PartsOf(Plain(a)) + PartsOf(Plain(b));
    assert parts == [TextPart(a), TextPart(b)] && parts[1..] == [TextPart(b)];
    assert JoinTexts(parts) == a + "\n\n" + b;
  }

  /** A suffix that starts with a user message never costs more than the whole, if what precedes it does
      not end with a user message (then the whole is the sum), or if no user message has attachments. */
  lemma {:induction false} SuffixNeverCostsMore(before: seq<ChatMessage>, suffix: seq<ChatMessage>)
    requires suffix != [] && suffix[0].User?
    requires !EndsWithUser(PushAll([], before)) || AllPlain(before + suffix)
    ensures Tokens(PushAll([], suffix)) <= Tokens(PushAll([], before + suffix))
  {
    var head := PushAll([], before);
    PushAllConcat([], before, suffix);
    if !EndsWithUser(head) {
      PushAllAfterReply(head, [], suffix);
      assert head + [] == head;
      TokensConcat(head, PushAll([], suffix));
    } else {
      PushAllPlain([], before);
      PlainSuffix(head, suffix);
    }
  }

  lemma {:induction false} PlainSuffix(head: seq<ChatMessage>, suffix: seq<ChatMessage>)
    requires EndsWithUser(head) && head[|head| - 1].content.Plain?
    requires suffix != [] && suffix[0].User? && AllPlain(suffix)
    ensures Tokens(PushAll([], suffix)) <= Tokens(PushAll(head, suffix))
  {
    var last, text := |head| - 1, suffix[0].content.text;
    var a := head[last].content.text;
    assert head == head[..last] + [head[last]];
    PushAllAfterReply(head[..last], [head[last]], suffix);
    TokensConcat(head[..last], PushAll([head[last]], suffix));
    PlainMerge(a, text);
    AsciiCountConcat(a + "\n\n", text);
    PlainPushAll(text, a + "\n\n" + text, suffix[1..]);
    assert Push([], suffix[0]) == [User(Plain(text))];
  }

  lemma {:induction false} PushAllPlain(result: seq<ChatMessage>, items: seq<ChatMessage>)
    requires AllPlain(result) && AllPlain(items)
    ensures AllPlain(PushAll(result, items))
    decreases |items|
  {
    if items != [] {
      PushAllPlain(Push(result, items[0]), items[1..]);
    }
  }

  /** What follows the first turn of the suffix costs the same with or without what precedes. */
  lemma {:induction false} FirstTurnDecides(before: seq<ChatMessage>, suffix: seq<ChatMessage>, n: nat)
    requires 0 < n <= |suffix| && (n < |suffix| ==> !suffix[n].User?)
    ensures Tokens(PushAll([], suffix)) - Tokens(PushAll([], before + suffix))
         == Tokens(PushAll([], suffix[..n])) - Tokens(PushAll(PushAll([], before), suffix[..n]))
  {
    var head, turn, rest := PushAll([], before), suffix[..n], suffix[n..];
    assert suffix == turn + rest;
    PushAllConcat([], before, suffix);
    PushAllConcat([], turn, rest);
    PushAllConcat(head, turn, rest);
    forall start | start in [[], head]
      ensures Tokens(PushAll(start, suffix)) == Tokens(PushAll(start, turn)) + Tokens(PushAll([], rest))
    {
      var first := PushAll(start, turn);
      assert first + [] == first;
      PushAllConcat(start, turn, rest);
      PushAllAfterReply(first, [], rest);
      TokensConcat(first, PushAll([], rest));
    }
  }

  /** Joining a message to the one before it makes it cheaper exactly when it is a list of texts whose
      roundings, saved by the join, outweigh what is joined to them. */
  lemma JoinedIsCheaper(a: Content, c: Content)
    ensures var parts := PartsOf(a) + PartsOf(c);
            MessageTokens(User(c)) > MessageTokens(User(MergeContents(a, c))) <==>
            c.Parts? && AllText(parts) && PartsTokens(c.parts) > TextTokens(JoinTexts(parts))
  {
    var parts := PartsOf(a) + PartsOf(c);
    PartsTokensConcat(PartsOf(a), PartsOf(c));
    assert forall x: Content :: MessageTokens(User(x)) == MESSAGE_OVERHEAD + PartsTokens(PartsOf(x));
    if c.Plain? && AllText(parts) {
      assert parts[..|parts| - 1] == PartsOf(a) && parts == PartsOf(a) + [TextPart(c.text)];
      JoinCounts(parts);
      LastCounts(PartsOf(a), c.text);
    }
  }

  lemma {:induction false} LastCounts(parts: seq<Part>, text: string)
    requires AllText(parts)
    ensures AllText(parts + [TextPart(text)])
    ensures AsciiIn(parts + [TextPart(text)]) >= AsciiCount(text)
    ensures OtherIn(parts + [TextPart(text)]) >= OtherCount(text)
    decreases |parts|
  {
    var all := parts + [TextPart(text)];
    if parts == [] {
      assert all[1..] == [];
    } else {
      assert all[1..] == parts[1..] + [TextPart(text)];
      LastCounts(parts[1..], text);
    }
  }

  // ---------- The content a run of user messages comes to ----------

  predicate AllUsers(run: seq<ChatMessage>) {
    forall m <- run :: m.User?
  }

  function Folded(content: Content, run: seq<ChatMessage>): Content
    requires AllUsers(run)
    decreases |run|
  {
    if run == [] then content else Folded(MergeContents(content, run[0].content), run[1..])
  }

  function PartsIn(run: seq<ChatMessage>): seq<Part>
    requires AllUsers(run)
  {
    if run == [] then [] else PartsOf(run[0].content) + PartsIn(run[1..])
  }

  function Cost(content: Content): nat {
    PartsTokens(PartsOf(content))
  }

  predicate IsText(content: Content) {
    AllText(PartsOf(content))
  }

  lemma CostOfMessage(content: Content)
    ensures Tokens([User(content)]) == MESSAGE_OVERHEAD + Cost(content)
  {
    TokensOfOne(User(content));
    if content.Plain? {
      assert PartsOf(content) == [TextPart(content.text)] && PartsOf(content)[1..] == [];
      assert PartsTokens(PartsOf(content)) == TextTokens(content.text);
    }
  }

  lemma {:induction false} FoldedIsPushed(content: Content, run: seq<ChatMessage>)
    requires AllUsers(run)
    ensures PushAll([User(content)], run) == [User(Folded(content, run))]
    decreases |run|
  {
    if run != [] {
      assert run[0] in run;
      var merged := MergeContents(content, run[0].content);
      assert [User(content)][..0] == [] && [] + [User(merged)] == [User(merged)];
      assert Push([User(content)], run[0]) == [User(merged)];
      FoldedIsPushed(merged, run[1..]);
    }
  }

  lemma {:induction false} FoldedConcat(content: Content, a: seq<ChatMessage>, b: seq<ChatMessage>)
    requires AllUsers(a) && AllUsers(b)
    ensures AllUsers(a + b) && Folded(content, a + b) == Folded(Folded(content, a), b)
    decreases |a|
  {
    if a == [] {
      assert a + b == b;
    } else {
      assert a[0] in a && (a + b)[1..] == a[1..] + b;
      FoldedConcat(MergeContents(content, a[0].content), a[1..], b);
    }
  }

  /** Once a part is not text, nothing is joined any more. */
  lemma {:induction false} UnjoinedCost(content: Content, run: seq<ChatMessage>)
    requires AllUsers(run) && !IsText(content)
    ensures Cost(Folded(content, run)) == Cost(content) + PartsTokens(PartsIn(run))
    decreases |run|
  {
    if run != [] {
      assert run[0] in run;
      var parts := PartsOf(run[0].content);
      var merged := Parts(PartsOf(content) + parts);
      assert MergeContents(content, run[0].content) == merged && !IsText(merged);
      UnjoinedCost(merged, run[1..]);
      PartsTokensConcat(PartsOf(content), parts);
      PartsTokensConcat(parts, PartsIn(run[1..]));
    }
  }

  lemma {:induction false} TextsStayText(content: Content, run: seq<ChatMessage>)
    requires AllUsers(run) && IsText(content) && forall m <- run :: IsText(m.content)
    ensures IsText(Folded(content, run)) && (run != [] ==> Folded(content, run).Plain?)
    decreases |run|
  {
    if run != [] {
      assert run[0] in run;
      TextsStayText(MergeContents(content, run[0].content), run[1..]);
    }
  }

  /** Texts are joined up to the first message with another part; from there on the costs add up. */
  lemma {:induction false} TextsThenUnjoined(content: Content, texts: seq<ChatMessage>, rest: seq<ChatMessage>)
    requires AllUsers(texts) && AllUsers(rest) && IsText(content) && forall m <- texts :: IsText(m.content)
    requires rest != [] ==> !IsText(rest[0].content)
    ensures AllUsers(texts + rest)
    ensures Cost(Folded(content, texts + rest)) == Cost(Folded(content, texts)) + PartsTokens(PartsIn(rest))
  {
    FoldedConcat(content, texts, rest);
    TextsStayText(content, texts);
    if rest != [] {
      assert rest[0] in rest;
      var joined := Folded(content, texts);
      var merged := Parts(PartsOf(joined) + PartsOf(rest[0].content));
      assert MergeContents(joined, rest[0].content) == merged && !IsText(merged);
      UnjoinedCost(merged, rest[1..]);
      PartsTokensConcat(PartsOf(joined), PartsOf(rest[0].content));
      PartsTokensConcat(PartsOf(rest[0].content), PartsIn(rest[1..]));
    }
  }

  /** A joined text never costs more than a longer one joined to the same. */
  ghost predicate NoLonger(a: Content, b: Content) {
    a.Plain? && b.Plain? && AsciiCount(a.text) <= AsciiCount(b.text) && OtherCount(a.text) <= OtherCount(b.text)
  }

  lemma {:induction false} AsciiInConcat(a: seq<Part>, b: seq<Part>)
    requires AllText(a) && AllText(b)
    ensures AllText(a + b)
    ensures AsciiIn(a + b) == AsciiIn(a) + AsciiIn(b) && OtherIn(a + b) == OtherIn(a) + OtherIn(b)
    decreases |a|
  {
    if a == [] {
      assert a + b == b;
    } else {
      assert (a + b)[1..] == a[1..] + b;
      AsciiInConcat(a[1..], b);
    }
  }

  lemma {:induction false} MergeCounts(a: Content, b: Content)
    requires IsText(a) && IsText(b)
    ensures var joined := MergeContents(a, b);
            && joined.Plain?
            && OtherCount(joined.text) == OtherIn(PartsOf(a)) + OtherIn(PartsOf(b))
            && AsciiCount(joined.text) == AsciiIn(PartsOf(a)) + AsciiIn(PartsOf(b))
                 + (if PartsOf(a) + PartsOf(b) == [] then 0 else 2 * (|PartsOf(a)| + |PartsOf(b)| - 1))
  {
    var parts := PartsOf(a) + PartsOf(b);
    AsciiInConcat(PartsOf(a), PartsOf(b));
    if parts != [] {
      JoinCounts(parts);
    }
  }

  lemma {:induction false} CountsOfPlain(text: string)
    ensures AsciiIn([TextPart(text)]) == AsciiCount(text) && OtherIn([TextPart(text)]) == OtherCount(text)
  {
    assert [TextPart(text)][1..] == [];
  }

  lemma {:induction false} NoLongerStays(a: Content, b: Content, run: seq<ChatMessage>)
    requires NoLonger(a, b) && AllUsers(run) && forall m <- run :: IsText(m.content)
    ensures NoLonger(Folded(a, run), Folded(b, run))
    decreases |run|
  {
    if run != [] {
      assert run[0] in run;
      CountsOfPlain(a.text);
      CountsOfPlain(b.text);
      MergeCounts(a, run[0].content);
      MergeCounts(b, run[0].content);
      NoLongerStays(MergeContents(a, run[0].content), MergeContents(b, run[0].content), run[1..]);
    }
  }

  lemma NoLongerCostsNoMore(a: Content, b: Content)
    requires NoLonger(a, b)
    ensures Cost(a) <= Cost(b)
  {
    assert [TextPart(a.text)][1..] == [] && [TextPart(b.text)][1..] == [];
  }

  /** Two messages of text joined are no longer than with a text in front. */
  lemma {:induction false} InFrontIsLonger(a: Content, first: Content, second: Content)
    requires IsText(a) && IsText(first) && IsText(second)
    ensures NoLonger(MergeContents(first, second), MergeContents(MergeContents(a, first), second))
  {
    var joined := MergeContents(a, first);
    MergeCounts(first, second);
    MergeCounts(a, first);
    CountsOfPlain(joined.text);
    MergeCounts(joined, second);
  }

  // ---------- Exactly when a suffix costs more ----------

  /** The user messages at the start, one turn of the request. */
  function FirstTurn(items: seq<ChatMessage>): (turn: seq<ChatMessage>)
    ensures turn <= items && AllUsers(turn)
    ensures |turn| < |items| ==> !items[|turn|].User?
    ensures items != [] && items[0].User? ==> turn != []
  {
    if items == [] || !items[0].User? then [] else [items[0]] + FirstTurn(items[1..])
  }

  /** How many messages of a turn come before the first that is not all text. */
  function TextRun(turn: seq<ChatMessage>): (m: nat)
    requires AllUsers(turn)
    ensures m <= |turn|
    ensures forall i | 0 <= i < m :: IsText(turn[i].content)
    ensures m < |turn| ==> !IsText(turn[m].content)
  {
    if turn == [] || (assert turn[0] in turn; !IsText(turn[0].content)) then 0 else 1 + TextRun(turn[1..])
  }

  /** Joined to the content `a` before it, the turn gets cheaper by more than `front`.
      If `a` is all text, only the first message may be text, and rounding its parts one by one must cost more
      than rounding the joined text. Otherwise `a` keeps the texts of the turn apart, and joining them, two
      messages or more, must cost more than keeping them apart beside `a`. */
  ghost predicate JoinSaves(front: nat, a: Content, turn: seq<ChatMessage>)
    requires turn != [] && AllUsers(turn)
  {
    var m := TextRun(turn);
    assert turn[0] in turn;
    if IsText(a) then
      m == 1 && Cost(turn[0].content) > front + Cost(MergeContents(a, turn[0].content))
    else
      m >= 2 && Cost(Folded(turn[0].content, turn[1..m])) > front + Cost(a) + PartsTokens(PartsIn(turn[..m]))
  }

  lemma {:induction false} TurnOfText(a: Content, run: seq<ChatMessage>, m: nat)
    requires run != [] && AllUsers(run) && m <= |run| && IsText(a)
    requires forall i | 0 <= i < m :: IsText(run[i].content)
    requires m < |run| ==> !IsText(run[m].content)
    ensures var alone, behind := Cost(Folded(run[0].content, run[1..])), Cost(Folded(a, run));
            if m == 1 then alone - behind == Cost(run[0].content) - Cost(MergeContents(a, run[0].content))
            else alone <= behind
  {
    assert run[0] in run;
    var first, later := run[0].content, run[1..];
    if m == 0 {
      var merged := Parts(PartsOf(a) + PartsOf(first));
      assert MergeContents(a, first) == merged && !IsText(merged);
      PartsTokensConcat(PartsOf(a), PartsOf(first));
      UnjoinedCost(first, later);
      UnjoinedCost(merged, later);
    } else {
      var texts, rest := run[1..m], run[m..];
      TextsOf(run, m);
      var joined := MergeContents(a, first);
      TextsThenUnjoined(first, texts, rest);
      TextsThenUnjoined(joined, texts, rest);
      if m > 1 {
        InFrontIsLonger(a, first, texts[0].content);
        assert texts[0] in texts;
        NoLongerStays(MergeContents(first, texts[0].content), MergeContents(joined, texts[0].content), texts[1..]);
        NoLongerCostsNoMore(Folded(first, texts), Folded(joined, texts));
      }
    }
  }

  lemma {:induction false} TextsOf(run: seq<ChatMessage>, m: nat)
    requires 0 < m <= |run| && AllUsers(run) && forall i | 0 <= i < m :: IsText(run[i].content)
    ensures AllUsers(run[1..m]) && AllUsers(run[m..]) && AllUsers(run[..m]) && run[1..] == run[1..m] + run[m..]
    ensures forall t <- run[1..m] :: IsText(t.content)
  {
    forall t <- run[1..m]
      ensures IsText(t.content)
    {
      var i :| 0 <= i < |run[1..m]| && run[1..m][i] == t;
      assert t == run[i + 1];
    }
  }

  /** Behind a content that is not all text, the texts of the turn are kept apart. */
  lemma {:induction false} TurnBehindOther(a: Content, run: seq<ChatMessage>, m: nat)
    requires 0 < m <= |run| && AllUsers(run) && !IsText(a)
    requires forall i | 0 <= i < m :: IsText(run[i].content)
    requires m < |run| ==> !IsText(run[m].content)
    ensures Cost(Folded(run[0].content, run[1..])) - Cost(Folded(a, run))
         == Cost(Folded(run[0].content, run[1..m])) - Cost(a) - PartsTokens(PartsIn(run[..m]))
  {
    assert run[0] in run && run == run[..m] + run[m..];
    TextsOf(run, m);
    UnjoinedCost(a, run);
    TextsThenUnjoined(run[0].content, run[1..m], run[m..]);
    PartsInConcat(run[..m], run[m..]);
  }

  lemma {:induction false} FewTextsBehindOther(a: Content, run: seq<ChatMessage>, m: nat)
    requires run != [] && AllUsers(run) && !IsText(a) && m <= 1
    requires m == 0 ==> !IsText(run[0].content)
    requires m == 1 ==> IsText(run[0].content) && (|run| > 1 ==> !IsText(run[1].content))
    ensures Cost(Folded(run[0].content, run[1..])) <= Cost(Folded(a, run))
  {
    assert run[0] in run;
    var first := run[0].content;
    if m == 0 {
      UnjoinedCost(a, run);
      UnjoinedCost(first, run[1..]);
      PartsTokensConcat(PartsOf(first), PartsIn(run[1..]));
    } else {
      TurnBehindOther(a, run, 1);
      assert run[1..1] == [] && run[..1] == [run[0]];
      PartsOfOne(run[0]);
    }
  }

  lemma {:induction false} PartsOfOne(m: ChatMessage)
    requires m.User?
    ensures PartsIn([m]) == PartsOf(m.content)
  {
    assert [m][1..] == [] && PartsOf(m.content) + [] == PartsOf(m.content);
  }

  lemma {:induction false} PartsInConcat(a: seq<ChatMessage>, b: seq<ChatMessage>)
    requires AllUsers(a) && AllUsers(b)
    ensures AllUsers(a + b)
    ensures PartsTokens(PartsIn(a + b)) == PartsTokens(PartsIn(a)) + PartsTokens(PartsIn(b))
    decreases |a|
  {
    if a == [] {
      assert a + b == b;
    } else {
      assert a[0] in a && (a + b)[1..] == a[1..] + b;
      PartsInConcat(a[1..], b);
      PartsTokensConcat(PartsOf(a[0].content), PartsIn(a[1..] + b));
      PartsTokensConcat(PartsOf(a[0].content), PartsIn(a[1..]));
    }
  }

  /** Exactly when a suffix that starts with a user message costs more than the whole: the request before it
      ends with a user message, and joining the first turn to that saves more than all that precedes costs. */
  lemma {:induction false} SuffixCostsMoreExactly(before: seq<ChatMessage>, suffix: seq<ChatMessage>)
    requires suffix != [] && suffix[0].User?
    ensures var head := PushAll([], before);
            Tokens(PushAll([], suffix)) > Tokens(PushAll([], before + suffix)) <==>
            EndsWithUser(head) && JoinSaves(Tokens(head[..|head| - 1]), head[|head| - 1].content, FirstTurn(suffix))
  {
    var head, turn := PushAll([], before), FirstTurn(suffix);
    FirstTurnCompares(before, suffix, turn);
    if EndsWithUser(head) {
      TurnAfterUser(head, turn);
    } else {
      TurnApart(head, turn);
    }
  }

  lemma {:induction false} FirstTurnCompares(before: seq<ChatMessage>, suffix: seq<ChatMessage>,
                                             turn: seq<ChatMessage>)
    requires suffix != [] && suffix[0].User? && turn == FirstTurn(suffix)
    ensures Tokens(PushAll([], suffix)) > Tokens(PushAll([], before + suffix)) <==>
            Tokens(PushAll([], turn)) > Tokens(PushAll(PushAll([], before), turn))
  {
    assert turn == suffix[..|turn|];
    FirstTurnDecides(before, suffix, |turn|);
  }

  lemma {:induction false} TurnAfterUser(head: seq<ChatMessage>, turn: seq<ChatMessage>)
    requires EndsWithUser(head) && turn != [] && AllUsers(turn)
    ensures Tokens(PushAll([], turn)) > Tokens(PushAll(head, turn)) <==>
            JoinSaves(Tokens(head[..|head| - 1]), head[|head| - 1].content, turn)
  {
    var front, a := head[..|head| - 1], head[|head| - 1].content;
    assert head == front + [User(a)];
    TurnAgainstWhole(front, a, turn);
    TurnCompares(Tokens(front), a, turn);
  }

  lemma {:induction false} TurnApart(head: seq<ChatMessage>, turn: seq<ChatMessage>)
    requires !EndsWithUser(head)
    ensures Tokens(PushAll([], turn)) <= Tokens(PushAll(head, turn))
  {
    PushAllAfterReply(head, [], turn);
    assert head + [] == head;
    TokensConcat(head, PushAll([], turn));
  }

  lemma {:induction false} TurnCompares(front: nat, a: Content, turn: seq<ChatMessage>)
    requires turn != [] && AllUsers(turn)
    ensures Costlier(front, a, turn) <==> JoinSaves(front, a, turn)
  {
    var m := TextRun(turn);
    if IsText(a) {
      TurnOfText(a, turn, m);
    } else if m <= 1 {
      FewTextsBehindOther(a, turn, m);
    } else {
      TurnBehindOther(a, turn, m);
    }
  }

  ghost predicate Costlier(front: nat, a: Content, turn: seq<ChatMessage>)
    requires turn != [] && AllUsers(turn)
  {
    assert turn[0] in turn;
    Cost(Folded(turn[0].content, turn[1..])) > front + Cost(Folded(a, turn))
  }

  lemma {:induction false} TurnAgainstWhole(front: seq<ChatMessage>, a: Content, turn: seq<ChatMessage>)
    requires turn != [] && AllUsers(turn)
    ensures Tokens(PushAll([], turn)) > Tokens(PushAll(front + [User(a)], turn))
       <==> Costlier(Tokens(front), a, turn)
  {
    TurnAlone(turn);
    TurnBehind(front, a, turn);
  }

  lemma {:induction false} TurnAlone(run: seq<ChatMessage>)
    requires run != [] && AllUsers(run)
    ensures Tokens(PushAll([], run)) == MESSAGE_OVERHEAD + Cost(Folded(run[0].content, run[1..]))
  {
    assert run[0] in run;
    assert Push([], run[0]) == [User(run[0].content)];
    FoldedIsPushed(run[0].content, run[1..]);
    CostOfMessage(Folded(run[0].content, run[1..]));
  }

  lemma {:induction false} TurnBehind(front: seq<ChatMessage>, a: Content, run: seq<ChatMessage>)
    requires AllUsers(run)
    ensures Tokens(PushAll(front + [User(a)], run)) == Tokens(front) + MESSAGE_OVERHEAD + Cost(Folded(a, run))
  {
    PushAllAfterReply(front, [User(a)], run);
    FoldedIsPushed(a, run);
    TokensConcat(front, [User(Folded(a, run))]);
    CostOfMessage(Folded(a, run));
  }

  lemma FourOver(n: nat)
    requires n % 7 == 4
    ensures 7 * SevenHalvesUp(n) == 2 * n + 6
  {
    var q := n / 7;
    assert n == 7 * q + 4;
  }

  lemma {:induction false} FourModSeven(parts: seq<Part>)
    requires AllText(parts)
    requires forall p <- parts :: |p.text| == AsciiCount(p.text) && AsciiCount(p.text) % 7 == 4
    ensures 7 * PartsTokens(parts) == 2 * AsciiIn(parts) + 6 * |parts| && OtherIn(parts) == 0
    decreases |parts|
  {
    if parts != [] {
      FourOver(AsciiCount(parts[0].text));
      FourModSeven(parts[1..]);
    }
  }

  /** It can cost more otherwise: a one-character message whose reply is empty, then a message with a
      text and four text files, each of a length that leaves four over seven. */
  lemma {:induction false} SuffixCanCostMore(a: string, parts: seq<Part>)
    requires |a| == AsciiCount(a) == 1
    requires |parts| == 5 && AllText(parts)
    requires forall p <- parts :: |p.text| == AsciiCount(p.text) && AsciiCount(p.text) % 7 == 4
    ensures Tokens(PushAll([], [User(Parts(parts))]))
          > Tokens(PushAll([], [User(Plain(a)), User(Parts(parts))]))
  {
    var first, second := User(Plain(a)), User(Parts(parts));
    TwoTogether(first, second);
    TokensOfOne(second);
    TokensOfOne(User(MergeContents(first.content, second.content)));
    JoinedCostsLess(a, parts);
  }

  /** The same for the requests of stored messages: the messages from a user turn on against all of them. */
  lemma {:induction false} StoredSuffixCostsMoreExactly(messages: seq<Message>, start: nat)
    requires start < |messages| && Items(messages).Ok?
    ensures Items(messages[..start]).Ok? && Items(messages[start..]).Ok?
    ensures var before, suffix := Items(messages[..start]).value, Items(messages[start..]).value;
            var head := PushAll([], before);
            suffix != [] && suffix[0].User? ==>
              (Tokens(Request(messages[start..], None).value) > Tokens(Request(messages, None).value) <==>
               EndsWithUser(head)
               && JoinSaves(Tokens(head[..|head| - 1]), head[|head| - 1].content, FirstTurn(suffix)))
  {
    assert messages == messages[..start] + messages[start..];
    ItemsConcat(messages[..start], messages[start..]);
    var before, suffix := Items(messages[..start]).value, Items(messages[start..]).value;
    if suffix != [] && suffix[0].User? {
      SuffixCostsMoreExactly(before, suffix);
    }
  }

  const EARLIER := Message("1", FromUser, "a", [], false, false, None)
  const EMPTY_REPLY := Message("2", FromAssistant, "", [], false, false, None)
  const TEXT_FILE := TextFile("\"a\"", "sixsix")
  const LATER := Message("3", FromUser, "four", [TEXT_FILE, TEXT_FILE, TEXT_FILE, TEXT_FILE], false, false, None)

  lemma {:induction false} FileTextCounts()
    ensures AttachmentPart(TEXT_FILE).TextPart?
    ensures var text := AttachmentPart(TEXT_FILE).text;
            |text| == AsciiCount(text) == 25
    ensures |"four"| == AsciiCount("four") == 4 && |"a"| == AsciiCount("a") == 1
  {
    var text := AttachmentPart(TEXT_FILE).text;
    assert |text| == 25 && forall i | 0 <= i < |text| :: IsAscii(text[i]);
    AllAscii(text);
    AllAscii("four");
    AllAscii("a");
  }

  /** The request of the three messages above costs less than the request of the last alone. */
  lemma {:induction false} StoredSuffixCanCostMore()
    ensures Request([LATER], None).Ok? && Request([EARLIER, EMPTY_REPLY, LATER], None).Ok?
    ensures Tokens(Request([LATER], None).value) > Tokens(Request([EARLIER, EMPTY_REPLY, LATER], None).value)
  {
    var parts := PartsOf(UserContent(LATER.text, LATER.attachments));
    LaterParts();
    ItemsOfThree(EARLIER, EMPTY_REPLY, LATER, User(Plain("a")), User(Parts(parts)));
    FileTextCounts();
    SuffixCanCostMore("a", parts);
  }

  lemma {:induction false} LaterParts()
    ensures var content := UserContent(LATER.text, LATER.attachments);
            content.Parts? && |content.parts| == 5 && AllText(content.parts)
            && forall p <- content.parts :: |p.text| == AsciiCount(p.text) && AsciiCount(p.text) % 7 == 4
  {
    var file := AttachmentPart(TEXT_FILE);
    FileTextCounts();
    assert AttachmentParts(LATER.attachments) == [file, file, file, file];
    assert UserContent(LATER.text, LATER.attachments)
        == Parts([TextPart("four")] + [file, file, file, file]);
  }

  lemma {:induction false} ItemsOfThree(m1: Message, m2: Message, m3: Message, first: ChatMessage,
                                        second: ChatMessage)
    requires ItemsOf(m1) == Ok([first]) && ItemsOf(m2) == Ok([]) && ItemsOf(m3) == Ok([second])
    ensures Items([m3]) == Ok([second]) && Items([m1, m2, m3]) == Ok([first, second])
  {
    ItemsOfOne(m1);
    ItemsOfOne(m2);
    ItemsOfOne(m3);
    ItemsConcat([m1], [m2]);
    ItemsConcat([m1] + [m2], [m3]);
    assert [m1] + [m2] + [m3] == [m1, m2, m3];
    assert ([first] + []) + [second] == [first, second];
  }

  lemma TokensOfOne(m: ChatMessage)
    ensures Tokens([m]) == MessageTokens(m)
  {
    assert [m][1..] == [];
  }

  lemma TwoTogether(first: ChatMessage, second: ChatMessage)
    requires first.User? && second.User?
    ensures PushAll([], [second]) == [second]
    ensures PushAll([], [first, second]) == [User(MergeContents(first.content, second.content))]
  {
    assert [first, second] == [first] + [second];
    PushAllConcat([], [first], [second]);
    PushOne([], first);
    PushOne([], second);
    PushOne([first], second);
  }

  lemma {:induction false} PushOne(result: seq<ChatMessage>, item: ChatMessage)
    ensures PushAll(result, [item]) == Push(result, item)
  {
    assert [item][1..] == [];
  }

  lemma {:induction false} JoinedCostsLess(a: string, parts: seq<Part>)
    requires |a| == AsciiCount(a) == 1
    requires |parts| == 5 && AllText(parts)
    requires forall p <- parts :: |p.text| == AsciiCount(p.text) && AsciiCount(p.text) % 7 == 4
    ensures MessageTokens(User(MergeContents(Plain(a), Parts(parts)))) < MessageTokens(User(Parts(parts)))
  {
    var all := PartsOf(Plain(a)) + parts;
    JoinCounts(all);
    assert all[1..] == parts;
    FourModSeven(parts);
  }
}
