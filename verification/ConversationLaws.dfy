/** What a conversation stores and sends, told from the messages before and after. */
module ConversationLaws {
  import opened Options
  import opened Text
  import opened ChatRequest
  import opened CompactionPlan
  import opened Conversation

  // ---------- Summaries ----------

  ghost predicate Knows(messages: seq<Message>, compaction: Option<Compaction>) {
    compaction.Some? && exists i | 0 <= i < |messages| :: messages[i].id == compaction.value.through
  }

  lemma {:induction false} KnowsIsHas(messages: seq<Message>, id: string)
    ensures Has(messages, id) <==> exists i | 0 <= i < |messages| :: messages[i].id == id
  {
    if Has(messages, id) {
      assert messages[IndexOf(messages, id)].id == id;
    }
  }

  /** What a compaction holds: the answer, if there is a nonempty one; otherwise the summary before, marked as
      dropped. A compaction whose message is gone counts as none. */
  lemma CompactedExactly(messages: seq<Message>, compaction: Option<Compaction>, plan: Plan, summary: Option<string>)
    ensures var next := Compacted(messages, compaction, plan, summary);
            var known := Knows(messages, compaction);
            && next.through == plan.through.id
            && next.count == |plan.covered| + (if known then compaction.value.count else 0)
            && (summary.Some? && |summary.value| > 0 ==> next.summary == summary.value && !next.dropped)
            && (summary == None || summary == Some("") ==>
                  next.dropped && next.summary == if known then compaction.value.summary else "")
  {
    if compaction.Some? {
      KnowsIsHas(messages, compaction.value.through);
    }
  }

  /** Once the summary has arrived it is stored, with the running send too; without one, the one before stays and
      the compaction is marked as dropped. */
  lemma SummaryIsStored(s: State, summary: Option<string>)
    requires Inv(s) && s.compacting.Some?
    ensures var next := Step(s, Event.Summarized(summary));
            && next.messages == s.messages && next.compacting.None? && next.compaction.Some?
            && (s.running.Some? <==> next.running.Some?)
            && (next.running.Some? ==> next.running.value == s.running.value.(compaction := next.compaction))
            && var c := next.compaction.value;
               && 0 < c.count < |s.messages| && c.through == s.messages[c.count - 1].id
               && (summary.Some? && |summary.value| > 0 ==> c.summary == summary.value && !c.dropped)
               && (summary == None || summary == Some("") ==>
                     c.dropped && c.summary == if s.compaction.Some? then s.compaction.value.summary else "")
  {
    var p := s.compacting.value;
    var next := Compacted(p.history, p.compaction, p.plan, summary);
    StepCommits(s, summary, next);
    StoredHolds(s, summary, next);
  }

  lemma StoredHolds(s: State, summary: Option<string>, c: Compaction)
    requires Inv(s) && s.compacting.Some?
    requires var p := s.compacting.value; c == Compacted(p.history, p.compaction, p.plan, summary)
    ensures 0 < c.count < |s.messages| && c.through == s.messages[c.count - 1].id
    ensures summary.Some? && |summary.value| > 0 ==> c.summary == summary.value && !c.dropped
    ensures summary == None || summary == Some("") ==>
              c.dropped && c.summary == if s.compaction.Some? then s.compaction.value.summary else ""
  {
    var p := s.compacting.value;
    PendingFolds(s, summary);
    ThroughIsThere(s.messages, c);
    CompactedExactly(p.history, p.compaction, p.plan, summary);
    if s.compaction.Some? {
      PendingKnows(s);
    }
  }

  lemma ThroughIsThere(messages: seq<Message>, c: Compaction)
    requires Folded(messages, Some(c))
    ensures 0 < c.count < |messages| && messages[c.count - 1].id == c.through
  {
    assert messages[IndexOf(messages, c.through)].id == c.through;
  }

  /** The compaction a plan was made from is known in the plan's messages. */
  lemma PendingKnows(s: State)
    requires Inv(s) && s.compacting.Some? && s.compaction.Some?
    ensures Knows(s.compacting.value.history, s.compaction)
  {
    var p := s.compacting.value;
    if s.running.None? {
      ShapeBack(p.history, s.messages);
      FoldedKeepsShape(s.messages, p.history, s.compaction);
    }
    assert Folded(p.history, s.compaction);
    ThroughIsThere(p.history, s.compaction.value);
  }

  /** The two messages that carry a summary. */
  ghost predicate CarriesSummary(request: seq<ChatMessage>, summary: string) {
    && |request| >= 2
    && request[0] == User(Plain(("Summary of the earlier conversation:" + "\n\n") + summary))
    && request[1] == Assistant(Some("Understood. I will " + "continue from that summary."), [])
  }

  /** Every request made over a compaction with a summary starts with the pair that carries it. */
  lemma RequestCarries(messages: seq<Message>, c: Compaction)
    requires Knows(messages, Some(c)) && c.summary != "" && Request(messages, Some(c)).Ok?
    ensures CarriesSummary(Request(messages, Some(c)).value, c.summary)
  {
    KnowsIsHas(messages, c.through);
    RequestWithSummary(messages, Some(c));
  }

  /** Without a Summarized event the compaction stays, through sends, retries, steers and aborts. */
  lemma {:induction false} CompactionStays(s: State, events: seq<Event>)
    requires Inv(s) && forall e <- events :: !e.Summarized?
    ensures After(s, events).compaction == s.compaction && Inv(After(s, events))
    decreases |events|
  {
    if events != [] {
      assert events[0] in events && forall e <- events[1..] :: e in events;
      StepKeepsInvariant(s, events[0]);
      StepStays(s, events[0]);
      CompactionStays(Step(s, events[0]), events[1..]);
    }
  }

  lemma StepStays(s: State, e: Event)
    requires !e.Summarized?
    ensures Step(s, e).compaction == s.compaction
  {
  }

  /** A summary that has arrived is in every request from then on, until the next one arrives. */
  lemma {:induction false} SummaryIsSent(s: State, summary: string, events: seq<Event>)
    requires Inv(s) && s.compacting.Some? && summary != "" && forall e <- events :: !e.Summarized?
    ensures var t := After(Step(s, Event.Summarized(Some(summary))), events);
            t.running.Some? ==>
              var request := Request(t.running.value.history, t.running.value.compaction);
              request.Ok? ==> CarriesSummary(request.value, summary)
  {
    var next := Step(s, Event.Summarized(Some(summary)));
    SummaryIsStored(s, Some(summary));
    StepKeepsInvariant(s, Event.Summarized(Some(summary)));
    CompactionStays(next, events);
    var t := After(next, events);
    if t.running.Some? && Request(t.running.value.history, t.running.value.compaction).Ok? {
      ThroughIsThere(t.running.value.history, t.compaction.value);
      RequestCarries(t.running.value.history, t.compaction.value);
    }
  }

  // ---------- Sending ----------

  /** What a send makes of the messages: the same ones, then the new user message and an empty reply. */
  ghost predicate Appends(before: seq<Message>, userId: string, text: string, attachments: seq<Attachment>,
                          replyId: string, after: seq<Message>) {
    && |after| == |before| + 2 && after[..|before|] == before
    && after[|before|] == Message(userId, FromUser, text, attachments, false, false, None)
    && after[|before| + 1] == Message(replyId, FromAssistant, "", [], false, false, None)
  }

  /** The running send has all of them but the reply, and the compaction as it is. */
  ghost predicate SendsAll(s: State, replyId: string) {
    && s.messages != [] && s.compacting.None?
    && s.running == Some(Sending(s.messages[..|s.messages| - 1], s.compaction, replyId))
  }

  /** A new message is appended as it is given. */
  lemma NewIsAppended(s: State, text: string, attachments: seq<Attachment>, userId: string, replyId: string)
    requires s.running.None? && s.compacting.None? && Fresh(s.messages, userId, replyId)
    ensures var next := Step(s, Event.Send(New, text, attachments, userId, replyId));
            Appends(s.messages, userId, text, attachments, replyId, next.messages) && SendsAll(next, replyId)
            && next.compaction == s.compaction
  {
    SendAppends(s, Event.Send(New, text, attachments, userId, replyId));
  }

  /** A retry sends the newest user message again, text and attachments, in place of itself and all behind it; its
      own text and attachments do not matter. */
  lemma RetryIsRepeated(s: State, u: nat, text: string, attachments: seq<Attachment>, userId: string, replyId: string)
    requires s.running.None? && s.compacting.None? && Fresh(s.messages, userId, replyId)
    requires u < |s.messages| && s.messages[u].role.FromUser?
    requires forall i | u < i < |s.messages| :: s.messages[i].role.FromAssistant?
    ensures var next := Step(s, Event.Send(Retry, text, attachments, userId, replyId));
            Appends(s.messages[..u], userId, s.messages[u].text, s.messages[u].attachments, replyId, next.messages)
            && SendsAll(next, replyId) && next.compaction == s.compaction
  {
    assert NewestUser(s.messages) == u;
    SendAppends(s, Event.Send(Retry, text, attachments, userId, replyId));
  }

  /** Steering keeps every message, marks the reply it interrupts and takes its tool protocol away, and then sends
      like a new message. */
  lemma SteeringInterrupts(s: State, text: string, attachments: seq<Attachment>, userId: string, replyId: string)
    requires Inv(s) && s.running.Some? && Fresh(s.messages, userId, replyId)
    ensures var next := Step(s, Event.Send(Steer, text, attachments, userId, replyId));
            var last := |s.messages| - 1;
            var stopped := s.messages[..last] + [s.messages[last].(interrupted := true, protocol := None)];
            Appends(stopped, userId, text, attachments, replyId, next.messages) && SendsAll(next, replyId)
            && next.compaction == s.compaction
  {
    StoppedIs(s.messages, s.running.value.reply);
    SendAppends(s, Event.Send(Steer, text, attachments, userId, replyId));
  }

  lemma StoppedIs(messages: seq<Message>, reply: string)
    requires messages != [] && DistinctIds(messages) && messages[|messages| - 1].id == reply
    ensures var last := |messages| - 1;
            Interrupted(messages, reply) ==
            messages[..last] + [messages[last].(interrupted := true, protocol := None)]
  {
    InterruptedKeepsOthers(messages, reply, |messages| - 1);
  }

  lemma SendAppends(s: State, e: Event)
    requires e.Send? && Accepts(s, e)
    ensures var next, user := Step(s, e), UserMessage(s, e);
            Appends(Base(s, e), e.userId, user.text, user.attachments, e.replyId, next.messages)
            && SendsAll(next, e.replyId) && next.compaction == s.compaction
  {
    var base, next := Base(s, e), Step(s, e);
    assert next.messages[..|next.messages| - 1] == base + [UserMessage(s, e)];
  }

  /** A send that is not accepted changes nothing: a new message or a retry while a send runs or a summary is
      awaited, or steering while nothing runs. */
  lemma OtherSendsWait(s: State, e: Event)
    requires e.Send?
    requires if e.kind == Steer then s.running == None else s.running != None || s.compacting != None
    ensures Step(s, e) == s
  {
  }

  /** A patch rewrites the assistant message with its id, and no other. */
  lemma PatchRewritesOne(s: State, e: Event, i: nat)
    requires e.Patch? && i < |s.messages|
    ensures var next := Step(s, e);
            && |next.messages| == |s.messages| && next.compaction == s.compaction && next.running == s.running
            && var m := s.messages[i];
               next.messages[i] ==
               if m.id != e.id || m.role == FromUser then m
               else Message(m.id, FromAssistant, e.text, m.attachments, m.attachmentsMissing, e.interrupted, e.protocol)
  {
  }

  /** The end of a send, or an abort, leaves the messages and the compaction alone. */
  lemma EndingKeepsAll(s: State)
    ensures var done, stopped := Step(s, Finish), Step(s, Aborted);
            && done.messages == stopped.messages == s.messages && done.compaction == stopped.compaction == s.compaction
            && (s.running.Some? ==> done.running.None? && done.compacting.None?)
            && stopped.running == s.running && (s.compacting.Some? ==> stopped.compacting.None?)
  {
  }

  // ---------- What a stored message says ----------

  /** The part an attachment becomes: its image, or its text under its name. */
  ghost predicate Shows(part: Part, a: Attachment) {
    match a
    case Image(url) => part == ImagePart(url)
    case TextFile(quotedName, text) => part == TextPart((("Attached file " + quotedName) + ":\n") + text)
  }

  /** A user message is sent with its text, unless it is empty, and then a part for each attachment, in order; an
      empty one without attachments is not sent. */
  lemma UserMessageSays(m: Message)
    requires m.role == FromUser && m.protocol == None && !m.attachmentsMissing
    ensures ItemsOf(m).Ok? && var items := ItemsOf(m).value;
            if m.text == "" && m.attachments == [] then items == []
            else if m.attachments == [] then items == [User(Plain(m.text))]
            else
              && |items| == 1 && items[0].User? && items[0].content.Parts?
              && var parts, lead := items[0].content.parts, if m.text == "" then 0 else 1;
                 && |parts| == lead + |m.attachments|
                 && (m.text != "" ==> parts[0] == TextPart(m.text))
                 && forall k | 0 <= k < |m.attachments| :: Shows(parts[lead + k], m.attachments[k])
  {
  }

  /** A reply is sent as it is; an interrupted one without its white space at the end and with a note; an empty one,
      or an interrupted one that is all white space, is not sent. */
  lemma ReplySays(m: Message, pad: nat)
    requires m.role == FromAssistant && m.protocol == None
    requires pad <= |m.text| && (forall i | |m.text| - pad <= i < |m.text| :: IsSpace(m.text[i]))
    requires pad < |m.text| ==> !IsSpace(m.text[|m.text| - pad - 1])
    ensures var kept := m.text[..|m.text| - pad];
            if m.interrupted then
              ItemsOf(m) == Ok(if kept == "" then []
                               else [Assistant(Some((kept + "\n\n") + "[Interrupted by the user]"), [])])
            else if m.attachmentsMissing then ItemsOf(m) == MissingAttachments
            else ItemsOf(m) == Ok(if m.text == "" then [] else [Assistant(Some(m.text), [])])
  {
    if m.interrupted {
      TrimsEnd(m.text, pad);
      if pad == |m.text| {
        forall c <- m.text
          ensures IsSpace(c)
        {
        }
      } else {
        assert m.text[|m.text| - pad - 1] in m.text;
      }
    }
  }

  lemma {:induction false} TrimsEnd(s: string, pad: nat)
    requires pad <= |s| && (forall i | |s| - pad <= i < |s| :: IsSpace(s[i]))
    requires pad < |s| ==> !IsSpace(s[|s| - pad - 1])
    ensures TrimEnd(s) == s[..|s| - pad]
    decreases pad
  {
    if pad > 0 {
      TrimsEnd(s[..|s| - 1], pad - 1);
      assert s[..|s| - 1][..|s| - pad] == s[..|s| - pad];
    }
  }

  /** Recorded protocol is sent in place of the text; a message whose attachments are missing cannot be sent. */
  lemma OthersSay(m: Message)
    ensures m.attachmentsMissing && !(m.role == FromAssistant && m.interrupted && m.protocol == None) ==>
              ItemsOf(m) == MissingAttachments
    ensures m.protocol.Some? && !m.attachmentsMissing ==> ItemsOf(m) == Ok(m.protocol.value)
  {
  }

  /** Without a summary, or when its message is gone, nothing stands before the messages. */
  lemma NoSummaryNoPair(messages: seq<Message>, compaction: Option<Compaction>)
    requires !Knows(messages, compaction) || compaction.value.summary == ""
    requires Request(messages, compaction).Ok?
    ensures Request(messages, compaction) == Ok(PushAll([], Items(Visible(messages, compaction)).value))
  {
    if compaction.Some? {
      KnowsIsHas(messages, compaction.value.through);
    }
  }

  /** What is sent verbatim: all behind the folded message, or everything if there is none. */
  lemma VisibleExactly(messages: seq<Message>, compaction: Option<Compaction>, i: nat)
    requires i < |messages| && forall j | 0 <= j < |messages| && j != i :: messages[j].id != messages[i].id
    ensures !Knows(messages, compaction) ==> Visible(messages, compaction) == messages
    ensures compaction.Some? && compaction.value.through == messages[i].id ==>
              Visible(messages, compaction) == messages[i + 1..]
  {
    if compaction.Some? {
      KnowsIsHas(messages, compaction.value.through);
    }
  }
}
