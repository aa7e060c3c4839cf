/** The life of one chat: sending, retrying, steering and compacting, in any order. */
module Conversation {
  import opened Options
  import opened ChatRequest
  import opened RequestLaws
  import opened CompactionPlan

  /** A send in progress: the messages it sends and its own copy of the compaction. */
  datatype Sending = Sending(history: seq<Message>, compaction: Option<Compaction>, reply: string)

  /** A plan that waits for its summary, with the messages and the compaction it was made from. */
  datatype Pending = Pending(history: seq<Message>, compaction: Option<Compaction>, plan: Plan)

  datatype State = State(messages: seq<Message>, compaction: Option<Compaction>, running: Option<Sending>,
                         compacting: Option<Pending>)

  const EMPTY := State([], None, None, None)

  datatype Kind = New | Retry | Steer

  /** A context size, the reply limit and the fixed overhead of one planning call. */
  datatype Limits = Limits(context: nat, maxTokens: Option<nat>, overhead: nat)

  /** A compaction is planned, then summarized or aborted; anything may happen in between. `summary` is what the
      summarizer answers; no answer or an empty one is a failure. */
  datatype Event =
    | Send(kind: Kind, text: string, attachments: seq<Attachment>, userId: string, replyId: string)
    | CompactHistory(limits: Limits, force: bool)
    | CompactNow(limits: Limits)
    | Summarized(summary: Option<string>)
    | Aborted
    | Patch(id: string, text: string, interrupted: bool, protocol: Option<seq<ChatMessage>>)
    | Finish

  // ---------- The transitions ----------

  /** The position of the newest user message, or -1. */
  function NewestUser(messages: seq<Message>): (u: int)
    ensures -1 <= u < |messages|
    ensures 0 <= u ==> messages[u].role.FromUser?
    ensures forall i | u < i < |messages| :: messages[i].role.FromAssistant?
  {
    if messages == [] then -1
    else if messages[|messages| - 1].role.FromUser? then |messages| - 1
    else NewestUser(messages[..|messages| - 1])
  }

  function Rewrite(m: Message, id: string, text: string, interrupted: bool, protocol: Option<seq<ChatMessage>>)
    : Message
  {
    if m.id == id && m.role.FromAssistant? then
      m.(text := text, interrupted := interrupted, protocol := protocol)
    else m
  }

  function Interrupt(m: Message, id: string): Message {
    if m.id == id then m.(interrupted := true, protocol := None) else m
  }

  function Interrupted(messages: seq<Message>, id: string): seq<Message> {
    seq(|messages|, i requires 0 <= i < |messages| => Interrupt(messages[i], id))
  }

  /** What a new user message follows, and the message itself. */
  function Base(s: State, e: Event): seq<Message>
    requires e.Send?
  {
    if e.kind.Retry? && NewestUser(s.messages) >= 0 then s.messages[..NewestUser(s.messages)]
    else if e.kind.Steer? && s.running.Some? then Interrupted(s.messages, s.running.value.reply)
    else s.messages
  }

  function UserMessage(s: State, e: Event): Message
    requires e.Send?
  {
    var u := NewestUser(s.messages);
    if e.kind.Retry? && u >= 0 then
      Message(e.userId, FromUser, s.messages[u].text, s.messages[u].attachments, false, false, None)
    else
      Message(e.userId, FromUser, e.text, e.attachments, false, false, None)
  }

  function ReplyMessage(e: Event): Message
    requires e.Send?
  {
    Message(e.replyId, FromAssistant, "", [], false, false, None)
  }

  predicate Fresh(messages: seq<Message>, userId: string, replyId: string) {
    userId != replyId && forall m <- messages :: m.id != userId && m.id != replyId
  }

  /** A send or a retry waits until nothing runs; steering needs a running send and aborts whatever it does.
      Ids are random UUIDs. */
  predicate Accepts(s: State, e: Event)
  {
    match e
    case Send(kind, text, attachments, userId, replyId) =>
      && (kind.Steer? <==> s.running.Some?)
      && (s.compacting.Some? ==> kind.Steer?)
      && Fresh(s.messages, userId, replyId)
    case CompactHistory(_, _) => s.running.Some? && s.compacting.None?
    case CompactNow(_) => s.running.None? && s.compacting.None?
    case Summarized(_) => s.compacting.Some?
    case Aborted => s.compacting.Some?
    case Patch(_, _, _, _) => true
    case Finish => s.running.Some?
  }

  function PlanFor(messages: seq<Message>, compaction: Option<Compaction>, limits: Limits, force: bool)
    : Result<Option<Plan>>
  {
    Planned(messages, compaction, PromptBudget(limits.context, limits.maxTokens), limits.overhead,
            DEFAULT_KEEP, force)
  }

  /** `compact`: a failed summary keeps the previous one, and the covered messages only leave the context. */
  function Compacted(messages: seq<Message>, compaction: Option<Compaction>, plan: Plan, summary: Option<string>)
    : Compaction
  {
    var previous := if compaction.Some? && Has(messages, compaction.value.through) then compaction else None;
    var worked := summary.Some? && summary.value != "";
    Compaction(plan.through.id,
               if worked then summary.value else if previous.Some? then previous.value.summary else "",
               !worked,
               (if previous.Some? then previous.value.count else 0) + |plan.covered|)
  }

  /** What waits for a summary after a planning call; an error or no plan leaves nothing waiting. */
  function Await(history: seq<Message>, compaction: Option<Compaction>, plan: Result<Option<Plan>>): Option<Pending> {
    if plan.MissingAttachments? || plan.value.None? then None else Some(Pending(history, compaction, plan.value.value))
  }

  function SendStep(s: State, e: Event): State
    requires e.Send?
  {
    var user := UserMessage(s, e);
    var base := Base(s, e);
    State(base + [user, ReplyMessage(e)], s.compaction, Some(Sending(base + [user], s.compaction, e.replyId)), None)
  }

  /** The stored compaction and a running send's own copy move together. */
  function Committed(s: State, next: Compaction): State {
    State(s.messages, Some(next),
          if s.running.Some? then Some(s.running.value.(compaction := Some(next))) else None, None)
  }

  function SummarizedStep(s: State, summary: Option<string>): State
    requires s.compacting.Some?
  {
    var p := s.compacting.value;
    Committed(s, Compacted(p.history, p.compaction, p.plan, summary))
  }

  function PatchStep(s: State, e: Event): State
    requires e.Patch?
  {
    s.(messages := seq(|s.messages|, i requires 0 <= i < |s.messages| =>
                         Rewrite(s.messages[i], e.id, e.text, e.interrupted, e.protocol)))
  }

  function Step(s: State, e: Event): State {
    if !Accepts(s, e) then s else
    match e
    case Send(_, _, _, _, _) => SendStep(s, e)
    case CompactHistory(limits, force) =>
      var (history, compaction) := (s.running.value.history, s.running.value.compaction);
      s.(compacting := Await(history, compaction, PlanFor(history, compaction, limits, force)))
    case CompactNow(limits) =>
      s.(compacting := Await(s.messages, s.compaction, PlanFor(s.messages, s.compaction, limits, true)))
    case Summarized(summary) => SummarizedStep(s, summary)
    case Aborted => s.(compacting := None)
    case Patch(_, _, _, _) => PatchStep(s, e)
    case Finish => s.(running := None, compacting := None)
  }

  function After(s: State, events: seq<Event>): State
    decreases |events|
  {
    if events == [] then s else After(Step(s, events[0]), events[1..])
  }

  // ---------- The invariant ----------

  ghost predicate DistinctIds(messages: seq<Message>) {
    forall i, j | 0 <= i < j < |messages| :: messages[i].id != messages[j].id
  }

  /** User and assistant take turns, the user first and the assistant last. */
  ghost predicate TakesTurns(messages: seq<Message>) {
    && |messages| % 2 == 0
    && forall i | 0 <= i < |messages| :: messages[i].role == (if i % 2 == 0 then FromUser else FromAssistant)
  }

  /** The folded prefix ends right before a user message, and `count` is its length. */
  ghost predicate Folded(messages: seq<Message>, compaction: Option<Compaction>) {
    compaction.Some? ==>
      var i := IndexOf(messages, compaction.value.through);
      && i + 1 < |messages|
      && messages[i + 1].role.FromUser?
      && compaction.value.count == i + 1
  }

  ghost predicate SameShape(a: seq<Message>, b: seq<Message>) {
    && |a| == |b|
    && forall i | 0 <= i < |a| :: a[i].id == b[i].id && a[i].role == b[i].role
  }

  /** A running send has all messages but its reply, which is the last, as they were when it began. */
  ghost predicate RunningMatches(s: State) {
    s.running.Some? ==>
      && s.messages != []
      && SameShape(s.running.value.history, s.messages[..|s.messages| - 1])
      && s.running.value.history != []
      && s.messages[|s.messages| - 1].role.FromAssistant?
      && s.messages[|s.messages| - 1].id == s.running.value.reply
      && s.running.value.compaction == s.compaction
      && Folded(s.running.value.history, s.compaction)
  }

  /** A plan that waits was made from the messages as they still are, and still cuts them. */
  ghost predicate PendingMatches(s: State) {
    s.compacting.Some? ==>
      var p := s.compacting.value;
      && p.compaction == s.compaction
      && IsCut(p)
      && (if s.running.Some? then p.history == s.running.value.history else SameShape(p.history, s.messages))
  }

  ghost predicate IsCut(p: Pending) {
    exists start :: CutsAt(Visible(p.history, p.compaction), p.plan, start)
  }

  ghost predicate Inv(s: State) {
    && DistinctIds(s.messages)
    && TakesTurns(s.messages)
    && Folded(s.messages, s.compaction)
    && RunningMatches(s)
    && PendingMatches(s)
  }

  lemma FoldedKeepsShape(a: seq<Message>, b: seq<Message>, compaction: Option<Compaction>)
    requires SameShape(a, b) && Folded(a, compaction)
    ensures Folded(b, compaction)
  {
    if compaction.Some? {
      assert IndexOf(a, compaction.value.through) == IndexOf(b, compaction.value.through);
    }
  }

  /** The compaction survives any change after the message that follows the folded prefix, and the
      replacement of that message by another user message. */
  lemma {:induction false} FoldedAfterCut(messages: seq<Message>, compaction: Option<Compaction>, cut: nat,
                                          more: seq<Message>)
    requires Folded(messages, compaction)
    requires cut <= |messages|
    requires compaction.Some? ==> IndexOf(messages, compaction.value.through) < cut
    requires more != [] && more[0].role.FromUser?
    ensures Folded(messages[..cut] + more, compaction)
  {
    if compaction.Some? {
      var i := IndexOf(messages, compaction.value.through);
      var next := messages[..cut] + more;
      assert next[i].id == compaction.value.through;
      assert IndexOf(next, compaction.value.through) == i;
    }
  }

  /** What a send follows ends with a complete turn, and is what was there, but for the interrupted reply. */
  lemma BaseIsThere(s: State, e: Event)
    requires TakesTurns(s.messages) && e.Send?
    ensures var base := Base(s, e);
            && |base| <= |s.messages| && |base| % 2 == 0
            && SameShape(base, s.messages[..|base|])
            && (!e.kind.Steer? ==> base <= s.messages)
  {
    assert s.messages[..|s.messages|] == s.messages;
  }

  lemma TurnAddedKeepsTurns(messages: seq<Message>, base: seq<Message>, user: Message, reply: Message)
    requires TakesTurns(messages) && DistinctIds(messages) && Fresh(messages, user.id, reply.id)
    requires |base| <= |messages| && |base| % 2 == 0 && SameShape(base, messages[..|base|])
    requires user.role.FromUser? && reply.role.FromAssistant?
    ensures TakesTurns(base + [user, reply]) && DistinctIds(base + [user, reply])
  {
    var next := base + [user, reply];
    forall i | 0 <= i < |base|
      ensures next[i].id == messages[i].id && next[i].role == messages[i].role && messages[i] in messages
    {
      assert messages[..|base|][i] == messages[i];
    }
  }

  lemma BaseKeepsTurns(s: State, e: Event)
    requires DistinctIds(s.messages) && TakesTurns(s.messages) && e.Send?
    requires Fresh(s.messages, e.userId, e.replyId)
    ensures var base := Base(s, e);
            && |base| <= |s.messages| && |base| % 2 == 0
            && SameShape(base, s.messages[..|base|])
            && (!e.kind.Steer? ==> base <= s.messages)
            && TakesTurns(base + [UserMessage(s, e), ReplyMessage(e)])
            && DistinctIds(base + [UserMessage(s, e), ReplyMessage(e)])
  {
    BaseIsThere(s, e);
    TurnAddedKeepsTurns(s.messages, Base(s, e), UserMessage(s, e), ReplyMessage(e));
  }

  /** The folded prefix ends before the newest user message, so no send cuts into it. */
  lemma FoldedBeforeBase(s: State, e: Event)
    requires Folded(s.messages, s.compaction) && s.compaction.Some? && e.Send?
    ensures s.compaction.value.count <= |Base(s, e)|
  {
    var count := s.compaction.value.count;
    assert s.messages[count].role.FromUser?;
    assert count <= NewestUser(s.messages);
  }

  lemma ShapeConcat(a: seq<Message>, b: seq<Message>, more: seq<Message>)
    requires SameShape(a, b)
    ensures SameShape(a + more, b + more)
  {
  }

  lemma FoldedOnBase(messages: seq<Message>, base: seq<Message>, compaction: Option<Compaction>, more: seq<Message>)
    requires Folded(messages, compaction) && |base| <= |messages| && SameShape(base, messages[..|base|])
    requires compaction.Some? ==> compaction.value.count <= |base|
    requires more != [] && more[0].role.FromUser?
    ensures Folded(base + more, compaction)
  {
    FoldedAfterCut(messages, compaction, |base|, more);
    ShapeConcat(messages[..|base|], base, more);
    FoldedKeepsShape(messages[..|base|] + more, base + more, compaction);
  }

  lemma SendKeepsFolded(s: State, e: Event, more: seq<Message>)
    requires DistinctIds(s.messages) && TakesTurns(s.messages) && Folded(s.messages, s.compaction)
    requires e.Send? && Fresh(s.messages, e.userId, e.replyId)
    requires more != [] && more[0].role.FromUser?
    ensures Folded(Base(s, e) + more, s.compaction)
  {
    BaseIsThere(s, e);
    if s.compaction.Some? {
      FoldedBeforeBase(s, e);
    }
    FoldedOnBase(s.messages, Base(s, e), s.compaction, more);
  }

  lemma SendKeepsInvariant(s: State, e: Event)
    requires Inv(s) && e.Send? && Fresh(s.messages, e.userId, e.replyId)
    ensures Inv(SendStep(s, e))
  {
    var base, user, reply := Base(s, e), UserMessage(s, e), ReplyMessage(e);
    BaseKeepsTurns(s, e);
    SendKeepsFolded(s, e, [user, reply]);
    SendKeepsFolded(s, e, [user]);
    assert (base + [user, reply])[..|base| + 1] == base + [user];
  }

  // ---------- Folding more ----------

  lemma VisibleAfterFolded(messages: seq<Message>, compaction: Option<Compaction>)
    requires Folded(messages, compaction)
    ensures Visible(messages, compaction) == messages[FoldedCount(compaction)..]
  {
  }

  function FoldedCount(compaction: Option<Compaction>): nat {
    if compaction.Some? then compaction.value.count else 0
  }

  lemma FoldedAt(messages: seq<Message>, count: nat, compaction: Compaction)
    requires DistinctIds(messages) && 0 < count < |messages| && messages[count].role.FromUser?
    requires compaction.through == messages[count - 1].id && compaction.count == count
    ensures Folded(messages, Some(compaction))
  {
    assert IndexOf(messages, compaction.through) == count - 1;
  }

  /** What a plan does to the visible part. */
  lemma CommitFolds(messages: seq<Message>, compaction: Option<Compaction>, plan: Plan, start: nat,
                    summary: Option<string>)
    requires DistinctIds(messages) && Folded(messages, compaction)
    requires CutsAt(Visible(messages, compaction), plan, start)
    ensures var next := Compacted(messages, compaction, plan, summary);
            && Folded(messages, Some(next))
            && next.count == FoldedCount(compaction) + start
  {
    VisibleAfterFolded(messages, compaction);
    var next := Compacted(messages, compaction, plan, summary);
    FoldedAt(messages, FoldedCount(compaction) + start, next);
  }

  lemma AwaitedIsCut(messages: seq<Message>, compaction: Option<Compaction>, limits: Limits, force: bool)
    ensures var waiting := Await(messages, compaction, PlanFor(messages, compaction, limits, force));
            waiting.Some? ==> IsCut(waiting.value)
  {
    var plan := PlanFor(messages, compaction, limits, force);
    if plan.Ok? && plan.value.Some? {
      var start := PlanShrinks(messages, compaction, PromptBudget(limits.context, limits.maxTokens),
                               limits.overhead, DEFAULT_KEEP, force);
      assert CutsAt(Visible(messages, compaction), plan.value.value, start);
    }
  }

  lemma FoldedExtends(messages: seq<Message>, cut: nat, compaction: Option<Compaction>)
    requires cut <= |messages| && Folded(messages[..cut], compaction)
    ensures Folded(messages, compaction)
  {
    if compaction.Some? {
      var i := IndexOf(messages[..cut], compaction.value.through);
      assert messages[i].id == compaction.value.through;
      assert IndexOf(messages, compaction.value.through) == i;
    }
  }

  lemma DistinctShape(a: seq<Message>, b: seq<Message>)
    requires SameShape(a, b) && DistinctIds(b)
    ensures DistinctIds(a)
  {
    forall i, j | 0 <= i < j < |a|
      ensures a[i].id != a[j].id
    {
      assert a[i].id == b[i].id && a[j].id == b[j].id;
    }
  }

  /** The messages a plan was made from fold to what the plan says. */
  lemma PendingFolds(s: State, summary: Option<string>)
    requires Inv(s) && s.compacting.Some?
    ensures var p := s.compacting.value;
            var next := Compacted(p.history, p.compaction, p.plan, summary);
            && Folded(p.history, Some(next)) && Folded(s.messages, Some(next))
            && FoldedCount(s.compaction) < next.count
  {
    var p := s.compacting.value;
    var next := Compacted(p.history, p.compaction, p.plan, summary);
    var start :| CutsAt(Visible(p.history, p.compaction), p.plan, start);
    var cut := |s.messages| - if s.running.Some? then 1 else 0;
    assert s.messages[..|s.messages|] == s.messages;
    assert SameShape(p.history, s.messages[..cut]);
    DistinctShape(p.history, s.messages[..cut]);
    if s.running.None? {
      ShapeBack(p.history, s.messages);
      FoldedKeepsShape(s.messages, p.history, s.compaction);
    }
    CommitFolds(p.history, p.compaction, p.plan, start, summary);
    FoldedKeepsShape(p.history, s.messages[..cut], Some(next));
    FoldedExtends(s.messages, cut, Some(next));
  }

  lemma ShapeBack(a: seq<Message>, b: seq<Message>)
    requires SameShape(a, b)
    ensures SameShape(b, a)
  {
  }

  lemma SummarizedKeepsInvariant(s: State, summary: Option<string>)
    requires Inv(s) && s.compacting.Some?
    ensures Inv(SummarizedStep(s, summary))
  {
    var p := s.compacting.value;
    PendingFolds(s, summary);
    CommittedKeepsInvariant(s, Compacted(p.history, p.compaction, p.plan, summary));
  }

  lemma StepCommits(s: State, summary: Option<string>, next: Compaction)
    requires Inv(s) && s.compacting.Some?
    requires var p := s.compacting.value; next == Compacted(p.history, p.compaction, p.plan, summary)
    ensures Step(s, Event.Summarized(summary)) == Committed(s, next) && Inv(Committed(s, next))
  {
    SummarizedKeepsInvariant(s, summary);
  }

  lemma CommittedKeepsInvariant(s: State, next: Compaction)
    requires Inv(s) && Folded(s.messages, Some(next))
    requires s.running.Some? ==> Folded(s.running.value.history, Some(next))
    ensures Inv(Committed(s, next))
  {
  }

  lemma PatchKeepsInvariant(s: State, e: Event)
    requires Inv(s) && e.Patch?
    ensures Inv(PatchStep(s, e))
  {
    var next := PatchStep(s, e);
    assert SameShape(next.messages, s.messages);
    DistinctShape(next.messages, s.messages);
    FoldedKeepsShape(s.messages, next.messages, s.compaction);
  }

  lemma StepKeepsInvariant(s: State, e: Event)
    requires Inv(s)
    ensures Inv(Step(s, e))
  {
    if Accepts(s, e) {
      match e
      case Send(_, _, _, _, _) => SendKeepsInvariant(s, e);
      case CompactHistory(limits, force) =>
        AwaitedIsCut(s.running.value.history, s.running.value.compaction, limits, force);
        WaitingKeepsInvariant(s, Step(s, e).compacting);
      case CompactNow(limits) =>
        AwaitedIsCut(s.messages, s.compaction, limits, true);
        WaitingKeepsInvariant(s, Step(s, e).compacting);
      case Summarized(summary) => SummarizedKeepsInvariant(s, summary);
      case Aborted => WaitingKeepsInvariant(s, None);
      case Patch(_, _, _, _) => PatchKeepsInvariant(s, e);
      case Finish =>
    }
  }

  lemma WaitingKeepsInvariant(s: State, waiting: Option<Pending>)
    requires Inv(s)
    requires waiting.Some? ==>
               && waiting.value.compaction == s.compaction && IsCut(waiting.value)
               && waiting.value.history == if s.running.Some? then s.running.value.history else s.messages
    ensures Inv(s.(compacting := waiting))
  {
  }

  /** In every run: a present `through` is in the messages and followed at once by a user message, and
      `count` is the length of the prefix it ends. */
  lemma {:induction false} RunKeepsInvariant(s: State, events: seq<Event>)
    requires Inv(s)
    ensures Inv(After(s, events))
    decreases |events|
  {
    if events != [] {
      StepKeepsInvariant(s, events[0]);
      RunKeepsInvariant(Step(s, events[0]), events[1..]);
    }
  }

  /** Sending, retrying and steering never lose the folded prefix or what stands for it. */
  lemma SendKeepsFoldedPrefix(s: State, e: Event)
    requires Inv(s) && e.Send? && Accepts(s, e) && s.compaction.Some?
    ensures var next := Step(s, e);
            var count := s.compaction.value.count;
            && next.compaction == s.compaction
            && count <= |s.messages| && count < |next.messages|
            && next.messages[..count] == s.messages[..count]
  {
    var count := s.compaction.value.count;
    FoldedBeforeBase(s, e);
    BaseKeepsPrefix(s, e, count);
    PrefixStays(s.messages, Base(s, e), [UserMessage(s, e), ReplyMessage(e)], count);
  }

  /** What a send follows begins as before: only the reply that it interrupts, the last message, may differ. */
  lemma BaseKeepsPrefix(s: State, e: Event, count: nat)
    requires DistinctIds(s.messages) && RunningMatches(s) && e.Send?
    requires count < |s.messages| && count <= |Base(s, e)|
    ensures Base(s, e)[..count] == s.messages[..count]
  {
    if s.running.Some? {
      InterruptedKeepsOthers(s.messages, s.running.value.reply, count);
    }
  }

  /** Interrupting the reply that comes last leaves everything before it alone. */
  lemma InterruptedKeepsOthers(messages: seq<Message>, reply: string, count: nat)
    requires count < |messages| && DistinctIds(messages) && messages[|messages| - 1].id == reply
    ensures Interrupted(messages, reply)[..count] == messages[..count]
  {
  }

  lemma PrefixStays(messages: seq<Message>, base: seq<Message>, more: seq<Message>, count: nat)
    requires count <= |base| && count <= |messages| && base[..count] == messages[..count]
    ensures (base + more)[..count] == messages[..count]
  {
  }

  /** A compaction that happens makes what is sent verbatim strictly shorter; what is left still starts
      with a user message, and the summary counts everything before it. */
  lemma CompactingShrinks(s: State, e: Event)
    requires Inv(s) && e.Summarized? && Accepts(s, e)
    ensures var next := Step(s, e);
            && next.messages == s.messages
            && next.compaction.Some?
            && FoldedCount(s.compaction) < next.compaction.value.count
            && next.compaction.value.count < |s.messages|
            && s.messages[next.compaction.value.count].role.FromUser?
            && Visible(s.messages, next.compaction) == s.messages[next.compaction.value.count..]
  {
    PendingFolds(s, e.summary);
    VisibleAfterFolded(s.messages, Step(s, e).compaction);
  }

  /** Until its summary arrives, a planned compaction changes nothing that is sent or stored, and aborting it
      leaves everything as it was before it was planned. */
  lemma PlanningChangesNothing(s: State, e: Event)
    requires (e.CompactHistory? || e.CompactNow?) && Accepts(s, e)
    ensures Step(s, e).(compacting := None) == s
    ensures Accepts(Step(s, e), Aborted) ==> Step(Step(s, e), Aborted) == s
  {
  }

  /** What a running send sends verbatim is a dialogue that starts with the user, as long as it is simple. */
  lemma RunningIsDialogue(s: State)
    requires Inv(s) && s.running.Some?
    ensures var visible := Visible(s.running.value.history, s.running.value.compaction);
            visible != [] && ((forall m <- visible :: Simple(m)) ==> SimpleDialogue(visible))
  {
    var history := s.running.value.history;
    VisibleAfterFolded(history, s.compaction);
    if forall m <- history[FoldedCount(s.compaction)..] :: Simple(m) {
      TailIsDialogue(history, FoldedCount(s.compaction));
    }
  }

  lemma TailIsDialogue(history: seq<Message>, offset: nat)
    requires offset <= |history| && forall m <- history[offset..] :: Simple(m)
    requires forall i | 0 <= i < |history| :: history[i].role.FromUser? <==> i % 2 == 0
    requires offset < |history| && offset % 2 == 0
    ensures SimpleDialogue(history[offset..])
  {
    var visible := history[offset..];
    forall i | 0 <= i < |visible| - 1
      ensures visible[i].role.FromAssistant? ==> visible[i + 1].role.FromUser?
    {
      assert visible[i] == history[offset + i] && visible[i + 1] == history[offset + i + 1];
    }
  }

  /** Every request of every run strictly alternates and starts with the user, as long as the messages it sends
      verbatim are simple; what has been folded may be anything. */
  lemma {:induction false} EveryRequestAlternates(events: seq<Event>)
    requires var s := After(EMPTY, events);
             s.running.Some?
             && forall m <- Visible(s.running.value.history, s.running.value.compaction) :: Simple(m)
    ensures var sending := After(EMPTY, events).running.value;
            var request := Request(sending.history, sending.compaction);
            request.Ok? && request.value != [] && Alternates(request.value)
  {
    RunKeepsInvariant(EMPTY, events);
    var s := After(EMPTY, events);
    RunningIsDialogue(s);
    RequestAlternates(s.running.value.history, s.running.value.compaction);
  }

  // ---------- The same transitions as code ----------

  class Studio {
    var messages: seq<Message>
    var compaction: Option<Compaction>
    var running: Option<Sending>
    var compacting: Option<Pending>

    ghost function Now(): State
      reads this
    {
      State(messages, compaction, running, compacting)
    }

    ghost predicate Valid()
      reads this
    {
      Inv(Now())
    }

    constructor ()
      ensures Valid() && Now() == EMPTY
    {
      messages, compaction, running, compacting := [], None, None, None;
    }

    method PreviousUser() returns (last: int)
      ensures last == NewestUser(messages)
    {
      last := -1;
      for index := 0 to |messages|
        invariant last == NewestUser(messages[..index])
      {
        assert messages[..index + 1][..index] == messages[..index];
        if messages[index].role.FromUser? {
          last := index;
        }
      }
      assert messages[..|messages|] == messages;
    }

    /** The part of `send` before the request goes out. */
    method Send(kind: Kind, text: string, attachments: seq<Attachment>, userId: string, replyId: string)
      requires Valid() && Fresh(messages, userId, replyId)
      modifies this
      ensures Valid()
      ensures Now() == Step(old(Now()), Event.Send(kind, text, attachments, userId, replyId))
    {
      ghost var before, e := Now(), Event.Send(kind, text, attachments, userId, replyId);
      if kind.Steer? != running.Some? || (compacting.Some? && !kind.Steer?) {
        return;
      }
      SendKeepsInvariant(before, e);
      var previousUser := PreviousUser();
      var retried := kind.Retry? && previousUser >= 0;
      var user := Message(userId, FromUser, if retried then messages[previousUser].text else text,
                          if retried then messages[previousUser].attachments else attachments,
                          false, false, None);
      var base := if retried then messages[..previousUser]
                  else if running.Some? then Interrupted(messages, running.value.reply)
                  else messages;
      messages := base + [user, Message(replyId, FromAssistant, "", [], false, false, None)];
      running, compacting := Some(Sending(base + [user], compaction, replyId)), None;
    }

    /** `compactHistory`, inside a running send, up to its first await. */
    method CompactHistory(limits: Limits, force: bool) returns (planned: bool)
      requires Valid() && running.Some? && compacting.None?
      modifies this
      ensures Valid()
      ensures Now() == Step(old(Now()), Event.CompactHistory(limits, force))
      ensures planned == compacting.Some?
    {
      StepKeepsInvariant(Now(), Event.CompactHistory(limits, force));
      var sending := running.value;
      var plan := PlanCompaction(sending.history, sending.compaction,
                                 PromptBudget(limits.context, limits.maxTokens), limits.overhead,
                                 DEFAULT_KEEP, force);
      if plan.MissingAttachments? || plan.value.None? {
        return false;
      }
      compacting := Some(Pending(sending.history, sending.compaction, plan.value.value));
      return true;
    }

    /** `compactNow`, while nothing else runs, up to its first await. */
    method CompactNow(limits: Limits)
      requires Valid() && running.None? && compacting.None?
      modifies this
      ensures Valid()
      ensures Now() == Step(old(Now()), Event.CompactNow(limits))
    {
      StepKeepsInvariant(Now(), Event.CompactNow(limits));
      var plan := PlanCompaction(messages, compaction, PromptBudget(limits.context, limits.maxTokens),
                                 limits.overhead, DEFAULT_KEEP, true);
      if plan.MissingAttachments? || plan.value.None? {
        return;
      }
      compacting := Some(Pending(messages, compaction, plan.value.value));
    }

    /** The rest of both, when the summary, or its failure, arrives. */
    method CommitPlan(summary: Option<string>)
      requires Valid() && compacting.Some?
      modifies this
      ensures Valid()
      ensures Now() == Step(old(Now()), Event.Summarized(summary))
      ensures compaction.Some? && (running.Some? ==> running.value.compaction == compaction)
    {
      ghost var before := Now();
      var p := compacting.value;
      var next := Compacted(p.history, p.compaction, p.plan, summary);
      StepCommits(before, summary, next);
      compaction := Some(next);
      running := if running.Some? then Some(running.value.(compaction := Some(next))) else None;
      compacting := None;
      assert Now() == Committed(before, next);
    }

    /** An abort while the summary is awaited commits nothing. */
    method AbortPlan()
      requires Valid() && compacting.Some?
      modifies this
      ensures Valid()
      ensures Now() == Step(old(Now()), Event.Aborted) && compaction == old(compaction)
    {
      StepKeepsInvariant(Now(), Event.Aborted);
      compacting := None;
    }
  }
}
