/** Which prefix of a conversation to fold into a summary, and when. */
module CompactionPlan {
  import opened Options
  import opened ChatRequest
  import opened RequestLaws

  datatype Plan = Plan(covered: seq<Message>, through: Message)

  function Min(a: int, b: int): int {
    if a < b then a else b
  }

  /** The room a reply may take. */
  function Reserve(context: nat, maxTokens: Option<nat>): nat {
    Min(if maxTokens.Some? then maxTokens.value else 1024, context / 2)
  }

  /** Three quarters of the context, or what the reply leaves of it. */
  function PromptBudget(context: nat, maxTokens: Option<nat>): nat {
    Min(3 * context / 4, context - Reserve(context, maxTokens))
  }

  lemma BudgetLeavesTheReply(context: nat, maxTokens: Option<nat>)
    ensures PromptBudget(context, maxTokens) + Reserve(context, maxTokens) <= context
    ensures 4 * PromptBudget(context, maxTokens) <= 3 * context
    ensures 1 < context ==> 0 < PromptBudget(context, maxTokens)
  {
  }

  /** The budget is the floor of three quarters of the context or what the reply leaves, whichever is less; the
      reply is given its limit, or 1024 tokens, but never more than half the context. */
  lemma BudgetExactly(context: nat, maxTokens: Option<nat>)
    ensures var limit := match maxTokens case Some(n) => n case None => 1024;
            var reserve := if 2 * limit <= context then limit else context / 2;
            var most := if context as real * 0.75 < (context - reserve) as real then context as real * 0.75
                        else (context - reserve) as real;
            PromptBudget(context, maxTokens) == most.Floor
  {
    var q := 3 * context / 4;
    assert 4 * q <= 3 * context < 4 * q + 4;
    assert (4 * q) as real <= (3 * context) as real < (4 * q + 4) as real;
    assert context as real * 0.75 * 4.0 == (3 * context) as real;
    assert q as real <= context as real * 0.75 < q as real + 1.0;
    assert (context as real * 0.75).Floor == q;
  }

  /** The positions of the user messages, in order. */
  function Starts(messages: seq<Message>, from: nat): (starts: seq<nat>)
    ensures forall k | 0 <= k < |starts| :: from <= starts[k] < |messages|
    decreases |messages| - from
  {
    if from >= |messages| then []
    else (if messages[from].role.FromUser? then [from] else []) + Starts(messages, from + 1)
  }

  lemma {:induction false} StartsAreUsers(messages: seq<Message>, from: nat)
    ensures forall k | 0 <= k < |Starts(messages, from)| :: messages[Starts(messages, from)[k]].role.FromUser?
    ensures forall i | from <= i < |messages| && messages[i].role.FromUser? ::
              var starts := Starts(messages, from); starts != [] && i <= starts[|starts| - 1]
    decreases |messages| - from
  {
    if from < |messages| {
      StartsAreUsers(messages, from + 1);
    }
  }

  function Fits(kept: seq<Message>, extra: int, overhead: nat, budget: int): Result<bool> {
    var request := Request(kept, None);
    if request.Ok? then Ok(overhead + Tokens(request.value) + extra <= budget) else MissingAttachments
  }

  const DEFAULT_KEEP := 2
  const SUMMARY_ALLOWANCE := 40
  const SUMMARY_ROOM := 2048

  function SummaryExtra(compaction: Option<Compaction>): nat {
    if compaction.Some? then TextTokens(compaction.value.summary) + SUMMARY_ALLOWANCE else 0
  }

  function RoomForSummary(budget: int): int {
    Min(SUMMARY_ROOM, budget / 4)
  }

  /** Whether what is left from a position fits, with space for a summary of the rest. */
  function KeptFits(visible: seq<Message>, overhead: nat, budget: int): nat -> Result<bool> {
    (start: nat) =>
      if start <= |visible| then Fits(visible[start..], RoomForSummary(budget), overhead, budget) else Ok(false)
  }

  /** The search from `keep` turns down to one. */
  function Choose(visible: seq<Message>, starts: seq<nat>, keep: nat, force: bool, fits: nat -> Result<bool>)
    : Result<Option<Plan>>
    requires forall k | 0 <= k < |starts| :: starts[k] < |visible|
    decreases keep
  {
    if keep == 0 then Ok(None)
    else if keep > |starts| || starts[|starts| - keep] == 0 then
      Choose(visible, starts, keep - 1, force, fits)
    else
      var start := starts[|starts| - keep];
      var enough := if force || keep == 1 then Ok(true) else fits(start);
      if enough.MissingAttachments? then MissingAttachments
      else if enough.value then Ok(Some(Plan(visible[..start], visible[start - 1])))
      else Choose(visible, starts, keep - 1, force, fits)
  }

  function Planned(messages: seq<Message>, compaction: Option<Compaction>, budget: int, overhead: nat,
                   keepTurns: nat, force: bool): Result<Option<Plan>> {
    var visible := Visible(messages, compaction);
    var starts := Starts(visible, 0);
    var fits := if force then Ok(false) else Fits(visible, SummaryExtra(compaction), overhead, budget);
    if fits.MissingAttachments? then MissingAttachments
    else if fits.value then Ok(None)
    else Choose(visible, starts, keepTurns, force, KeptFits(visible, overhead, budget))
  }

  /** The loop of `planCompaction`. */
  method ChooseKept(visible: seq<Message>, starts: seq<nat>, keepTurns: nat, force: bool, fits: nat -> Result<bool>)
    returns (plan: Result<Option<Plan>>)
    requires forall k | 0 <= k < |starts| :: starts[k] < |visible|
    ensures plan == Choose(visible, starts, keepTurns, force, fits)
  {
    var keep: nat := keepTurns;
    while keep >= 1
      invariant Choose(visible, starts, keepTurns, force, fits) == Choose(visible, starts, keep, force, fits)
    {
      if keep <= |starts| && starts[|starts| - keep] != 0 {
        var start := starts[|starts| - keep];
        var enough := if force || keep == 1 then Ok(true) else fits(start);
        if enough.MissingAttachments? {
          return MissingAttachments;
        }
        if enough.value {
          return Ok(Some(Plan(visible[..start], visible[start - 1])));
        }
      }
      keep := keep - 1;
    }
    return Ok(None);
  }

  /** `planCompaction`. */
  method PlanCompaction(messages: seq<Message>, compaction: Option<Compaction>, budget: int, overhead: nat,
                        keepTurns: nat, force: bool) returns (plan: Result<Option<Plan>>)
    ensures plan == Planned(messages, compaction, budget, overhead, keepTurns, force)
  {
    var visible := Visible(messages, compaction);
    var starts := Starts(visible, 0);
    if !force {
      var fits := Fits(visible, SummaryExtra(compaction), overhead, budget);
      if fits.MissingAttachments? {
        return MissingAttachments;
      }
      if fits.value {
        return Ok(None);
      }
    }
    plan := ChooseKept(visible, starts, keepTurns, force, KeptFits(visible, overhead, budget));
  }

  // ---------- What a plan is ----------

  /** The cut of a plan: how many visible messages it covers. */
  ghost predicate CutsAt(visible: seq<Message>, plan: Plan, start: nat) {
    && 0 < start < |visible|
    && visible[start].role.FromUser?
    && plan == Plan(visible[..start], visible[start - 1])
  }

  /** A plan cuts before a user message and keeps between one and `keep` turns; an unforced one leaves
      room for the summary unless it keeps a single turn. */
  ghost predicate ChosenAt(visible: seq<Message>, plan: Plan, start: nat, keep: nat, force: bool,
                           fits: nat -> Result<bool>) {
    && CutsAt(visible, plan, start)
    && 1 <= TurnsFrom(visible, start) <= keep
    && (force || TurnsFrom(visible, start) == 1 || fits(start) == Ok(true))
  }

  /** How many user messages lie at or after a position. */
  function TurnsFrom(messages: seq<Message>, start: nat): nat
    decreases |messages| - start
  {
    if start >= |messages| then 0
    else (if messages[start].role.FromUser? then 1 else 0) + TurnsFrom(messages, start + 1)
  }

  lemma {:induction false} TurnsFromCounts(messages: seq<Message>, from: nat)
    ensures TurnsFrom(messages, from) == |Starts(messages, from)|
    decreases |messages| - from
  {
    if from < |messages| {
      TurnsFromCounts(messages, from + 1);
    }
  }

  lemma {:induction false} StartsFrom(messages: seq<Message>, from: nat, k: nat)
    requires k < |Starts(messages, from)|
    ensures TurnsFrom(messages, Starts(messages, from)[k]) == |Starts(messages, from)| - k
    decreases |messages| - from
  {
    if messages[from].role.FromUser? {
      if k == 0 {
        TurnsFromCounts(messages, from);
      } else {
        StartsFrom(messages, from + 1, k - 1);
      }
    } else {
      StartsFrom(messages, from + 1, k);
    }
  }

  lemma {:induction false} ChooseCuts(visible: seq<Message>, keep: nat, force: bool, fits: nat -> Result<bool>)
    returns (start: nat)
    requires var chosen := Choose(visible, Starts(visible, 0), keep, force, fits);
             chosen.Ok? && chosen.value.Some?
    ensures var chosen := Choose(visible, Starts(visible, 0), keep, force, fits);
            ChosenAt(visible, chosen.value.value, start, keep, force, fits)
    decreases keep
  {
    var starts := Starts(visible, 0);
    if ChoosesHere(starts, keep, force, fits) {
      start := starts[|starts| - keep];
      ChosenHere(visible, starts, keep, force, fits);
    } else {
      start := ChooseCuts(visible, keep - 1, force, fits);
    }
  }

  predicate ChoosesHere(starts: seq<nat>, keep: nat, force: bool, fits: nat -> Result<bool>) {
    && 1 <= keep <= |starts| && starts[|starts| - keep] != 0
    && (force || keep == 1 || fits(starts[|starts| - keep]) == Ok(true))
  }

  lemma {:induction false} ChosenHere(visible: seq<Message>, starts: seq<nat>, keep: nat, force: bool,
                                      fits: nat -> Result<bool>)
    requires starts == Starts(visible, 0) && ChoosesHere(starts, keep, force, fits)
    ensures starts[|starts| - keep] < |visible|
    ensures var start := starts[|starts| - keep];
            var plan := Plan(visible[..start], visible[start - 1]);
            Choose(visible, starts, keep, force, fits) == Ok(Some(plan))
            && ChosenAt(visible, plan, start, keep, force, fits)
  {
    ChoiceIsPlan(visible, starts, keep, force, fits);
    ChoiceKeepsTurns(visible, starts, keep);
  }

  lemma {:induction false} ChoiceIsPlan(visible: seq<Message>, starts: seq<nat>, keep: nat, force: bool,
                                        fits: nat -> Result<bool>)
    requires (forall k | 0 <= k < |starts| :: starts[k] < |visible|) && ChoosesHere(starts, keep, force, fits)
    ensures var start := starts[|starts| - keep];
            Choose(visible, starts, keep, force, fits) == Ok(Some(Plan(visible[..start], visible[start - 1])))
  {
  }

  lemma {:induction false} ChoiceKeepsTurns(visible: seq<Message>, starts: seq<nat>, keep: nat)
    requires starts == Starts(visible, 0) && 1 <= keep <= |starts|
    ensures starts[|starts| - keep] < |visible| && visible[starts[|starts| - keep]].role.FromUser?
    ensures TurnsFrom(visible, starts[|starts| - keep]) == keep
  {
    StartsAreUsers(visible, 0);
    StartsFrom(visible, 0, |starts| - keep);
  }

  /** Nothing is chosen only if no user message lies after the first position. */
  lemma {:induction false} NothingToChoose(visible: seq<Message>, keep: nat, force: bool, fits: nat -> Result<bool>)
    requires 1 <= keep && Choose(visible, Starts(visible, 0), keep, force, fits) == Ok(None)
    ensures forall i | 0 < i < |visible| :: visible[i].role.FromAssistant?
    decreases keep
  {
    if keep == 1 {
      StartsAreUsers(visible, 0);
    } else {
      NothingToChoose(visible, keep - 1, force, fits);
    }
  }

  lemma {:induction false} ForcedNeverThrows(visible: seq<Message>, keep: nat, fits: nat -> Result<bool>)
    ensures Choose(visible, Starts(visible, 0), keep, true, fits).Ok?
    decreases keep
  {
    if keep > 0 {
      ForcedNeverThrows(visible, keep - 1, fits);
    }
  }

  /** Every plan folds a nonempty prefix and keeps the newest turn, so the visible part shrinks. */
  lemma PlanShrinks(messages: seq<Message>, compaction: Option<Compaction>, budget: int, overhead: nat,
                    keepTurns: nat, force: bool) returns (start: nat)
    requires var plan := Planned(messages, compaction, budget, overhead, keepTurns, force);
             plan.Ok? && plan.value.Some?
    ensures var visible := Visible(messages, compaction);
            var plan := Planned(messages, compaction, budget, overhead, keepTurns, force).value.value;
            && CutsAt(visible, plan, start)
            && 1 <= TurnsFrom(visible, start) <= keepTurns
            && (force || TurnsFrom(visible, start) == 1
                || LeavesRoom(visible[start..], overhead, budget))
  {
    var visible, fits := Visible(messages, compaction), KeptFits(Visible(messages, compaction), overhead, budget);
    start := ChooseCuts(visible, keepTurns, force, fits);
    KeptFitsExactly(visible, overhead, budget, start);
  }

  lemma KeptFitsExactly(visible: seq<Message>, overhead: nat, budget: int, start: nat)
    requires start <= |visible|
    ensures KeptFits(visible, overhead, budget)(start) == Ok(true) <==> LeavesRoom(visible[start..], overhead, budget)
  {
  }

  /** As many turns are kept as may be and as leave room: keeping one that starts earlier, and is among those that
      may be kept, would leave none; a forced plan keeps all that may be kept. */
  lemma {:induction false} PlanKeepsMost(messages: seq<Message>, compaction: Option<Compaction>, budget: int,
                                         overhead: nat, keepTurns: nat, force: bool, start: nat, other: nat)
    requires var plan := Planned(messages, compaction, budget, overhead, keepTurns, force);
             plan.Ok? && plan.value.Some? && CutsAt(Visible(messages, compaction), plan.value.value, start)
    requires var visible := Visible(messages, compaction);
             IsTurnBefore(visible, other, start) && TurnsFrom(visible, other) <= keepTurns
    ensures !force && !LeavesRoom(Visible(messages, compaction)[other..], overhead, budget)
  {
    var visible, fits := Visible(messages, compaction), KeptFits(Visible(messages, compaction), overhead, budget);
    var cut := ChooseCuts(visible, keepTurns, force, fits);
    SameCut(visible, start, cut);
    ChooseKeepsMost(visible, keepTurns, force, fits, start, other);
    KeptFitsExactly(visible, overhead, budget, other);
  }

  /** A request of these messages leaves room for the overhead and for a summary of 2048 tokens, or of a quarter of
      the budget if that is less. */
  ghost predicate LeavesRoom(kept: seq<Message>, overhead: nat, budget: int) {
    && Request(kept, None).Ok?
    && overhead + Tokens(Request(kept, None).value) + (if 4 * 2048 <= budget then 2048 else budget / 4) <= budget
  }

  /** A turn after the first message that starts before another. */
  ghost predicate IsTurnBefore(visible: seq<Message>, other: nat, start: nat) {
    0 < other < start && other < |visible| && visible[other].role.FromUser?
  }

  /** Of the turns that may be kept, as many are kept as fit. */
  lemma {:induction false} ChooseKeepsMost(visible: seq<Message>, keep: nat, force: bool, fits: nat -> Result<bool>,
                                           start: nat, other: nat)
    requires var chosen := Choose(visible, Starts(visible, 0), keep, force, fits);
             chosen.Ok? && chosen.value.Some? && CutsAt(visible, chosen.value.value, start)
    requires IsTurnBefore(visible, other, start) && TurnsFrom(visible, other) <= keep
    ensures !force && fits(other) != Ok(true)
    decreases keep
  {
    var starts := Starts(visible, 0);
    FewerTurns(visible, other, start);
    if ChoosesHere(starts, keep, force, fits) {
      MostHere(visible, keep, force, fits, start);
      assert false;
    } else {
      ChosenLess(visible, starts, keep, force, fits);
      if TurnsFrom(visible, other) < keep {
        ChooseKeepsMost(visible, keep - 1, force, fits, start, other);
      } else {
        NotHere(visible, keep, force, fits, start, other);
      }
    }
  }

  lemma {:induction false} MostHere(visible: seq<Message>, keep: nat, force: bool, fits: nat -> Result<bool>,
                                    start: nat)
    requires ChoosesHere(Starts(visible, 0), keep, force, fits)
    requires var chosen := Choose(visible, Starts(visible, 0), keep, force, fits);
             chosen.Ok? && chosen.value.Some? && CutsAt(visible, chosen.value.value, start)
    ensures TurnsFrom(visible, start) == keep
  {
    var starts := Starts(visible, 0);
    ChosenHere(visible, starts, keep, force, fits);
    ChoiceKeepsTurns(visible, starts, keep);
    SameCut(visible, start, starts[|starts| - keep]);
  }

  lemma {:induction false} NotHere(visible: seq<Message>, keep: nat, force: bool, fits: nat -> Result<bool>,
                                   start: nat, other: nat)
    requires !ChoosesHere(Starts(visible, 0), keep, force, fits)
    requires IsTurnBefore(visible, other, start) && start < |visible| && visible[start].role.FromUser?
    requires TurnsFrom(visible, other) == keep
    ensures !force && fits(other) != Ok(true)
  {
    var k := UserIsStart(visible, 0, other);
    StartsFrom(visible, 0, k);
    FewerTurns(visible, other, start);
    var m := UserIsStart(visible, 0, start);
    StartsFrom(visible, 0, m);
  }

  lemma {:induction false} ChosenLess(visible: seq<Message>, starts: seq<nat>, keep: nat, force: bool,
                                      fits: nat -> Result<bool>)
    requires (forall k | 0 <= k < |starts| :: starts[k] < |visible|) && !ChoosesHere(starts, keep, force, fits)
    requires Choose(visible, starts, keep, force, fits).Ok? && Choose(visible, starts, keep, force, fits).value.Some?
    ensures 0 < keep && Choose(visible, starts, keep - 1, force, fits) == Choose(visible, starts, keep, force, fits)
  {
  }

  /** Two cuts of one plan are the same. */
  lemma SameCut(visible: seq<Message>, a: nat, b: nat)
    requires 0 < a < |visible| && 0 < b < |visible| && visible[..a] == visible[..b]
    ensures a == b
  {
    assert |visible[..a]| == a && |visible[..b]| == b;
  }

  lemma {:induction false} UserIsStart(messages: seq<Message>, from: nat, i: nat) returns (k: nat)
    requires from <= i < |messages| && messages[i].role.FromUser?
    ensures k < |Starts(messages, from)| && Starts(messages, from)[k] == i
    decreases |messages| - from
  {
    if from == i {
      k := 0;
    } else {
      k := UserIsStart(messages, from + 1, i);
      k := k + if messages[from].role.FromUser? then 1 else 0;
    }
  }

  lemma {:induction false} FewerTurns(messages: seq<Message>, a: nat, b: nat)
    requires a < b < |messages| && messages[a].role.FromUser?
    ensures TurnsFrom(messages, b) < TurnsFrom(messages, a)
    decreases b - a
  {
    TurnsFromLess(messages, a + 1, b);
  }

  lemma {:induction false} TurnsFromLess(messages: seq<Message>, a: nat, b: nat)
    requires a <= b <= |messages|
    ensures TurnsFrom(messages, b) <= TurnsFrom(messages, a)
    decreases b - a
  {
    if a < b {
      TurnsFromLess(messages, a + 1, b);
    }
  }

  /** A forced plan never throws, and there is none exactly when no visible user message lies after the
      first. */
  lemma ForcedPlanIsNone(messages: seq<Message>, compaction: Option<Compaction>, budget: int, overhead: nat,
                         keepTurns: nat)
    requires 1 <= keepTurns
    ensures var visible := Visible(messages, compaction);
            var plan := Planned(messages, compaction, budget, overhead, keepTurns, true);
            && plan.Ok?
            && (plan.value.None? <==> forall i | 0 < i < |visible| :: visible[i].role.FromAssistant?)
  {
    var visible := Visible(messages, compaction);
    ForcedNeverThrows(visible, keepTurns, KeptFits(visible, overhead, budget));
    var plan := Planned(messages, compaction, budget, overhead, keepTurns, true);
    if plan.value.Some? {
      var start := PlanShrinks(messages, compaction, budget, overhead, keepTurns, true);
    } else {
      NothingToChoose(visible, keepTurns, true, KeptFits(visible, overhead, budget));
    }
  }

  // ---------- Fit ----------

  lemma LeadIsAscii()
    ensures |SUMMARY_LEAD| == 36
    ensures forall i | 0 <= i < |SUMMARY_LEAD| :: IsAscii(SUMMARY_LEAD[i])
  {
  }

  lemma AckStartsAscii()
    ensures |"Understood. I will "| == 19
    ensures forall i | 0 <= i < 19 :: IsAscii("Understood. I will "[i])
  {
  }

  lemma AckEndsAscii()
    ensures |"continue from that summary."| == 27
    ensures forall i | 0 <= i < 27 :: IsAscii("continue from that summary."[i])
  {
  }

  lemma {:induction false} LeadTokens(summary: string)
    ensures AsciiCount(SUMMARY_LEAD + "\n\n" + summary) == 38 + AsciiCount(summary)
  {
    LeadIsAscii();
    AllAscii(SUMMARY_LEAD + "\n\n");
    AsciiCountConcat(SUMMARY_LEAD + "\n\n", summary);
  }

  lemma AckTokens()
    ensures TextTokens(SUMMARY_ACK) == 14
  {
    AckStartsAscii();
    AckEndsAscii();
    AllAscii(SUMMARY_ACK);
  }

  lemma LeadCarry(n: nat)
    ensures SevenHalvesUp(38 + n) == SevenHalvesUp(n) + (if n % 7 == 4 then 10 else 11)
  {
    var q, r := n / 7, n % 7;
    assert n == 7 * q + r;
    assert SevenHalvesUp(n) == 2 * q + (2 * r + 6) / 7;
    assert SevenHalvesUp(38 + n) == 2 * q + (2 * r + 82) / 7;
  }

  lemma {:induction false} PairCost(lead: string, ack: string, summary: string)
    requires AsciiCount(lead + summary) == 38 + AsciiCount(summary) && |lead| == 38
    requires TextTokens(ack) == 14
    ensures Tokens([User(Plain(lead + summary)), Assistant(Some(ack), [])])
         == TextTokens(summary) + SUMMARY_ALLOWANCE + (if AsciiCount(summary) % 7 == 4 then 0 else 1)
  {
    LeadCarry(AsciiCount(summary));
    assert TextTokens(lead + summary)
        == TextTokens(summary) + (if AsciiCount(summary) % 7 == 4 then 10 else 11);
    var first, second := User(Plain(lead + summary)), Assistant(Some(ack), []);
    assert [first, second] == [first] + [second];
    TokensConcat([first], [second]);
    assert Tokens([first]) == MessageTokens(first) && Tokens([second]) == MessageTokens(second);
  }

  /** What the summary pair really costs, against the allowance: one more token, unless the number of
      ASCII characters in the summary leaves four over seven. */
  lemma {:induction false} SummaryPairCost(summary: string)
    ensures Tokens([User(Plain(SUMMARY_LEAD + "\n\n" + summary)), Assistant(Some(SUMMARY_ACK), [])])
         == TextTokens(summary) + SUMMARY_ALLOWANCE + (if AsciiCount(summary) % 7 == 4 then 0 else 1)
  {
    LeadTokens(summary);
    AckTokens();
    PairCost(SUMMARY_LEAD + "\n\n", SUMMARY_ACK, summary);
  }

  /** The request after a summary is the pair and then the request without it. */
  lemma RequestWithSummary(messages: seq<Message>, compaction: Option<Compaction>)
    requires Request(messages, compaction).Ok?
    ensures var rest := Request(Visible(messages, compaction), None);
            && rest.Ok?
            && Request(messages, compaction).value == SummaryPair(messages, compaction) + rest.value
  {
    var pair, items := SummaryPair(messages, compaction), Items(Visible(messages, compaction)).value;
    PushAllAfterReply(pair, [], items);
    assert pair + [] == pair;
  }

  /** How far the real request exceeds what the `fits` test counted: one token at most. */
  function Excess(messages: seq<Message>, compaction: Option<Compaction>): int {
    if compaction.None? then 0
    else if SummaryPair(messages, compaction) == [] then 0 - SummaryExtra(compaction)
    else if AsciiCount(compaction.value.summary) % 7 == 4 then 0
    else 1
  }

  lemma FitTestExcess(messages: seq<Message>, compaction: Option<Compaction>)
    requires Request(messages, compaction).Ok?
    ensures Tokens(Request(messages, compaction).value)
         == Tokens(Request(Visible(messages, compaction), None).value)
            + SummaryExtra(compaction) + Excess(messages, compaction)
  {
    var pair := SummaryPair(messages, compaction);
    RequestWithSummary(messages, compaction);
    TokensConcat(pair, Request(Visible(messages, compaction), None).value);
    if pair != [] {
      SummaryPairCost(compaction.value.summary);
    }
  }

  /** The test of the whole request that comes before any choice. */
  function WholeFits(messages: seq<Message>, compaction: Option<Compaction>, budget: int, overhead: nat): Result<bool> {
    Fits(Visible(messages, compaction), SummaryExtra(compaction), overhead, budget)
  }

  /** The test passes exactly when the real request, summary included, and the overhead stay within the budget
      and the excess, at most one token. */
  lemma FittingRequestFits(messages: seq<Message>, compaction: Option<Compaction>, budget: int, overhead: nat)
    ensures WholeFits(messages, compaction, budget, overhead).Ok? <==> Request(messages, compaction).Ok?
    ensures Request(messages, compaction).Ok? ==>
              (WholeFits(messages, compaction, budget, overhead).value <==>
               overhead + Tokens(Request(messages, compaction).value) <= budget + Excess(messages, compaction))
    ensures Excess(messages, compaction) <= 1
  {
    if Request(messages, compaction).Ok? {
      FitTestExcess(messages, compaction);
    }
  }

  /** Nothing is planned exactly when the request can be made and it fits, to within the excess, or has no turn
      to fold. */
  lemma UnplannedRequestFits(messages: seq<Message>, compaction: Option<Compaction>, budget: int, overhead: nat,
                             keepTurns: nat)
    requires 1 <= keepTurns
    ensures Planned(messages, compaction, budget, overhead, keepTurns, false) == Ok(None) <==>
              && Request(messages, compaction).Ok?
              && (|| overhead + Tokens(Request(messages, compaction).value) <= budget + Excess(messages, compaction)
                  || forall i | 0 < i < |Visible(messages, compaction)| ::
                       Visible(messages, compaction)[i].role.FromAssistant?)
    ensures Excess(messages, compaction) <= 1
  {
    FittingRequestFits(messages, compaction, budget, overhead);
    var visible := Visible(messages, compaction);
    var fits := KeptFits(visible, overhead, budget);
    if Choose(visible, Starts(visible, 0), keepTurns, false, fits) == Ok(None) {
      NothingToChoose(visible, keepTurns, false, fits);
    } else if forall i | 0 < i < |visible| :: visible[i].role.FromAssistant? {
      NoTurnToChoose(visible, keepTurns, fits);
    }
  }

  lemma {:induction false} NoTurnToChoose(visible: seq<Message>, keep: nat, fits: nat -> Result<bool>)
    requires forall i | 0 < i < |visible| :: visible[i].role.FromAssistant?
    ensures Choose(visible, Starts(visible, 0), keep, false, fits) == Ok(None)
    decreases keep
  {
    StartsAreUsers(visible, 0);
    if keep > 0 {
      NoTurnToChoose(visible, keep - 1, fits);
    }
  }
}
