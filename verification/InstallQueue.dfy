/** Installs of one root run one after another: the table of promise tails, as steps that may interleave in
    any order the promises allow. */
module InstallQueue {
  import opened Options

  datatype Phase = Waiting | Running | Settled(ok: bool)

  /** What the caller of an install has been told. */
  datatype Answer = Pending | Returned(ok: bool) | Aborted

  /** One call of `serializeManagedInstall`: the tail it found, its operation, whether its own tail has
      settled, and whether its final clean-up ran. */
  datatype Call = Call(
    key: string, after: Option<nat>, phase: Phase, tailSettled: bool, cleaned: bool, answer: Answer)

  /** `tails` holds the number of the call whose tail is the latest for a key. */
  datatype State = State(tails: map<string, nat>, calls: seq<Call>)

  const EMPTY := State(map[], [])

  datatype Event =
    | Enter(key: string)
    | Start(i: nat)
    | Finish(i: nat, ok: bool)
    | SettleTail(i: nat)
    | CleanUp(i: nat)
    | Deliver(i: nat)
    | Abort(i: nat)

  predicate Enabled(s: State, e: Event) {
    match e
    case Enter(_) => true
    case Start(i) =>
      && i < |s.calls| && s.calls[i].phase.Waiting?
      && (s.calls[i].after.Some? ==>
            s.calls[i].after.value < |s.calls| && s.calls[s.calls[i].after.value].tailSettled)
    case Finish(i, _) => i < |s.calls| && s.calls[i].phase.Running?
    case SettleTail(i) => i < |s.calls| && s.calls[i].phase.Settled? && !s.calls[i].tailSettled
    case CleanUp(i) => i < |s.calls| && s.calls[i].phase.Settled? && !s.calls[i].cleaned
    case Deliver(i) =>
      i < |s.calls| && s.calls[i].phase.Settled? && s.calls[i].cleaned && s.calls[i].answer.Pending?
    case Abort(i) => i < |s.calls| && s.calls[i].answer.Pending?
  }

  function Step(s: State, e: Event): State {
    if !Enabled(s, e) then s else
    match e
    case Enter(key) =>
      var previous := if key in s.tails then Some(s.tails[key]) else None;
      State(s.tails[key := |s.calls|], s.calls + [Call(key, previous, Waiting, false, false, Pending)])
    case Start(i) => s.(calls := s.calls[i := s.calls[i].(phase := Running)])
    case Finish(i, ok) => s.(calls := s.calls[i := s.calls[i].(phase := Settled(ok))])
    case SettleTail(i) => s.(calls := s.calls[i := s.calls[i].(tailSettled := true)])
    case CleanUp(i) =>
      var key := s.calls[i].key;
      State(if key in s.tails && s.tails[key] == i then s.tails - {key} else s.tails,
            s.calls[i := s.calls[i].(cleaned := true)])
    case Deliver(i) => s.(calls := s.calls[i := s.calls[i].(answer := Returned(s.calls[i].phase.ok))])
    case Abort(i) => s.(calls := s.calls[i := s.calls[i].(answer := Aborted)])
  }

  function After(s: State, events: seq<Event>): State
    decreases |events|
  {
    if events == [] then s else After(Step(s, events[0]), events[1..])
  }

  // ---------- The invariant ----------

  /** A call waits for the latest earlier call of its key, or for none if all of those have settled. */
  ghost predicate Linked(s: State, i: nat)
    requires i < |s.calls|
  {
    var c := s.calls[i];
    match c.after
    case None => forall j | 0 <= j < i && s.calls[j].key == c.key :: s.calls[j].phase.Settled?
    case Some(p) =>
      && p < i && s.calls[p].key == c.key
      && forall j | p < j < i :: s.calls[j].key != c.key
  }

  ghost predicate InOrder(s: State, i: nat)
    requires i < |s.calls|
  {
    && (!s.calls[i].phase.Waiting? ==>
          forall j | 0 <= j < i && s.calls[j].key == s.calls[i].key :: s.calls[j].phase.Settled?)
    && (s.calls[i].tailSettled || s.calls[i].cleaned ==> s.calls[i].phase.Settled?)
    && (s.calls[i].answer.Returned? ==>
          s.calls[i].phase.Settled? && s.calls[i].answer.ok == s.calls[i].phase.ok)
  }

  ghost predicate TailsMatch(s: State) {
    && (forall k <- s.tails ::
          && s.tails[k] < |s.calls| && s.calls[s.tails[k]].key == k && !s.calls[s.tails[k]].cleaned
          && forall j | s.tails[k] < j < |s.calls| :: s.calls[j].key != k)
    && (forall i | 0 <= i < |s.calls| && s.calls[i].key !in s.tails :: s.calls[i].phase.Settled?)
  }

  ghost predicate Inv(s: State) {
    && (forall i | 0 <= i < |s.calls| :: Linked(s, i) && InOrder(s, i))
    && TailsMatch(s)
  }

  lemma EnterKeepsInv(s: State, e: Event)
    requires Inv(s) && e.Enter?
    ensures Inv(Step(s, e))
  {
    var next := Step(s, e);
    forall i | 0 <= i < |next.calls|
      ensures Linked(next, i) && InOrder(next, i)
    {
      if i < |s.calls| {
        assert next.calls[i] == s.calls[i] && Linked(s, i) && InOrder(s, i);
      }
    }
  }

  /** A step of one call that keeps its key, its link and its tail, and unsettles nothing. */
  lemma CallStepKeepsInv(s: State, i: nat, c: Call)
    requires Inv(s) && i < |s.calls|
    requires c.key == s.calls[i].key && c.after == s.calls[i].after && c.cleaned == s.calls[i].cleaned
    requires s.calls[i].phase.Settled? ==> c.phase == s.calls[i].phase
    requires InOrder(s.(calls := s.calls[i := c]), i)
    ensures Inv(s.(calls := s.calls[i := c]))
  {
    var next := s.(calls := s.calls[i := c]);
    forall j | 0 <= j < |next.calls|
      ensures Linked(next, j) && InOrder(next, j)
    {
      assert Linked(s, j) && InOrder(s, j);
    }
    TailsStay(s, i, c);
  }

  lemma TailsStay(s: State, i: nat, c: Call)
    requires TailsMatch(s) && i < |s.calls|
    requires c.key == s.calls[i].key && c.cleaned == s.calls[i].cleaned
    requires s.calls[i].phase.Settled? ==> c.phase == s.calls[i].phase
    ensures TailsMatch(s.(calls := s.calls[i := c]))
  {
  }

  lemma StartKeepsInv(s: State, i: nat)
    requires Inv(s) && Enabled(s, Start(i))
    ensures Inv(Step(s, Start(i)))
  {
    assert Linked(s, i);
    if s.calls[i].after.Some? {
      assert InOrder(s, s.calls[i].after.value);
    }
    CallStepKeepsInv(s, i, s.calls[i].(phase := Running));
  }

  lemma CleanUpKeepsInv(s: State, i: nat)
    requires Inv(s) && Enabled(s, CleanUp(i))
    ensures Inv(Step(s, CleanUp(i)))
  {
    var next := Step(s, CleanUp(i));
    forall j | 0 <= j < |next.calls|
      ensures Linked(next, j) && InOrder(next, j)
    {
      assert Linked(s, j) && InOrder(s, j);
    }
    CleanUpKeepsTails(s, i);
  }

  lemma CleanUpKeepsTails(s: State, i: nat)
    requires Inv(s) && Enabled(s, CleanUp(i))
    ensures TailsMatch(Step(s, CleanUp(i)))
  {
    var next := Step(s, CleanUp(i));
    forall k <- next.tails
      ensures next.tails[k] == s.tails[k] != i
    {
    }
    forall j | 0 <= j < |next.calls| && next.calls[j].key !in next.tails
      ensures next.calls[j].phase.Settled?
    {
      assert InOrder(s, i);
    }
  }

  lemma StepKeepsInv(s: State, e: Event)
    requires Inv(s)
    ensures Inv(Step(s, e))
  {
    if Enabled(s, e) {
      match e
      case Enter(_) => EnterKeepsInv(s, e);
      case Start(i) => StartKeepsInv(s, i);
      case Finish(i, ok) =>
        assert InOrder(s, i);
        CallStepKeepsInv(s, i, s.calls[i].(phase := Settled(ok)));
      case SettleTail(i) =>
        assert InOrder(s, i);
        CallStepKeepsInv(s, i, s.calls[i].(tailSettled := true));
      case CleanUp(i) => CleanUpKeepsInv(s, i);
      case Deliver(i) =>
        assert InOrder(s, i);
        CallStepKeepsInv(s, i, s.calls[i].(answer := Returned(s.calls[i].phase.ok)));
      case Abort(i) =>
        assert InOrder(s, i);
        CallStepKeepsInv(s, i, s.calls[i].(answer := Aborted));
    }
  }

  lemma {:induction false} RunKeepsInv(s: State, events: seq<Event>)
    requires Inv(s)
    ensures Inv(After(s, events))
    decreases |events|
  {
    if events != [] {
      StepKeepsInv(s, events[0]);
      RunKeepsInv(Step(s, events[0]), events[1..]);
    }
  }

  // ---------- Safety ----------

  /** In every run: an operation that has started finds every earlier call of its key settled, so at most
      one runs at a time and they start in call order; and a caller is only ever told its own result. */
  lemma {:induction false} OneAtATimeInCallOrder(events: seq<Event>, i: nat, j: nat)
    requires var s := After(EMPTY, events);
             i < j < |s.calls| && s.calls[i].key == s.calls[j].key
    ensures var s := After(EMPTY, events);
            && (!s.calls[j].phase.Waiting? ==> s.calls[i].phase.Settled?)
            && !(s.calls[i].phase.Running? && s.calls[j].phase.Running?)
            && (s.calls[i].answer.Returned? ==> s.calls[i].phase == Settled(s.calls[i].answer.ok))
  {
    RunKeepsInv(EMPTY, events);
    assert InOrder(After(EMPTY, events), j) && InOrder(After(EMPTY, events), i);
  }

  // ---------- Nobody is blocked ----------

  predicate Done(c: Call) {
    c.phase.Settled? && c.tailSettled && c.cleaned
  }

  /** The earliest call that is not done can always move, whatever the others returned. */
  lemma SomeoneCanMove(s: State, i: nat) returns (e: Event)
    requires Inv(s) && i < |s.calls| && !Done(s.calls[i])
    requires forall j | 0 <= j < i :: Done(s.calls[j])
    ensures Enabled(s, e) && e in {Start(i), Finish(i, true), SettleTail(i), CleanUp(i)}
  {
    assert Linked(s, i);
    match s.calls[i].phase
    case Waiting => e := Start(i);
    case Running => e := Finish(i, true);
    case Settled(_) => e := if !s.calls[i].tailSettled then SettleTail(i) else CleanUp(i);
  }

  /** The steps a call has left. */
  function Left(c: Call): nat {
    (match c.phase case Waiting => 2 case Running => 1 case Settled(_) => 0)
    + (if c.tailSettled then 0 else 1) + (if c.cleaned then 0 else 1)
    + (if c.answer.Pending? then 1 else 0)
  }

  function Work(calls: seq<Call>): nat {
    if calls == [] then 0 else Left(calls[0]) + Work(calls[1..])
  }

  lemma {:induction false} WorkOfUpdate(calls: seq<Call>, i: nat, c: Call)
    requires i < |calls|
    ensures Work(calls[i := c]) == Work(calls) - Left(calls[i]) + Left(c)
    decreases |calls|
  {
    if i > 0 {
      assert calls[i := c][1..] == calls[1..][i - 1 := c];
      WorkOfUpdate(calls[1..], i - 1, c);
    } else {
      assert calls[i := c][1..] == calls[1..];
    }
  }

  /** Every step other than a new call uses up work, so a run without new calls ends. */
  lemma StepUsesWork(s: State, e: Event)
    requires Inv(s) && Enabled(s, e) && !e.Enter?
    ensures Work(Step(s, e).calls) < Work(s.calls)
  {
    WorkOfUpdate(s.calls, e.i, Step(s, e).calls[e.i]);
    assert InOrder(s, e.i);
  }

  /** A state in which nothing is left to do. */
  ghost predicate Quiet(s: State) {
    forall e: Event | !e.Enter? :: !Enabled(s, e)
  }

  /** When nothing can move any more, every call has settled and been answered, and no tail is kept. */
  lemma QuietIsEmpty(s: State)
    requires Inv(s) && Quiet(s)
    ensures s.tails == map[]
    ensures forall i | 0 <= i < |s.calls| :: Done(s.calls[i]) && !s.calls[i].answer.Pending?
  {
    QuietIsDone(s, |s.calls|);
    forall i | 0 <= i < |s.calls|
      ensures !s.calls[i].answer.Pending?
    {
      assert !Enabled(s, Deliver(i));
    }
    assert forall k :: k !in s.tails;
  }

  lemma {:induction false} QuietIsDone(s: State, n: nat)
    requires Inv(s) && Quiet(s) && n <= |s.calls|
    ensures forall i | 0 <= i < n :: Done(s.calls[i])
    decreases n
  {
    if n > 0 {
      QuietIsDone(s, n - 1);
      if !Done(s.calls[n - 1]) {
        var e := SomeoneCanMove(s, n - 1);
        assert false;
      }
    }
  }

  /** From every state a run of at most the work left reaches a quiet state: nobody waits forever. */
  lemma {:induction false} CanFinish(s: State) returns (events: seq<Event>)
    requires Inv(s)
    ensures |events| <= Work(s.calls) && Inv(After(s, events)) && Quiet(After(s, events))
    ensures After(s, events).tails == map[]
    decreases Work(s.calls)
  {
    if e: Event :| !e.Enter? && Enabled(s, e) {
      StepKeepsInv(s, e);
      StepUsesWork(s, e);
      var rest := CanFinish(Step(s, e));
      events := [e] + rest;
      assert events[1..] == rest;
    } else {
      events := [];
      QuietIsEmpty(s);
    }
  }

  // ---------- Failures and aborts stay with their caller ----------

  function BlurCall(c: Call): Call {
    c.(phase := if c.phase.Settled? then Settled(true) else c.phase,
       answer := if c.answer.Returned? then Returned(true) else c.answer)
  }

  /** The same state with every result forgotten. */
  function Blur(s: State): State {
    s.(calls := seq(|s.calls|, i requires 0 <= i < |s.calls| => BlurCall(s.calls[i])))
  }

  function BlurEvent(e: Event): Event {
    if e.Finish? then Finish(e.i, true) else e
  }

  function BlurEvents(events: seq<Event>): seq<Event> {
    seq(|events|, i requires 0 <= i < |events| => BlurEvent(events[i]))
  }

  lemma BlurOfUpdate(calls: seq<Call>, i: nat, c: Call, tails: map<string, nat>)
    requires i < |calls|
    ensures Blur(State(tails, calls[i := c])).calls == Blur(State(tails, calls)).calls[i := BlurCall(c)]
  {
  }

  lemma BlurOfMore(calls: seq<Call>, c: Call, tails: map<string, nat>)
    ensures Blur(State(tails, calls + [c])).calls == Blur(State(tails, calls)).calls + [BlurCall(c)]
  {
  }

  lemma BlurredStep(s: State, e: Event)
    ensures Enabled(Blur(s), BlurEvent(e)) == Enabled(s, e)
    ensures Blur(Step(s, e)) == Step(Blur(s), BlurEvent(e))
  {
    if Enabled(s, e) {
      var next := Step(s, e);
      if e.Enter? {
        BlurOfMore(s.calls, next.calls[|s.calls|], next.tails);
      } else {
        BlurOfUpdate(s.calls, e.i, next.calls[e.i], next.tails);
      }
    }
  }

  /** A run whose operations fail goes exactly as the run in which they succeed: it blocks and fails no one
      else. */
  lemma {:induction false} FailuresAreContained(s: State, events: seq<Event>)
    ensures Blur(After(s, events)) == After(Blur(s), BlurEvents(events))
    decreases |events|
  {
    if events != [] {
      BlurredStep(s, events[0]);
      FailuresAreContained(Step(s, events[0]), events[1..]);
      assert BlurEvents(events)[1..] == BlurEvents(events[1..]);
    }
  }

  /** The same state with every answer forgotten. */
  function Unheard(s: State): State {
    s.(calls := seq(|s.calls|, i requires 0 <= i < |s.calls| => s.calls[i].(answer := Pending)))
  }

  function WithoutAnswers(events: seq<Event>): seq<Event> {
    if events == [] then []
    else (if events[0].Abort? || events[0].Deliver? then [] else [events[0]]) + WithoutAnswers(events[1..])
  }

  lemma UnheardStep(s: State, e: Event)
    ensures Unheard(Step(s, e)) == if e.Abort? || e.Deliver? then Unheard(s) else Step(Unheard(s), e)
  {
    var next := if e.Abort? || e.Deliver? then Unheard(s) else Step(Unheard(s), e);
    assert Unheard(Step(s, e)).calls == next.calls;
  }

  /** An aborted caller changes nothing but its own answer: tails, order and operations go on as if it had
      not given up, so its slot is not released early. */
  lemma {:induction false} AbortsReleaseNothing(s: State, events: seq<Event>)
    ensures Unheard(After(s, events)) == After(Unheard(s), WithoutAnswers(events))
    decreases |events|
  {
    if events != [] {
      UnheardStep(s, events[0]);
      AbortsReleaseNothing(Step(s, events[0]), events[1..]);
      if !(events[0].Abort? || events[0].Deliver?) {
        assert WithoutAnswers(events)[1..] == WithoutAnswers(events[1..]);
      } else {
        assert WithoutAnswers(events) == WithoutAnswers(events[1..]);
      }
    }
  }

  // ---------- The table as code ----------

  class ManagedInstalls {
    var tails: map<string, nat>
    var calls: seq<Call>

    ghost function Now(): State
      reads this
    {
      State(tails, calls)
    }

    ghost predicate Valid()
      reads this
    {
      Inv(Now())
    }

    constructor ()
      ensures Valid() && Now() == EMPTY
    {
      tails, calls := map[], [];
    }

    /** `serializeManagedInstall` up to its first await: the new call becomes the tail of its key. */
    method Serialize(key: string) returns (i: nat)
      requires Valid()
      modifies this
      ensures Valid() && Now() == Step(old(Now()), Enter(key)) && i == |old(calls)|
    {
      EnterKeepsInv(Now(), Enter(key));
      var previous := if key in tails then Some(tails[key]) else None;
      i := |calls|;
      calls := calls + [Call(key, previous, Waiting, false, false, Pending)];
      tails := tails[key := i];
    }

    /** The `finally` of a settled call: the tail is dropped if no later call took its place. */
    method Settled(i: nat)
      requires Valid() && Enabled(Now(), CleanUp(i))
      modifies this
      ensures Valid() && Now() == Step(old(Now()), CleanUp(i))
    {
      CleanUpKeepsInv(Now(), i);
      var key := calls[i].key;
      calls := calls[i := calls[i].(cleaned := true)];
      if key in tails && tails[key] == i {
        tails := tails - {key};
      }
    }
  }
}
