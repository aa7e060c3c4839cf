/** What a streamed reply is made of, told from its text: lines, events, and what every choice says. */
module EventLaws {
  import opened Options
  import opened Sequences
  import opened Text
  import opened EventStream

  // ---------- What goes to the caller ----------

  /** A text of one choice, empty or not, with the index it comes under. */
  datatype Said = Said(index: Option<int>, emission: Emission)

  function SaidByAll(choices: seq<Choice>): seq<Said> {
    if choices == [] then []
    else
      [Said(choices[0].index, Reasoning(choices[0].reasoning)), Said(choices[0].index, Content(choices[0].content))]
      + SaidByAll(choices[1..])
  }

  /** Everything the chunks among some blocks say, in order. */
  function SaidIn(decode: Decoder, blocks: seq<string>): seq<Said> {
    if blocks == [] then [] else SaidAt(decode, blocks[0]) + SaidIn(decode, blocks[1..])
  }

  function SaidAt(decode: Decoder, raw: string): seq<Said> {
    var data := Data(raw);
    if data != "" && data != DONE && decode(data).Chunk? then SaidByAll(decode(data).choices) else []
  }

  lemma {:induction false} SaidInOne(decode: Decoder, raw: string)
    ensures SaidIn(decode, [raw]) == SaidAt(decode, raw)
  {
    assert [raw][1..] == [] && SaidIn(decode, []) == [];
    Unsuffixed(SaidAt(decode, raw));
  }

  /** Of all that is said, the texts that are not empty, under no index or index 0. */
  function Heard(said: seq<Said>): seq<Emission> {
    if said == [] then []
    else
      (if said[0].index in [None, Some(0)] && said[0].emission.text != "" then [said[0].emission] else [])
      + Heard(said[1..])
  }

  lemma {:induction false} HeardConcat(a: seq<Said>, b: seq<Said>)
    ensures Heard(a + b) == Heard(a) + Heard(b)
    decreases |a|
  {
    if a == [] {
      Unprefixed(b);
      Unprefixed(Heard(b));
    } else {
      assert (a + b)[0] == a[0] && (a + b)[1..] == a[1..] + b;
      HeardConcat(a[1..], b);
    }
  }

  lemma {:induction false} HeardOfOne(choice: Choice)
    ensures Heard([Said(choice.index, Reasoning(choice.reasoning)), Said(choice.index, Content(choice.content))])
         == if IsFirstChoice(choice) then Emissions(choice) else []
  {
    var said := [Said(choice.index, Reasoning(choice.reasoning)), Said(choice.index, Content(choice.content))];
    assert said[1..] == [Said(choice.index, Content(choice.content))] && said[1..][1..] == [];
    assert IsFirstChoice(choice) <==> choice.index in [None, Some(0)];
    assert Heard(said[1..]) == (if IsFirstChoice(choice) && choice.content != "" then [Content(choice.content)] else [])
                               + Heard([]);
  }

  /** One chunk emits what its choices say and is heard; if a choice exceeds the limits, up to that choice. */
  lemma {:induction false} ChoicesSay(reply: Reply, choices: seq<Choice>) returns (k: nat)
    ensures var next := AddChoices(reply, choices);
            && k <= |choices|
            && (if next.Ok? then k == |choices| && next.value.emitted == reply.emitted + Heard(SaidByAll(choices))
                else 0 < k && next.emitted == reply.emitted + Heard(SaidByAll(choices[..k])))
    decreases |choices|
  {
    if choices == [] {
      k := 0;
      Unsuffixed(reply.emitted);
    } else {
      var choice, said := choices[0], SaidByAll(choices[..1]);
      var now := if IsFirstChoice(choice) then Emissions(choice) else [];
      assert choices[..1][1..] == [] && choices[..1][0] == choice;
      Unsuffixed([Said(choice.index, Reasoning(choice.reasoning)), Said(choice.index, Content(choice.content))]);
      HeardOfOne(choice);
      Unsuffixed(reply.emitted);
      if IsFirstChoice(choice) && AddDeltas(reply.calls, choice.deltas).None? {
        k := 1;
      } else {
        var mid := if !IsFirstChoice(choice) then reply
                   else Reply(reply.done, reply.finished || choice.finishes,
                              AddDeltas(reply.calls, choice.deltas).value, reply.emitted + now);
        var m := ChoicesSay(mid, choices[1..]);
        k := m + 1;
        SaidFirst(choices, k);
        Regroup(reply.emitted, now, Heard(SaidByAll(choices[1..][..m])));
        assert choices[1..][..|choices[1..]|] == choices[1..] && choices[..|choices|] == choices;
      }
    }
  }

  lemma {:induction false} SaidFirst(choices: seq<Choice>, k: nat)
    requires 0 < k <= |choices|
    ensures Heard(SaidByAll(choices[..k]))
         == (if IsFirstChoice(choices[0]) then Emissions(choices[0]) else []) + Heard(SaidByAll(choices[1..][..k - 1]))
  {
    var front := choices[..k];
    assert front[0] == choices[0] && front[1..] == choices[1..][..k - 1];
    HeardOfOne(choices[0]);
    HeardConcat([Said(front[0].index, Reasoning(front[0].reasoning)), Said(front[0].index, Content(front[0].content))],
                SaidByAll(front[1..]));
  }

  /** If all events pass, what goes to the caller is all that is heard in them, in order. */
  lemma {:induction false} DeliveredIsHeard(decode: Decoder, reply: Reply, blocks: seq<string>)
    requires Deliver(decode, reply, blocks).Ok?
    ensures Deliver(decode, reply, blocks).value.emitted == reply.emitted + Heard(SaidIn(decode, blocks))
    decreases |blocks|
  {
    if blocks == [] {
      Unsuffixed(reply.emitted);
    } else {
      var mid, now := Event(decode, reply, blocks[0]).value, SaidIn(decode, [blocks[0]]);
      EventSays(decode, reply, blocks[0]);
      DeliveredIsHeard(decode, mid, blocks[1..]);
      SaidInFirst(decode, blocks);
      HeardConcat(now, SaidIn(decode, blocks[1..]));
      Regroup(reply.emitted, Heard(now), Heard(SaidIn(decode, blocks[1..])));
    }
  }

  lemma {:induction false} SaidInFirst(decode: Decoder, blocks: seq<string>)
    requires blocks != []
    ensures SaidIn(decode, blocks) == SaidIn(decode, [blocks[0]]) + SaidIn(decode, blocks[1..])
  {
    SaidInOne(decode, blocks[0]);
  }

  lemma {:induction false} EventSays(decode: Decoder, reply: Reply, raw: string)
    requires Event(decode, reply, raw).Ok?
    ensures Event(decode, reply, raw).value.emitted == reply.emitted + Heard(SaidIn(decode, [raw]))
  {
    var data := Data(raw);
    SaidInOne(decode, raw);
    Unsuffixed(reply.emitted);
    if data != "" && data != DONE {
      var k := ChoicesSay(reply, decode(data).choices);
    }
  }

  /** What ends a stream at a block, and after how many choices of it. */
  ghost predicate Fails(decode: Decoder, raw: string, k: nat, message: string) {
    var data := Data(raw);
    && data != "" && data != "[DONE]"
    && match decode(data)
       case BadEvent => k == 0 && message == "Invalid event"
       case ErrorEvent(m) => k == 0 && message == m
       case Chunk(choices) => 0 < k <= |choices| && message == "Tool call exceeds browser limits."
  }

  function SaidBefore(decode: Decoder, raw: string, k: nat): seq<Said>
  {
    match decode(Data(raw))
    case Chunk(choices) => if k <= |choices| then SaidByAll(choices[..k]) else []
    case _ => []
  }

  /** At an error, what has gone to the caller is all that is heard before it. */
  lemma {:induction false} HeardBeforeError(decode: Decoder, reply: Reply, blocks: seq<string>) returns (n: nat, k: nat)
    requires Deliver(decode, reply, blocks).Thrown?
    ensures var end := Deliver(decode, reply, blocks);
            && n < |blocks| && Fails(decode, blocks[n], k, end.message)
            && end.emitted == (reply.emitted + Heard(SaidIn(decode, blocks[..n])))
                              + Heard(SaidBefore(decode, blocks[n], k))
    decreases |blocks|
  {
    var next := Event(decode, reply, blocks[0]);
    if next.Thrown? {
      n := 0;
      k := FailingEvent(decode, reply, blocks[0]);
      Unsuffixed(reply.emitted);
    } else {
      var m;
      m, k := HeardBeforeError(decode, next.value, blocks[1..]);
      n := m + 1;
      HeardFirst(decode, reply, blocks, m);
    }
  }

  lemma {:induction false} HeardFirst(decode: Decoder, reply: Reply, blocks: seq<string>, m: nat)
    requires m < |blocks| && Event(decode, reply, blocks[0]).Ok?
    ensures reply.emitted + Heard(SaidIn(decode, blocks[..m + 1])) ==
            Event(decode, reply, blocks[0]).value.emitted + Heard(SaidIn(decode, blocks[1..][..m]))
  {
    var front, now := blocks[..m + 1], SaidIn(decode, [blocks[0]]);
    assert front[0] == blocks[0] && front[1..] == blocks[1..][..m];
    EventSays(decode, reply, blocks[0]);
    SaidInFirst(decode, front);
    HeardConcat(now, SaidIn(decode, front[1..]));
    Regroup(reply.emitted, Heard(now), Heard(SaidIn(decode, front[1..])));
  }

  lemma {:induction false} FailingEvent(decode: Decoder, reply: Reply, raw: string) returns (k: nat)
    requires Event(decode, reply, raw).Thrown?
    ensures var end := Event(decode, reply, raw);
            && Fails(decode, raw, k, end.message)
            && end.emitted == reply.emitted + Heard(SaidBefore(decode, raw, k))
  {
    Unsuffixed(reply.emitted);
    k := 0;
    if decode(Data(raw)).Chunk? {
      var choices := decode(Data(raw)).choices;
      k := ChoicesSay(reply, choices);
      OnlyLimitsFail(reply, choices);
    }
  }

  lemma {:induction false} OnlyLimitsFail(reply: Reply, choices: seq<Choice>)
    requires AddChoices(reply, choices).Thrown?
    ensures AddChoices(reply, choices).message == "Tool call exceeds browser limits."
    decreases |choices|
  {
    if !IsFirstChoice(choices[0]) {
      OnlyLimitsFail(reply, choices[1..]);
    } else if AddDeltas(reply.calls, choices[0].deltas).Some? {
      OnlyLimitsFail(Reply(reply.done, reply.finished || choices[0].finishes,
                           AddDeltas(reply.calls, choices[0].deltas).value, reply.emitted + Emissions(choices[0])),
                     choices[1..]);
    }
  }

  // ---------- When a stream succeeds ----------

  predicate IsSmall(call: Call) {
    |call.id| <= 256 && |call.name| <= 128 && |call.arguments| <= 20000
  }

  /** No call grows too large. */
  ghost predicate StaysSmall(calls: map<Index, Call>, deltas: seq<Delta>) {
    forall i <- Indexes(deltas) :: IsSmall(Joined(CallAt(calls, i), Assembled(deltas, i)))
  }

  /** A call over some fragments and then more is the call over all of them. */
  lemma JoinedThrough(calls: map<Index, Call>, a: seq<Delta>, mid: map<Index, Call>, b: seq<Delta>, i: Index)
    requires Grown(calls, a, mid)
    ensures Joined(CallAt(calls, i), Assembled(a + b, i)) == Joined(CallAt(mid, i), Assembled(b, i))
  {
    AssembledConcat(a, b, i);
    JoinedAssociates(CallAt(calls, i), Assembled(a, i), Assembled(b, i));
    if i !in mid {
      NotNamed(a, i);
      JoinedWithNothing(CallAt(calls, i));
    }
  }

  lemma SmallPrefix(calls: map<Index, Call>, a: seq<Delta>, b: seq<Delta>)
    requires StaysSmall(calls, a + b)
    ensures StaysSmall(calls, a)
  {
    assert Indexes(a + b) == Indexes(a) + Indexes(b);
    forall i <- Indexes(a)
      ensures IsSmall(Joined(CallAt(calls, i), Assembled(a, i)))
    {
      AssembledConcat(a, b, i);
      assert IsSmall(Joined(CallAt(calls, i), Assembled(a + b, i)));
    }
  }

  lemma SmallRest(calls: map<Index, Call>, a: seq<Delta>, mid: map<Index, Call>, b: seq<Delta>)
    requires Grown(calls, a, mid) && StaysSmall(calls, a + b)
    ensures StaysSmall(mid, b)
  {
    assert Indexes(a + b) == Indexes(a) + Indexes(b);
    forall i <- Indexes(b)
      ensures IsSmall(Joined(CallAt(mid, i), Assembled(b, i)))
    {
      JoinedThrough(calls, a, mid, b, i);
    }
  }

  lemma SmallBoth(calls: map<Index, Call>, a: seq<Delta>, mid: map<Index, Call>, b: seq<Delta>)
    requires Grown(calls, a, mid) && StaysSmall(calls, a) && StaysSmall(mid, b)
    ensures StaysSmall(calls, a + b)
  {
    assert Indexes(a + b) == Indexes(a) + Indexes(b);
    forall i <- Indexes(a + b)
      ensures IsSmall(Joined(CallAt(calls, i), Assembled(a + b, i)))
    {
      if i in Indexes(b) {
        JoinedThrough(calls, a, mid, b, i);
      } else {
        NotNamed(b, i);
        AssembledConcat(a, b, i);
        JoinedWithNothing(Assembled(a, i));
      }
    }
  }

  lemma SmallFirst(calls: map<Index, Call>, a: seq<Delta>, mid: map<Index, Call>, b: seq<Delta>)
    requires Grown(calls, a, mid)
    ensures StaysSmall(calls, a + b) <==> StaysSmall(calls, a) && StaysSmall(mid, b)
  {
    if StaysSmall(calls, a + b) {
      SmallPrefix(calls, a, b);
      SmallRest(calls, a, mid, b);
    } else if StaysSmall(calls, a) && StaysSmall(mid, b) {
      SmallBoth(calls, a, mid, b);
    }
  }

  lemma {:induction false} DeltasAddExactly(calls: map<Index, Call>, deltas: seq<Delta>)
    ensures AddDeltas(calls, deltas).Some? <==> StaysSmall(calls, deltas)
    decreases |deltas|
  {
    if deltas != [] {
      var d := deltas[0];
      var call := Extend(CallAt(calls, d.index), d);
      var mid := calls[d.index := call];
      assert deltas == [d] + deltas[1..];
      DeltaAdds(calls, d);
      if WithinLimits(call) {
        GrownByOne(calls, d);
        SmallFirst(calls, [d], mid, deltas[1..]);
        DeltasAddExactly(mid, deltas[1..]);
      } else if StaysSmall(calls, deltas) {
        SmallPrefix(calls, [d], deltas[1..]);
      }
    }
  }

  lemma DeltaAdds(calls: map<Index, Call>, d: Delta)
    ensures StaysSmall(calls, [d]) <==> WithinLimits(Extend(CallAt(calls, d.index), d))
  {
    AssembledOne(d, d.index);
    assert Indexes([d]) == {d.index};
  }

  lemma {:induction false} ChoicesAddExactly(reply: Reply, choices: seq<Choice>)
    ensures AddChoices(reply, choices).Ok? <==> StaysSmall(reply.calls, ChoiceDeltas(choices))
    decreases |choices|
  {
    if choices == [] {
    } else if !IsFirstChoice(choices[0]) {
      ChoicesAddExactly(reply, choices[1..]);
      Unprefixed(ChoiceDeltas(choices[1..]));
    } else {
      var deltas, later := choices[0].deltas, ChoiceDeltas(choices[1..]);
      DeltasAddExactly(reply.calls, deltas);
      var calls := AddDeltas(reply.calls, deltas);
      if calls.Some? {
        AddDeltasGrows(reply.calls, deltas);
        SmallFirst(reply.calls, deltas, calls.value, later);
        ChoicesAddExactly(Reply(reply.done, reply.finished || choices[0].finishes, calls.value,
                                reply.emitted + Emissions(choices[0])), choices[1..]);
      } else if StaysSmall(reply.calls, deltas + later) {
        SmallPrefix(reply.calls, deltas, later);
      }
    }
  }

  /** An event without data, the end marker, or a chunk. */
  predicate IsGood(decode: Decoder, raw: string) {
    Data(raw) == "" || Data(raw) == "[DONE]" || decode(Data(raw)).Chunk?
  }

  /** All events pass if and only if each has no data, the end marker or a chunk, and no call grows too large. */
  lemma {:induction false} DeliversExactly(decode: Decoder, reply: Reply, blocks: seq<string>)
    ensures Deliver(decode, reply, blocks).Ok? <==>
            (forall b <- blocks :: IsGood(decode, b)) && StaysSmall(reply.calls, Fragments(decode, blocks))
    decreases |blocks|
  {
    if blocks != [] {
      var raw, data := blocks[0], Data(blocks[0]);
      var now, later := BlockDeltas(decode, raw), Fragments(decode, blocks[1..]);
      assert forall b <- blocks :: b == raw || b in blocks[1..];
      assert raw in blocks && forall b <- blocks[1..] :: b in blocks;
      if IsGood(decode, raw) {
        EventAddsExactly(decode, reply, raw);
        if StaysSmall(reply.calls, now) {
          var mid := Event(decode, reply, raw).value;
          EventGrows(decode, reply, raw);
          SmallFirst(reply.calls, now, mid.calls, later);
          DeliversExactly(decode, mid, blocks[1..]);
        } else if StaysSmall(reply.calls, now + later) {
          SmallPrefix(reply.calls, now, later);
        }
      }
    }
  }

  lemma EventAddsExactly(decode: Decoder, reply: Reply, raw: string)
    requires IsGood(decode, raw)
    ensures Event(decode, reply, raw).Ok? <==> StaysSmall(reply.calls, BlockDeltas(decode, raw))
  {
    if Data(raw) != "" && Data(raw) != DONE {
      ChoicesAddExactly(reply, decode(Data(raw)).choices);
    }
  }

  lemma EventGrows(decode: Decoder, reply: Reply, raw: string)
    requires Event(decode, reply, raw).Ok?
    ensures Grown(reply.calls, BlockDeltas(decode, raw), Event(decode, reply, raw).value.calls)
  {
    GrownByNone(reply.calls);
    if Data(raw) != "" && Data(raw) != DONE {
      AddChoicesGrows(reply, decode(Data(raw)).choices);
    }
  }

  /** Every call has an id and a name, and no id comes twice. */
  ghost predicate AreUsable(calls: seq<Call>) {
    && (forall k | 0 <= k < |calls| :: calls[k].id != "" && calls[k].name != "")
    && (forall i, j | 0 <= i < j < |calls| :: calls[i].id != calls[j].id)
  }

  /** A stream, cut anywhere, succeeds if and only if the events delivered pass, the end marker is among them, and
      the calls are usable; it gives these calls, and everything heard in those events has gone to the caller. */
  lemma {:induction false} AnswersExactly(decode: Decoder, parts: seq<string>, flush: string) returns (n: nat)
    ensures var delivered := CutBlocks("", parts + [flush]);
            UpToDone(delivered) <= n <= |delivered| &&
            var blocks := delivered[..n];
            var calls := AssembledFrom(Fragments(decode, blocks), 0);
            var result := Conclude(Stream(decode, "", START, parts, flush));
            && (result.Ok? <==>
                  && (forall b <- blocks :: IsGood(decode, b)) && StaysSmall(map[], Fragments(decode, blocks))
                  && (exists b <- blocks :: Data(b) == "[DONE]")
                  && AreUsable(calls))
            && (result.Ok? ==> result.value == Answer(calls, Heard(SaidIn(decode, blocks))))
  {
    n := StreamDelivers(decode, "", START, parts, flush);
    ConcludesExactly(decode, CutBlocks("", parts + [flush])[..n]);
  }

  lemma {:induction false} ConcludesExactly(decode: Decoder, blocks: seq<string>)
    ensures var calls := AssembledFrom(Fragments(decode, blocks), 0);
            var result := Conclude(Deliver(decode, START, blocks));
            && (result.Ok? <==>
                  && (forall b <- blocks :: IsGood(decode, b)) && StaysSmall(map[], Fragments(decode, blocks))
                  && (exists b <- blocks :: Data(b) == "[DONE]")
                  && AreUsable(calls))
            && (result.Ok? ==> result.value == Answer(calls, Heard(SaidIn(decode, blocks))))
  {
    DeliversExactly(decode, START, blocks);
    if Deliver(decode, START, blocks).Ok? {
      DeliverSetsDone(decode, START, blocks);
      DeliveredCallsAreWhole(decode, blocks);
      DeliveredIsHeard(decode, START, blocks);
      Unprefixed(Heard(SaidIn(decode, blocks)));
      UsableIsWellFormed(AssembledFrom(Fragments(decode, blocks), 0));
    }
  }

  lemma UsableIsWellFormed(calls: seq<Call>)
    ensures AreUsable(calls) <==> WellFormed(calls)
  {
    if AreUsable(calls) {
      assert forall call <- calls :: call.id != "" && call.name != "";
    }
    if WellFormed(calls) {
      assert forall k | 0 <= k < |calls| :: calls[k] in calls;
    }
  }

  // ---------- Lines and blocks ----------

  ghost predicate NoBlankLine(s: string) {
    forall i | 0 <= i < |s| - 1 :: !(s[i] == '\n' && s[i + 1] == '\n')
  }

  /** A block, the first blank line behind it, and so on; then what has no blank line. */
  ghost predicate IsFramed(s: string, blocks: seq<string>, rest: string)
    decreases |blocks|
  {
    if blocks == [] then s == rest && NoBlankLine(s)
    else
      var n := |blocks[0]|;
      && n + 2 <= |s| && s[..n] == blocks[0] && s[n] == '\n' && s[n + 1] == '\n' && NoBlankLine(s[..n + 1])
      && IsFramed(s[n + 2..], blocks[1..], rest)
  }

  lemma {:induction false} BoundaryIsFirst(s: string)
    ensures Boundary(s) == -1 <==> NoBlankLine(s)
    ensures var b := Boundary(s);
            b != -1 ==> s[b] == '\n' && s[b + 1] == '\n' && NoBlankLine(s[..b + 1])
    decreases |s|
  {
    if |s| >= 2 && !(s[0] == '\n' && s[1] == '\n') {
      var tail := s[1..];
      BoundaryIsFirst(tail);
      assert forall i | 0 <= i < |tail| :: tail[i] == s[i + 1];
      var b := Boundary(s);
      if b != -1 {
        assert forall i | 0 <= i < b :: s[..b + 1][i + 1] == tail[..b][i];
      } else {
        assert forall i | 0 < i < |s| - 1 :: s[i] == tail[i - 1] && s[i + 1] == tail[i];
      }
    }
  }

  /** `Blocks` and `Rest` read a text in this way, and in no other. */
  lemma {:induction false} FramesExactly(s: string, blocks: seq<string>, rest: string)
    ensures IsFramed(s, blocks, rest) <==> blocks == Blocks(s) && rest == Rest(s)
    decreases |s|
  {
    BoundaryIsFirst(s);
    var b := Boundary(s);
    if blocks != [] && b != -1 {
      if |blocks[0]| == b {
        FramesExactly(s[b + 2..], blocks[1..], rest);
        assert blocks == [blocks[0]] + blocks[1..];
        assert ([s[..b]] + Blocks(s[b + 2..]))[1..] == Blocks(s[b + 2..]);
      } else if IsFramed(s, blocks, rest) {
        OneFirstBlank(s, b, |blocks[0]|);
      }
    }
  }

  lemma OneFirstBlank(s: string, b: nat, n: nat)
    requires b + 2 <= |s| && s[b] == '\n' && s[b + 1] == '\n' && NoBlankLine(s[..b + 1])
    requires n + 2 <= |s| && s[n] == '\n' && s[n + 1] == '\n' && NoBlankLine(s[..n + 1])
    ensures b == n
  {
    if b < n {
      BlankInside(s, b, n);
    }
    if n < b {
      BlankInside(s, n, b);
    }
  }

  lemma BlankInside(s: string, b: nat, n: nat)
    requires b < n < |s| && s[b] == '\n' && s[b + 1] == '\n'
    ensures !NoBlankLine(s[..n + 1])
  {
    assert s[..n + 1][b] == s[b] && s[..n + 1][b + 1] == s[b + 1];
  }

  /** Lines that end in CR LF get another line end, and nothing else changes. */
  lemma {:induction false} NormalOfLines(lines: seq<string>)
    requires forall line <- lines :: !HasCrLf(line)
    ensures Normal(Join(lines, "\r\n")) == Join(lines, "\n")
    decreases |lines|
  {
    if |lines| == 1 {
      NormalOfLine(lines[0]);
    } else if |lines| > 1 {
      assert lines[0] in lines && forall line <- lines[1..] :: line in lines;
      NormalOfLines(lines[1..]);
      LineThen(lines[0], Join(lines[1..], "\r\n"));
    }
  }

  lemma {:induction false} NormalOfLine(line: string)
    requires !HasCrLf(line)
    ensures Normal(line) == line
    decreases |line|
  {
    if line != [] {
      assert line == [line[0]] + line[1..];
      RestHasNoCrLf([line[0]], line[1..]);
      NormalOfLine(line[1..]);
    }
  }

  lemma {:induction false} LineThen(line: string, more: string)
    requires !HasCrLf(line)
    ensures Normal((line + "\r\n") + more) == (line + "\n") + Normal(more)
    decreases |line|
  {
    if line == [] {
      Unprefixed("\r\n");
      Unprefixed("\n");
      NormalOfCrLf(more);
    } else {
      var c, tail := line[0], line[1..];
      assert line == [c] + tail;
      RestHasNoCrLf([c], tail);
      LineThen(tail, more);
      var rest := (tail + "\r\n") + more;
      assert (line + "\r\n") + more == [c] + rest;
      assert tail != [] ==> rest[0] == tail[0] == line[1];
      NormalOfOther(c, rest);
      assert [c] + ((tail + "\n") + Normal(more)) == (line + "\n") + Normal(more);
    }
  }

  // ---------- The data of an event ----------

  /** White space, then a text that does not start with any. */
  ghost predicate IsPadded(s: string, text: string) {
    exists n | 0 <= n <= |s| ::
      && text == s[n..] && (forall i | 0 <= i < n :: IsSpace(s[i])) && (n < |s| ==> !IsSpace(s[n]))
  }

  lemma {:induction false} TrimsPadding(s: string, n: nat)
    requires n <= |s| && (forall i | 0 <= i < n :: IsSpace(s[i])) && (n < |s| ==> !IsSpace(s[n]))
    ensures TrimStart(s) == s[n..]
    decreases n
  {
    if n > 0 {
      TrimsPadding(s[1..], n - 1);
    }
  }

  function Present(texts: seq<Option<string>>): seq<string> {
    if texts == [] then [] else (if texts[0].Some? then [texts[0].value] else []) + Present(texts[1..])
  }

  /** What each line of an event holds: nothing, unless it starts with "data:". */
  ghost predicate Holds(lines: seq<string>, texts: seq<Option<string>>) {
    && |lines| == |texts|
    && forall i | 0 <= i < |lines| ::
         if |lines[i]| >= 5 && lines[i][..5] == ['d', 'a', 't', 'a', ':']
         then texts[i].Some? && IsPadded(lines[i][5..], texts[i].value) else texts[i].None?
  }

  /** The data of an event is the texts of its data lines, joined by line ends. */
  lemma {:induction false} DataExactly(lines: seq<string>, texts: seq<Option<string>>)
    requires lines != [] && (forall line <- lines :: '\n' !in line) && Holds(lines, texts)
    ensures Data(Join(lines, "\n")) == Join(Present(texts), "\n")
  {
    SplitJoined(lines, '\n');
    DataLinesAre(lines, texts);
  }

  lemma {:induction false} DataLinesAre(lines: seq<string>, texts: seq<Option<string>>)
    requires Holds(lines, texts)
    ensures DataLines(lines) == Present(texts)
    decreases |lines|
  {
    if lines != [] {
      DataLinesAre(lines[1..], texts[1..]);
      var line := lines[0];
      assert DATA <= line <==> |line| >= 5 && line[..5] == ['d', 'a', 't', 'a', ':'];
      if texts[0].Some? {
        var n :| 0 <= n <= |line[5..]| && texts[0].value == line[5..][n..]
                 && (forall i | 0 <= i < n :: IsSpace(line[5..][i])) && (n < |line[5..]| ==> !IsSpace(line[5..][n]));
        TrimsPadding(line[5..], n);
      }
    }
  }
}
