/** Decoding a streamed reply: cutting the text into events however the network cut it into reads, and
    putting tool calls together from their fragments. */
module EventStream {
  import opened Options
  import opened Sequences
  import opened Text

  /** An error ends the stream; what was emitted before it stays with the caller. */
  datatype Result<+T> = Ok(value: T) | Thrown(message: string, emitted: seq<Emission>)

  // ---------- Framing ----------

  /** Every "\r\n" becomes "\n", left to right. */
  function Normal(s: string): string {
    if |s| >= 2 && s[0] == '\r' && s[1] == '\n' then ['\n'] + Normal(s[2..])
    else if s == [] then []
    else [s[0]] + Normal(s[1..])
  }

  /** The position of the leftmost blank line, or -1. */
  function Boundary(s: string): (b: int)
    ensures b == -1 || 0 <= b <= |s| - 2
  {
    if |s| < 2 then -1
    else if s[0] == '\n' && s[1] == '\n' then 0
    else if Boundary(s[1..]) == -1 then -1
    else Boundary(s[1..]) + 1
  }

  /** What lies between the blank lines. */
  function Blocks(s: string): seq<string>
    decreases |s|
  {
    var b := Boundary(s);
    if b == -1 then [] else [s[..b]] + Blocks(s[b + 2..])
  }

  /** What lies after the last of them. */
  function Rest(s: string): (rest: string)
    ensures |rest| <= |s|
    decreases |s|
  {
    var b := Boundary(s);
    if b == -1 then s else Rest(s[b + 2..])
  }

  // ---------- Events ----------

  const DATA := "data:"

  function DataLines(lines: seq<string>): seq<string> {
    if lines == [] then []
    else (if DATA <= lines[0] then [TrimStart(lines[0][|DATA|..])] else []) + DataLines(lines[1..])
  }

  function Data(raw: string): string {
    Join(DataLines(Split(raw, '\n')), "\n")
  }

  const DONE := "[DONE]"

  /** The schema allows four tool calls. */
  type Index = i: nat | i < 4

  datatype Delta = Delta(index: Index, id: string, name: string, arguments: string)

  datatype Choice = Choice(
    index: Option<int>, finishes: bool, reasoning: string, content: string, deltas: seq<Delta>)

  /** The JSON of one event, checked against its schema. */
  datatype Parsed = BadEvent | ErrorEvent(message: string) | Chunk(choices: seq<Choice>)

  type Decoder = string -> Parsed

  datatype Call = Call(id: string, name: string, arguments: string)

  /** What goes to the caller: reasoning as it comes, content through the think-tag splitter. */
  datatype Emission = Reasoning(text: string) | Content(text: string)

  datatype Reply = Reply(done: bool, finished: bool, calls: map<Index, Call>, emitted: seq<Emission>)

  const START := Reply(false, false, map[], [])

  function CallAt(calls: map<Index, Call>, index: Index): Call {
    if index in calls then calls[index] else Call("", "", "")
  }

  function Extend(call: Call, d: Delta): Call {
    Call(call.id + d.id, call.name + d.name, call.arguments + d.arguments)
  }

  predicate WithinLimits(call: Call) {
    |call.id| <= 256 && |call.name| <= 128 && |call.arguments| <= 20000
  }

  /** None if a call exceeds the limits. */
  function AddDeltas(calls: map<Index, Call>, deltas: seq<Delta>): Option<map<Index, Call>>
    decreases |deltas|
  {
    if deltas == [] then Some(calls)
    else
      var call := Extend(CallAt(calls, deltas[0].index), deltas[0]);
      if WithinLimits(call) then AddDeltas(calls[deltas[0].index := call], deltas[1..]) else None
  }

  const TOO_LONG := "Tool call exceeds browser limits."

  function Emissions(choice: Choice): seq<Emission> {
    (if choice.reasoning != "" then [Reasoning(choice.reasoning)] else [])
    + (if choice.content != "" then [Content(choice.content)] else [])
  }

  predicate IsFirstChoice(choice: Choice) {
    choice.index.None? || choice.index.value == 0
  }

  function AddChoices(reply: Reply, choices: seq<Choice>): Result<Reply>
    decreases |choices|
  {
    if choices == [] then Ok(reply)
    else if !IsFirstChoice(choices[0]) then AddChoices(reply, choices[1..])
    else
      var calls := AddDeltas(reply.calls, choices[0].deltas);
      if calls.None? then Thrown(TOO_LONG, reply.emitted + Emissions(choices[0]))
      else
        AddChoices(Reply(reply.done, reply.finished || choices[0].finishes, calls.value,
                         reply.emitted + Emissions(choices[0])), choices[1..])
  }

  /** `event`: what one block does. */
  function Event(decode: Decoder, reply: Reply, raw: string): Result<Reply> {
    var data := Data(raw);
    if data == "" then Ok(reply)
    else if data == DONE then Ok(reply.(done := true))
    else
      match decode(data)
      case BadEvent => Thrown("Invalid event", reply.emitted)
      case ErrorEvent(message) => Thrown(message, reply.emitted)
      case Chunk(choices) => AddChoices(reply, choices)
  }

  function Deliver(decode: Decoder, reply: Reply, blocks: seq<string>): Result<Reply>
    decreases |blocks|
  {
    if blocks == [] then Ok(reply)
    else
      var next := Event(decode, reply, blocks[0]);
      if next.Thrown? then next else Deliver(decode, next.value, blocks[1..])
  }

  /** Some events of a text have been delivered; `buffer` is what is left of it. */
  ghost predicate Draining(decode: Decoder, text: string, start: Reply, buffer: string, reply: Reply) {
    && Rest(buffer) == Rest(text)
    && Deliver(decode, reply, Blocks(buffer)) == Deliver(decode, start, Blocks(text))
  }

  lemma {:induction false} DrainOne(decode: Decoder, text: string, start: Reply, buffer: string, reply: Reply)
    requires Draining(decode, text, start, buffer, reply) && Boundary(buffer) != -1
    ensures var b := Boundary(buffer);
            var next := Event(decode, reply, buffer[..b]);
            if next.Ok? then Draining(decode, text, start, buffer[b + 2..], next.value)
            else Deliver(decode, start, Blocks(text)) == next
  {
    assert Blocks(buffer)[1..] == Blocks(buffer[Boundary(buffer) + 2..]);
  }

  lemma {:induction false} DrainLast(decode: Decoder, text: string, start: Reply, buffer: string, reply: Reply)
    requires Draining(decode, text, start, buffer, reply) && Boundary(buffer) == -1
    ensures Rest(text) == buffer && Deliver(decode, start, Blocks(text)) == Ok(reply)
  {
  }

  // ---------- The loop ----------

  /** The rest of the stream: `parts` in order, then the end of the body with what the decoder still held. */
  function Stream(decode: Decoder, buffer: string, reply: Reply, parts: seq<string>, flush: string): Result<Reply>
    decreases |parts|
  {
    if reply.done then Ok(reply)
    else
      var text := Normal(buffer + if parts == [] then flush else parts[0]);
      var next := Deliver(decode, reply, Blocks(text));
      if next.Thrown? then next
      else if parts != [] then Stream(decode, Rest(text), next.value, parts[1..], flush)
      else if IsBlank(Rest(text)) then next
      else Event(decode, next.value, Rest(text))
  }

  /** The calls in index order, from an index on. */
  function CallsFrom(calls: map<Index, Call>, from: nat): seq<Call>
    decreases 4 - from
  {
    if from >= 4 then [] else (if from in calls then [calls[from]] else []) + CallsFrom(calls, from + 1)
  }

  predicate WellFormed(calls: seq<Call>) {
    && (forall call <- calls :: call.id != "" && call.name != "")
    && (forall i, j | 0 <= i < j < |calls| :: calls[i].id != calls[j].id)
  }

  /** What a stream that succeeds has given: its calls, and before them what went to the caller. */
  datatype Answer = Answer(calls: seq<Call>, emitted: seq<Emission>)

  /** What `streamText` makes of the end of the stream. */
  function Conclude(end: Result<Reply>): Result<Answer> {
    if end.Thrown? then Thrown(end.message, end.emitted)
    else if !end.value.done then
      Thrown("Connection ended before the response finished. You can retry.", end.value.emitted)
    else if WellFormed(CallsFrom(end.value.calls, 0)) then Ok(Answer(CallsFrom(end.value.calls, 0), end.value.emitted))
    else Thrown("Malformed tool call: missing or duplicate ID or missing function name.", end.value.emitted)
  }

  class Reader {
    var buffer: string
    var reply: Reply

    constructor ()
      ensures buffer == "" && reply == START
    {
      buffer, reply := "", START;
    }

    /** One tool-call fragment list: the calls it names grow, or a limit is exceeded. */
    method AddFragments(deltas: seq<Delta>) returns (thrown: Option<string>)
      modifies this
      ensures buffer == old(buffer)
      ensures var calls := AddDeltas(old(reply).calls, deltas);
              if calls.Some? then thrown.None? && reply == old(reply).(calls := calls.value)
              else thrown == Some(TOO_LONG) && reply.emitted == old(reply).emitted
    {
      for i := 0 to |deltas|
        invariant buffer == old(buffer) && reply == old(reply).(calls := reply.calls)
        invariant AddDeltas(old(reply).calls, deltas) == AddDeltas(reply.calls, deltas[i..])
      {
        var delta := deltas[i];
        assert deltas[i..][1..] == deltas[i + 1..];
        var call := Extend(CallAt(reply.calls, delta.index), delta);
        if !WithinLimits(call) {
          return Some(TOO_LONG);
        }
        reply := reply.(calls := reply.calls[delta.index := call]);
      }
      return None;
    }

    method HandleChoices(choices: seq<Choice>) returns (thrown: Option<string>)
      modifies this
      ensures buffer == old(buffer)
      ensures var next := AddChoices(old(reply), choices);
              if next.Ok? then thrown.None? && reply == next.value
              else thrown == Some(next.message) && reply.emitted == next.emitted
    {
      for i := 0 to |choices|
        invariant buffer == old(buffer)
        invariant AddChoices(old(reply), choices) == AddChoices(reply, choices[i..])
      {
        var choice := choices[i];
        assert choices[i..][1..] == choices[i + 1..];
        if IsFirstChoice(choice) {
          reply := reply.(finished := reply.finished || choice.finishes,
                          emitted := reply.emitted + Emissions(choice));
          thrown := AddFragments(choice.deltas);
          if thrown.Some? {
            return;
          }
        }
      }
      return None;
    }

    method HandleEvent(decode: Decoder, raw: string) returns (thrown: Option<string>)
      modifies this
      ensures buffer == old(buffer)
      ensures var next := Event(decode, old(reply), raw);
              if next.Ok? then thrown.None? && reply == next.value
              else thrown == Some(next.message) && reply.emitted == next.emitted
    {
      var data := Data(raw);
      if data == "" {
        return None;
      }
      if data == DONE {
        reply := reply.(done := true);
        return None;
      }
      match decode(data) {
        case BadEvent => return Some("Invalid event");
        case ErrorEvent(message) => return Some(message);
        case Chunk(choices) => thrown := HandleChoices(choices);
      }
    }

    /** The inner loop: the buffer gives up its events one by one. */
    method DrainBuffer(decode: Decoder) returns (thrown: Option<string>)
      modifies this
      ensures var next := Deliver(decode, old(reply), Blocks(old(buffer)));
              if next.Ok? then thrown.None? && reply == next.value && buffer == Rest(old(buffer))
              else thrown == Some(next.message) && reply.emitted == next.emitted
    {
      ghost var text, start := buffer, reply;
      var boundary := Boundary(buffer);
      while boundary != -1
        invariant boundary == Boundary(buffer)
        invariant Draining(decode, text, start, buffer, reply)
        decreases |buffer|
      {
        DrainOne(decode, text, start, buffer, reply);
        thrown := HandleEvent(decode, buffer[..boundary]);
        if thrown.Some? {
          return;
        }
        buffer := buffer[boundary + 2..];
        boundary := Boundary(buffer);
      }
      DrainLast(decode, text, start, buffer, reply);
      return None;
    }

    /** The read loop of `streamText`. */
    method ReadAll(decode: Decoder, parts: seq<string>, flush: string) returns (thrown: Option<string>)
      requires !reply.done
      modifies this
      ensures var end := Stream(decode, old(buffer), old(reply), parts, flush);
              if end.Ok? then thrown.None? && reply == end.value
              else thrown == Some(end.message) && reply.emitted == end.emitted
    {
      var next, ended := 0, false;
      ghost var whole := Stream(decode, buffer, reply, parts, flush);
      while !reply.done && !ended
        invariant 0 <= next <= |parts|
        invariant if ended then whole == Ok(reply)
                  else whole == Stream(decode, buffer, reply, parts[next..], flush)
        decreases |parts| - next, !ended
      {
        buffer := Normal(buffer + if next == |parts| then flush else parts[next]);
        thrown := DrainBuffer(decode);
        if thrown.Some? {
          return;
        }
        if next < |parts| {
          assert parts[next..][1..] == parts[next + 1..];
          next := next + 1;
        } else {
          if !IsBlank(buffer) {
            thrown := HandleEvent(decode, buffer);
            if thrown.Some? {
              return;
            }
          }
          ended := true;
        }
      }
      return None;
    }
  }

  /** `streamText` on a new reader. */
  method StreamText(decode: Decoder, parts: seq<string>, flush: string) returns (result: Result<Answer>)
    ensures result == Conclude(Stream(decode, "", START, parts, flush))
  {
    var reader := new Reader();
    var thrown := reader.ReadAll(decode, parts, flush);
    if thrown.Some? {
      return Thrown(thrown.value, reader.reply.emitted);
    }
    return Conclude(Ok(reader.reply));
  }

  // ---------- Chunking independence ----------

  predicate HasCrCrLf(s: string) {
    exists i | 0 <= i < |s| - 2 :: s[i] == '\r' && s[i + 1] == '\r' && s[i + 2] == '\n'
  }

  predicate HasCrLf(s: string) {
    exists i | 0 <= i < |s| - 1 :: s[i] == '\r' && s[i + 1] == '\n'
  }

  lemma CutOfClean(s: string, from: nat)
    requires from <= |s| && !HasCrCrLf(s)
    ensures !HasCrCrLf(s[from..])
  {
    forall i | 0 <= i < |s[from..]| - 2
      ensures !(s[from..][i] == '\r' && s[from..][i + 1] == '\r' && s[from..][i + 2] == '\n')
    {
      assert s[from + i] == s[from..][i];
    }
  }

  predicate StartsWith(s: string, c: char) {
    s != [] && s[0] == c
  }

  lemma {:induction false} NormalOfCrLf(tail: string)
    ensures Normal(['\r', '\n'] + tail) == ['\n'] + Normal(tail)
  {
    assert (['\r', '\n'] + tail)[2..] == tail;
  }

  lemma {:induction false} NormalOfOther(c: char, tail: string)
    requires !(c == '\r' && StartsWith(tail, '\n'))
    ensures Normal([c] + tail) == [c] + Normal(tail)
  {
    assert ([c] + tail)[1..] == tail;
  }

  lemma {:induction false} NormalHead(s: string)
    requires s != []
    ensures Normal(s) != []
    ensures Normal(s)[0] == if |s| >= 2 && s[0] == '\r' && s[1] == '\n' then '\n' else s[0]
  {
  }

  /** What CR LF, or another character, in front does to two texts of which one continues the other. */
  lemma {:induction false} BehindCrLf(tail: string, more: string, a: string, b: string)
    requires Normal(tail) == a && Normal(tail + more) == b
    ensures Normal(['\r', '\n'] + tail) == ['\n'] + a && Normal((['\r', '\n'] + tail) + more) == ['\n'] + b
  {
    NormalOfCrLf(tail);
    NormalOfCrLf(tail + more);
    Regroup(['\r', '\n'], tail, more);
  }

  lemma {:induction false} BehindOther(c: char, tail: string, more: string, a: string, b: string)
    requires Normal(tail) == a && Normal(tail + more) == b
    requires tail != [] && !(c == '\r' && StartsWith(tail, '\n'))
    ensures Normal([c] + tail) == [c] + a && Normal(([c] + tail) + more) == [c] + b
  {
    NormalOfOther(c, tail);
    assert StartsWith(tail + more, '\n') == StartsWith(tail, '\n');
    NormalOfOther(c, tail + more);
    Regroup([c], tail, more);
  }

  lemma {:induction false} TwiceBehind(c: char, a: string, more: string, b: string)
    requires Normal(a + more) == b && !(c == '\r' && StartsWith(a + more, '\n'))
    ensures Normal(([c] + a) + more) == [c] + b
  {
    NormalOfOther(c, a + more);
    Regroup([c], a, more);
  }

  /** Normalising what is already normalised again, with more text after it, changes nothing. */
  lemma {:induction false} NormalTwice(s: string, more: string)
    requires !HasCrCrLf(s + more)
    ensures Normal(Normal(s) + more) == Normal(s + more)
    decreases |s|
  {
    if |s| <= 1 {
      assert Normal(s) == s by {
        assert s != [] ==> s[1..] == [];
      }
    } else if s[0] == '\r' && s[1] == '\n' {
      assert s == s[..2] + s[2..] && s[..2] == ['\r', '\n'];
      CutOfCleanFront(s[..2], s[2..], more);
      NormalTwice(s[2..], more);
      BehindCrLf(s[2..], more, Normal(s[2..]), Normal(s[2..] + more));
      TwiceBehind('\n', Normal(s[2..]), more, Normal(s[2..] + more));
    } else {
      assert s == s[..1] + s[1..] && s[..1] == [s[0]];
      CutOfCleanFront(s[..1], s[1..], more);
      NormalTwice(s[1..], more);
      NoLateLf(s, more);
      NormalHead(s[1..]);
      BehindOther(s[0], s[1..], more, Normal(s[1..]), Normal(s[1..] + more));
      TwiceBehind(s[0], Normal(s[1..]), more, Normal(s[1..] + more));
    }
  }

  lemma CutOfCleanFront(front: string, tail: string, more: string)
    requires !HasCrCrLf(front + tail + more)
    ensures !HasCrCrLf(tail + more)
  {
    var whole := front + tail + more;
    CutOfClean(whole, |front|);
    assert whole[|front|..] == tail + more;
  }

  lemma {:induction false} NoLateLf(s: string, more: string)
    requires |s| >= 2 && !HasCrCrLf(s + more) && !(s[0] == '\r' && s[1] == '\n')
    ensures s[0] == '\r' ==> !StartsWith(Normal(s[1..]), '\n')
  {
    NormalHead(s[1..]);
    if s[0] == '\r' && |s| > 2 && s[1] == '\r' {
      assert (s + more)[0] == s[0] && (s + more)[1] == s[1] && (s + more)[2] == s[2];
    }
  }

  lemma {:induction false} NormalHasNoCrLf(s: string)
    requires !HasCrCrLf(s)
    ensures !HasCrLf(Normal(s))
    ensures s != [] ==> Normal(s) != []
    decreases |s|
  {
    if s == [] {
    } else if |s| >= 2 && s[0] == '\r' && s[1] == '\n' {
      CutOfClean(s, 2);
      NormalHasNoCrLf(s[2..]);
    } else {
      CutOfClean(s, 1);
      NormalHasNoCrLf(s[1..]);
      if |s| >= 2 {
        assert s[1..][0] == s[1];
        if s[0] == '\r' && |s| > 2 {
          assert s[1..][1] == s[2];
        }
      }
    }
  }

  /** A part without "\r\n" that does not end in "\r" is not touched. */
  lemma {:induction false} NormalKeepsPart(part: string, more: string)
    requires !HasCrLf(part) && (part != [] ==> part[|part| - 1] != '\r')
    ensures Normal(part + more) == part + Normal(more)
    decreases |part|
  {
    if part == [] {
      Unprefixed(more);
      Unprefixed(Normal(more));
    } else {
      var c, tail := part[0], part[1..];
      assert part == [c] + tail;
      RestHasNoCrLf([c], tail);
      NormalKeepsPart(tail, more);
      NormalOfOther(c, tail + more);
      Regroup([c], tail, more);
      Regroup([c], tail, Normal(more));
    }
  }

  lemma {:induction false} BoundaryOfLonger(s: string, more: string)
    requires Boundary(s) != -1
    ensures Boundary(s + more) == Boundary(s)
    decreases |s|
  {
    if !(s[0] == '\n' && s[1] == '\n') {
      assert (s + more)[1..] == s[1..] + more;
      BoundaryOfLonger(s[1..], more);
    }
  }

  /** Cutting off events now or later gives the same events and the same rest. */
  lemma {:induction false} BlocksOfLonger(s: string, more: string)
    ensures Blocks(s + more) == Blocks(s) + Blocks(Rest(s) + more)
    ensures Rest(s + more) == Rest(Rest(s) + more)
    decreases |s|
  {
    var b := Boundary(s);
    if b != -1 {
      BoundaryOfLonger(s, more);
      assert (s + more)[b + 2..] == s[b + 2..] + more && (s + more)[..b] == s[..b];
      BlocksOfLonger(s[b + 2..], more);
    }
  }

  /** The text up to the end of the last event. */
  function Framed(s: string): string
    decreases |s|
  {
    var b := Boundary(s);
    if b == -1 then [] else s[..b + 2] + Framed(s[b + 2..])
  }

  lemma {:induction false} BoundaryIsBlankLine(s: string)
    requires Boundary(s) != -1
    ensures s[Boundary(s)] == '\n' && s[Boundary(s) + 1] == '\n'
    decreases |s|
  {
    if !(s[0] == '\n' && s[1] == '\n') {
      BoundaryIsBlankLine(s[1..]);
    }
  }

  /** A blank line at the end of a text is found, if there is none before. */
  lemma {:induction false} BoundaryAt(s: string, b: nat)
    requires Boundary(s) == b
    ensures Boundary(s[..b + 2]) == b
    decreases |s|
  {
    if b > 0 {
      assert s[..b + 2][1..] == s[1..][..b + 1];
      BoundaryAt(s[1..], b - 1);
    } else {
      BoundaryIsBlankLine(s);
    }
  }

  ghost predicate EndsInLf(s: string) {
    s != [] ==> s[|s| - 1] == '\n'
  }

  lemma {:induction false} FramedSplit(s: string)
    ensures s == Framed(s) + Rest(s) && EndsInLf(Framed(s))
    decreases |s|
  {
    var b := Boundary(s);
    if b != -1 {
      BoundaryIsBlankLine(s);
      FramedSplit(s[b + 2..]);
      SplitAgain(s, b + 2, Framed(s[b + 2..]), Rest(s[b + 2..]));
    }
  }

  lemma SplitAgain(s: string, from: nat, framed: string, rest: string)
    requires 0 < from <= |s| && s[from..] == framed + rest
    requires s[from - 1] == '\n' && EndsInLf(framed)
    ensures s == (s[..from] + framed) + rest && EndsInLf(s[..from] + framed)
  {
    assert s == s[..from] + s[from..];
  }

  lemma {:induction false} FramedBlocks(s: string)
    ensures Blocks(Framed(s)) == Blocks(s) && Rest(Framed(s)) == []
    decreases |s|
  {
    var b := Boundary(s);
    if b != -1 {
      var tail := s[b + 2..];
      FramedBlocks(tail);
      BoundaryAt(s, b);
      BoundaryOfLonger(s[..b + 2], Framed(tail));
      assert Framed(s)[b + 2..] == Framed(tail) && Framed(s)[..b] == s[..b];
    }
  }

  lemma {:induction false} NormalAhead(seen: string, text: string)
    requires !HasCrCrLf(seen + text)
    ensures Normal(seen + text) == Framed(Normal(seen)) + Normal(Rest(Normal(seen)) + text)
  {
    var normal := Normal(seen);
    CutOfCleanPrefix(seen, text);
    NormalTwice(seen, text);
    NormalHasNoCrLf(seen);
    FramedSplit(normal);
    var framed, rest := Framed(normal), Rest(normal);
    PartHasNoCrLf(framed, rest);
    Regroup(framed, rest, text);
    NormalKeepsPart(framed, rest + text);
  }

  lemma PartHasNoCrLf(part: string, more: string)
    requires !HasCrLf(part + more)
    ensures !HasCrLf(part)
  {
    assert forall i | 0 <= i < |part| :: part[i] == (part + more)[i];
  }

  /** One more read: what is left of the old text, with the new text, gives the events the whole text
      gives after the old ones. */
  lemma {:induction false} ReadStep(seen: string, text: string)
    requires !HasCrCrLf(seen + text)
    ensures var now := Normal(Rest(Normal(seen)) + text);
            && Blocks(Normal(seen + text)) == Blocks(Normal(seen)) + Blocks(now)
            && Rest(Normal(seen + text)) == Rest(now)
  {
    NormalAhead(seen, text);
    AfterFramed(Normal(seen), Normal(Rest(Normal(seen)) + text));
  }

  lemma {:induction false} AfterFramed(s: string, more: string)
    ensures Blocks(Framed(s) + more) == Blocks(s) + Blocks(more) && Rest(Framed(s) + more) == Rest(more)
  {
    FramedBlocks(s);
    BlocksOfLonger(Framed(s), more);
    assert [] + more == more;
  }

  lemma CutOfCleanPrefix(s: string, more: string)
    requires !HasCrCrLf(s + more)
    ensures !HasCrCrLf(s)
  {
    forall i | 0 <= i < |s| - 2
      ensures !(s[i] == '\r' && s[i + 1] == '\r' && s[i + 2] == '\n')
    {
      assert (s + more)[i] == s[i] && (s + more)[i + 1] == s[i + 1] && (s + more)[i + 2] == s[i + 2];
    }
  }

  lemma {:induction false} DeliverConcat(decode: Decoder, reply: Reply, a: seq<string>, b: seq<string>)
    ensures Deliver(decode, reply, a + b) ==
            if Deliver(decode, reply, a).Ok? then Deliver(decode, Deliver(decode, reply, a).value, b)
            else Deliver(decode, reply, a)
    decreases |a|
  {
    if a == [] {
      assert a + b == b;
    } else {
      assert (a + b)[1..] == a[1..] + b;
      var next := Event(decode, reply, a[0]);
      if next.Ok? {
        DeliverConcat(decode, next.value, a[1..], b);
      }
    }
  }

  /** All events of a text: between blank lines of the normalised text, and what is left at the end. */
  function AllBlocks(text: string): seq<string> {
    Blocks(Normal(text)) + LastBlock(Rest(Normal(text)))
  }

  function LastBlock(rest: string): seq<string> {
    if IsBlank(rest) then [] else [rest]
  }

  function Concat(parts: seq<string>): string {
    if parts == [] then [] else parts[0] + Concat(parts[1..])
  }

  /** How many blocks there are up to and including the first `[DONE]`, or all of them. */
  function UpToDone(blocks: seq<string>): (n: nat)
    ensures n <= |blocks|
  {
    if blocks == [] then 0 else if Data(blocks[0]) == DONE then 1 else 1 + UpToDone(blocks[1..])
  }

  lemma {:induction false} DeliverSetsDone(decode: Decoder, reply: Reply, blocks: seq<string>)
    requires !reply.done && Deliver(decode, reply, blocks).Ok?
    ensures Deliver(decode, reply, blocks).value.done <==> exists b <- blocks :: Data(b) == DONE
    decreases |blocks|
  {
    if blocks != [] {
      var next := Event(decode, reply, blocks[0]).value;
      if Data(blocks[0]) == DONE {
        StaysDone(decode, next, blocks[1..]);
        assert blocks[0] in blocks;
      } else {
        EventKeepsDone(decode, reply, blocks[0]);
        DeliverSetsDone(decode, next, blocks[1..]);
        assert forall b <- blocks :: b == blocks[0] || b in blocks[1..];
        assert forall b <- blocks[1..] :: b in blocks;
      }
    }
  }

  lemma {:induction false} ChoicesKeepDone(reply: Reply, choices: seq<Choice>)
    requires AddChoices(reply, choices).Ok?
    ensures AddChoices(reply, choices).value.done == reply.done
    decreases |choices|
  {
    if choices != [] {
      if !IsFirstChoice(choices[0]) {
        ChoicesKeepDone(reply, choices[1..]);
      } else {
        var calls := AddDeltas(reply.calls, choices[0].deltas);
        ChoicesKeepDone(Reply(reply.done, reply.finished || choices[0].finishes, calls.value,
                              reply.emitted + Emissions(choices[0])), choices[1..]);
      }
    }
  }

  lemma EventKeepsDone(decode: Decoder, reply: Reply, raw: string)
    requires Event(decode, reply, raw).Ok?
    ensures Event(decode, reply, raw).value.done == (reply.done || Data(raw) == DONE)
  {
    var data := Data(raw);
    if data != "" && data != DONE {
      ChoicesKeepDone(reply, decode(data).choices);
    }
  }

  lemma {:induction false} StaysDone(decode: Decoder, reply: Reply, blocks: seq<string>)
    requires reply.done && Deliver(decode, reply, blocks).Ok?
    ensures Deliver(decode, reply, blocks).value.done
    decreases |blocks|
  {
    if blocks != [] {
      EventKeepsDone(decode, reply, blocks[0]);
      StaysDone(decode, Event(decode, reply, blocks[0]).value, blocks[1..]);
    }
  }

  lemma {:induction false} UpToDonePrefix(a: seq<string>, b: seq<string>)
    requires exists x <- a :: Data(x) == DONE
    ensures UpToDone(a + b) <= |a|
    decreases |a|
  {
    if Data(a[0]) != DONE {
      assert (a + b)[1..] == a[1..] + b;
      UpToDonePrefix(a[1..], b);
    }
  }

  /** `end` is what the first `n` blocks lead to, and the first `[DONE]` is among them if there is one. */
  ghost predicate EndsAfter(decode: Decoder, reply: Reply, blocks: seq<string>, n: nat, end: Result<Reply>) {
    UpToDone(blocks) <= n <= |blocks| && end == Deliver(decode, reply, blocks[..n])
  }

  lemma {:induction false} EndsAfterAll(decode: Decoder, reply: Reply, blocks: seq<string>, end: Result<Reply>)
    requires end == Deliver(decode, reply, blocks)
    ensures EndsAfter(decode, reply, blocks, |blocks|, end)
  {
    assert blocks[..|blocks|] == blocks;
  }

  /** The blocks cut off by the reads of some parts, and what is left in the buffer. */
  function Reads(buffer: string, parts: seq<string>): (seq<string>, string)
    decreases |parts|
  {
    if parts == [] then ([], buffer)
    else
      var text := Normal(buffer + parts[0]);
      var (blocks, rest) := Reads(Rest(text), parts[1..]);
      (Blocks(text) + blocks, rest)
  }

  /** All events of a text that comes in parts: those cut off by the reads, and what is left at the end. */
  function CutBlocks(buffer: string, parts: seq<string>): seq<string> {
    Reads(buffer, parts).0 + LastBlock(Reads(buffer, parts).1)
  }

  lemma {:induction false} CutBlocksStep(buffer: string, parts: seq<string>)
    requires parts != []
    ensures var text := Normal(buffer + parts[0]);
            CutBlocks(buffer, parts) == Blocks(text) + CutBlocks(Rest(text), parts[1..])
  {
    var text := Normal(buffer + parts[0]);
    var (blocks, rest) := Reads(Rest(text), parts[1..]);
    assert (Blocks(text) + blocks) + LastBlock(rest) == Blocks(text) + (blocks + LastBlock(rest));
  }

  lemma {:induction false} UpToDoneLater(a: seq<string>, b: seq<string>)
    requires forall x <- a :: Data(x) != DONE
    ensures UpToDone(a + b) == |a| + UpToDone(b)
    decreases |a|
  {
    if a == [] {
      assert a + b == b;
    } else {
      assert a[0] in a && (a + b)[1..] == a[1..] + b;
      UpToDoneLater(a[1..], b);
    }
  }

  /** For every text, however it is cut, the loop delivers the blocks its reads cut off, in order, up to and
      including the first `[DONE]`, and maybe some that follow it. */
  lemma {:induction false} StreamDelivers(decode: Decoder, buffer: string, reply: Reply, parts: seq<string>,
                                          flush: string) returns (n: nat)
    requires !reply.done
    ensures EndsAfter(decode, reply, CutBlocks(buffer, parts + [flush]), n, Stream(decode, buffer, reply, parts, flush))
    decreases |parts|
  {
    if parts == [] {
      assert [] + [flush] == [flush];
      LastReadDelivers(decode, buffer, reply, flush);
      n := |CutBlocks(buffer, [flush])|;
      EndsAfterAll(decode, reply, CutBlocks(buffer, [flush]), Stream(decode, buffer, reply, [], flush));
    } else {
      var text := Normal(buffer + parts[0]);
      var next := Deliver(decode, reply, Blocks(text));
      StreamStep(decode, buffer, reply, parts, flush, Rest(text), next);
      assert (parts + [flush])[1..] == parts[1..] + [flush];
      CutBlocksStep(buffer, parts + [flush]);
      var m := 0;
      if next.Ok? && !next.value.done {
        m := StreamDelivers(decode, Rest(text), next.value, parts[1..], flush);
      }
      n := EndsAfterRead(decode, reply, Blocks(text), CutBlocks(Rest(text), parts[1..] + [flush]), next, m,
                         Stream(decode, buffer, reply, parts, flush));
    }
  }

  /** After a read whose events are `now`: an error or `[DONE]` ends the stream, or it goes on with `later`. */
  lemma {:induction false} EndsAfterRead(decode: Decoder, reply: Reply, now: seq<string>, later: seq<string>,
                                         next: Result<Reply>, m: nat, end: Result<Reply>) returns (n: nat)
    requires !reply.done && next == Deliver(decode, reply, now)
    requires if next.Thrown? || next.value.done then end == next else EndsAfter(decode, next.value, later, m, end)
    ensures EndsAfter(decode, reply, now + later, n, end)
  {
    if next.Thrown? {
      n := |now + later|;
      DeliverConcat(decode, reply, now, later);
      EndsAfterAll(decode, reply, now + later, end);
    } else if next.value.done {
      n := |now|;
      DoneInRead(decode, reply, now, later);
    } else {
      n := |now| + m;
      DoneAfterRead(decode, reply, now, later, m);
    }
  }

  lemma {:induction false} StreamStep(decode: Decoder, buffer: string, reply: Reply, parts: seq<string>,
                                      flush: string, rest: string, next: Result<Reply>)
    requires !reply.done && parts != [] && rest == Rest(Normal(buffer + parts[0]))
    requires next == Deliver(decode, reply, Blocks(Normal(buffer + parts[0])))
    ensures Stream(decode, buffer, reply, parts, flush) ==
            if next.Ok? && !next.value.done then Stream(decode, rest, next.value, parts[1..], flush) else next
  {
  }

  /** The read that ends the body delivers all that is left; a text left over is an event too. */
  lemma {:induction false} LastReadDelivers(decode: Decoder, buffer: string, reply: Reply, flush: string)
    requires !reply.done
    ensures UpToDone(CutBlocks(buffer, [flush])) <= |CutBlocks(buffer, [flush])|
    ensures Stream(decode, buffer, reply, [], flush) == Deliver(decode, reply, CutBlocks(buffer, [flush]))
  {
    var text := Normal(buffer + flush);
    ReadsOne(buffer, flush);
    var next := Deliver(decode, reply, Blocks(text));
    DeliverConcat(decode, reply, Blocks(text), LastBlock(Rest(text)));
    if next.Ok? {
      EndOfBody(decode, next.value, Rest(text));
    }
  }

  lemma {:induction false} DoneInRead(decode: Decoder, reply: Reply, now: seq<string>, later: seq<string>)
    requires !reply.done && Deliver(decode, reply, now).Ok? && Deliver(decode, reply, now).value.done
    ensures UpToDone(now + later) <= |now| && (now + later)[..|now|] == now
  {
    DeliverSetsDone(decode, reply, now);
    UpToDonePrefix(now, later);
  }

  lemma {:induction false} DoneAfterRead(decode: Decoder, reply: Reply, now: seq<string>, later: seq<string>, m: nat)
    requires !reply.done && Deliver(decode, reply, now).Ok? && !Deliver(decode, reply, now).value.done
    requires UpToDone(later) <= m <= |later|
    ensures UpToDone(now + later) <= |now| + m
    ensures Deliver(decode, reply, (now + later)[..|now| + m])
         == Deliver(decode, Deliver(decode, reply, now).value, later[..m])
  {
    assert (now + later)[..|now| + m] == now + later[..m];
    DeliverConcat(decode, reply, now, later[..m]);
    DeliverSetsDone(decode, reply, now);
    UpToDoneLater(now, later);
  }

  lemma {:induction false} EndOfBody(decode: Decoder, reply: Reply, rest: string)
    ensures Deliver(decode, reply, LastBlock(rest)) ==
            if IsBlank(rest) then Ok(reply) else Event(decode, reply, rest)
  {
    if !IsBlank(rest) {
      DeliverOne(decode, reply, rest);
    }
  }

  lemma {:induction false} DeliverOne(decode: Decoder, reply: Reply, raw: string)
    ensures Deliver(decode, reply, [raw]) == Event(decode, reply, raw)
  {
    assert [raw][1..] == [];
  }

  // ---------- When the cut does not matter ----------

  lemma {:induction false} ReadsStep(buffer: string, parts: seq<string>, rest: string)
    requires parts != [] && rest == Rest(Normal(buffer + parts[0]))
    ensures Reads(buffer, parts).0 == Blocks(Normal(buffer + parts[0])) + Reads(rest, parts[1..]).0
    ensures Reads(buffer, parts).1 == Reads(rest, parts[1..]).1
  {
  }

  /** Reads that follow a text already read give the events and the rest of the whole. */
  lemma {:induction false} ReadsOfClean(seen: string, parts: seq<string>)
    requires !HasCrCrLf(seen + Concat(parts))
    ensures var (blocks, rest) := Reads(Rest(Normal(seen)), parts);
            && Blocks(Normal(seen + Concat(parts))) == Blocks(Normal(seen)) + blocks
            && Rest(Normal(seen + Concat(parts))) == rest
    decreases |parts|
  {
    if parts == [] {
      assert seen + Concat(parts) == seen;
      assert Blocks(Normal(seen)) + [] == Blocks(Normal(seen));
    } else {
      var read, later := parts[0], Concat(parts[1..]);
      assert seen + Concat(parts) == (seen + read) + later;
      CutOfCleanPrefix(seen + read, later);
      ReadStep(seen, read);
      ReadsOfClean(seen + read, parts[1..]);
      ReadsStep(Rest(Normal(seen)), parts, Rest(Normal(seen + read)));
      Regroup(Blocks(Normal(seen)), Blocks(Normal(Rest(Normal(seen)) + read)),
              Reads(Rest(Normal(seen + read)), parts[1..]).0);
    }
  }

  /** The length of the text some blocks and their blank lines take. */
  function Weight(blocks: seq<string>): nat {
    if blocks == [] then 0 else |blocks[0]| + 2 + Weight(blocks[1..])
  }

  lemma {:induction false} WeightConcat(a: seq<string>, b: seq<string>)
    ensures Weight(a + b) == Weight(a) + Weight(b)
    decreases |a|
  {
    if a == [] {
      assert a + b == b;
    } else {
      assert (a + b)[1..] == a[1..] + b;
      WeightConcat(a[1..], b);
    }
  }

  lemma {:induction false} BlocksWeigh(s: string)
    ensures Weight(Blocks(s)) + |Rest(s)| == |s|
    decreases |s|
  {
    var b := Boundary(s);
    if b != -1 {
      BlocksWeigh(s[b + 2..]);
      assert Blocks(s)[1..] == Blocks(s[b + 2..]);
    }
  }

  ghost predicate EndsInCrLf(s: string) {
    |s| >= 2 && s[|s| - 2] == '\r' && s[|s| - 1] == '\n'
  }

  lemma {:induction false} NormalShrinks(s: string)
    ensures |Normal(s)| <= |s| && (EndsInCrLf(s) ==> |Normal(s)| < |s|)
    decreases |s|
  {
    if |s| >= 2 && s[0] == '\r' && s[1] == '\n' {
      NormalShrinks(s[2..]);
    } else if s != [] {
      NormalShrinks(s[1..]);
    }
  }

  /** Behind a line feed, normalising starts afresh. */
  lemma {:induction false} NormalAfterLf(s: string, more: string)
    requires s != [] && s[|s| - 1] == '\n'
    ensures Normal(s + more) == Normal(s) + Normal(more)
    decreases |s|
  {
    if |s| == 1 {
      assert s == ['\n'] && s + [] == s && Normal([]) == [];
      NormalOfOther('\n', more);
      NormalOfOther('\n', []);
    } else if s[0] == '\r' && s[1] == '\n' {
      var tail := s[2..];
      assert s == ['\r', '\n'] + tail;
      if tail == [] {
        assert tail + more == more && [] + Normal(more) == Normal(more);
      } else {
        NormalAfterLf(tail, more);
      }
      BehindCrLf(tail, more, Normal(tail), Normal(tail) + Normal(more));
      Regroup(['\n'], Normal(tail), Normal(more));
    } else {
      var tail := s[1..];
      assert s == [s[0]] + tail;
      NormalAfterLf(tail, more);
      BehindOther(s[0], tail, more, Normal(tail), Normal(tail) + Normal(more));
      Regroup([s[0]], Normal(tail), Normal(more));
    }
  }

  /** Normalising turns CR CR LF at the end into CR LF. */
  lemma {:induction false} NormalEndsInCrLf(s: string)
    requires |s| >= 3 && s[|s| - 3] == '\r' && EndsInCrLf(s)
    ensures EndsInCrLf(Normal(s))
    decreases |s|
  {
    if |s| == 3 {
      NormalOfCrLf("");
      NormalOfOther('\r', ['\r', '\n']);
      assert Normal("") == "" && ['\r', '\n'] + "" == ['\r', '\n'] && ['\n'] + "" == ['\n'];
      assert s == ['\r'] + ['\r', '\n'];
    } else if s[0] == '\r' && s[1] == '\n' {
      NormalEndsInCrLf(s[2..]);
    } else {
      NormalEndsInCrLf(s[1..]);
    }
  }

  lemma {:induction false} RestEndsInCrLf(s: string)
    requires EndsInCrLf(s)
    ensures EndsInCrLf(Rest(s))
    decreases |s|
  {
    var b := Boundary(s);
    if b != -1 {
      BoundaryIsBlankLine(s);
      RestEndsInCrLf(s[b + 2..]);
    }
  }

  /** A cut right behind CR CR LF loses a character that reading the whole at once keeps. */
  lemma {:induction false} CutLosesCr(front: string, later: string)
    requires |front| >= 3 && front[|front| - 3] == '\r' && EndsInCrLf(front)
    ensures Reads("", [front, later]) != Reads("", [front + later])
  {
    var whole, first := Normal(front + later), Normal(front);
    var second := Normal(Rest(first) + later);
    NormalEndsInCrLf(front);
    RestEndsInCrLf(first);
    NormalAfterLf(front, later);
    NormalAfterLf(Rest(first), later);
    NormalShrinks(Rest(first));
    BlocksWeigh(first);
    BlocksWeigh(second);
    BlocksWeigh(whole);
    WeightConcat(Blocks(first), Blocks(second));
    assert |second| + |first| < |whole| + |Rest(first)|;
    ReadsOne("", front + later);
    ReadsOne(Rest(first), later);
    assert "" + front == front && "" + (front + later) == front + later && [front, later][1..] == [later];
  }

  lemma {:induction false} ReadsOne(buffer: string, part: string)
    ensures var text := Normal(buffer + part);
            Reads(buffer, [part]) == (Blocks(text), Rest(text))
  {
    var text := Normal(buffer + part);
    assert [part][1..] == [] && Blocks(text) + [] == Blocks(text);
  }

  /** All cuts of a text give the blocks and the rest of the once-normalised whole if and only if the text
      has no CR CR LF. */
  lemma {:induction false} CutsReadAlike(text: string)
    ensures (forall parts | Concat(parts) == text :: Reads("", parts) == (Blocks(Normal(text)), Rest(Normal(text))))
       <==> !HasCrCrLf(text)
  {
    if HasCrCrLf(text) {
      var i :| 0 <= i < |text| - 2 && text[i] == '\r' && text[i + 1] == '\r' && text[i + 2] == '\n';
      var front, later := text[..i + 3], text[i + 3..];
      CutLosesCr(front, later);
      ConcatOfFew(front, later);
      assert front + later == text;
      assert Concat([front, later]) == Concat([text]);
    } else {
      forall parts | Concat(parts) == text
        ensures Reads("", parts) == (Blocks(Normal(text)), Rest(Normal(text)))
      {
        WholeOfClean(parts);
      }
    }
  }

  lemma {:induction false} ConcatOfFew(front: string, later: string)
    ensures Concat([front, later]) == front + later && Concat([front + later]) == front + later
  {
    assert [front, later][1..] == [later] && [later][1..] == [] && [front + later][1..] == [];
    Unsuffixed(later);
    Unsuffixed(front + later);
    assert Concat([later]) == later + Concat([]) == later;
  }

  lemma {:induction false} NothingRead()
    ensures Normal("") == "" && Blocks("") == [] && Rest("") == ""
  {
  }

  lemma {:induction false} WholeOfClean(parts: seq<string>)
    requires !HasCrCrLf(Concat(parts))
    ensures Reads("", parts) == (Blocks(Normal(Concat(parts))), Rest(Normal(Concat(parts))))
  {
    NothingRead();
    assert "" + Concat(parts) == Concat(parts);
    ReadsOfClean("", parts);
    Unprefixed(Reads("", parts).0);
  }

  lemma {:induction false} ConcatLast(parts: seq<string>, flush: string)
    ensures Concat(parts + [flush]) == Concat(parts) + flush
    decreases |parts|
  {
    if parts == [] {
      assert parts + [flush] == [flush] && [flush][1..] == [] && flush + "" == flush == "" + flush;
    } else {
      assert (parts + [flush])[1..] == parts[1..] + [flush];
      ConcatLast(parts[1..], flush);
    }
  }

  /** Nothing that matters follows the first `[DONE]`. */
  ghost predicate QuietAfterDone(blocks: seq<string>) {
    forall i | UpToDone(blocks) <= i < |blocks| :: Data(blocks[i]) == ""
  }

  lemma {:induction false} DeliverQuiet(decode: Decoder, reply: Reply, blocks: seq<string>)
    requires forall b <- blocks :: Data(b) == ""
    ensures Deliver(decode, reply, blocks) == Ok(reply)
    decreases |blocks|
  {
    if blocks != [] {
      assert blocks[0] in blocks;
      DeliverQuiet(decode, reply, blocks[1..]);
    }
  }

  /** However a text without CR CR LF is cut, the loop delivers the events of the once-normalised whole,
      in order, up to and including the first `[DONE]`, and maybe some that follow it. */
  lemma {:induction false} CutDeliversWhole(decode: Decoder, parts: seq<string>, flush: string) returns (n: nat)
    requires !HasCrCrLf(Concat(parts) + flush)
    ensures EndsAfter(decode, START, AllBlocks(Concat(parts) + flush), n, Stream(decode, "", START, parts, flush))
  {
    n := StreamDelivers(decode, "", START, parts, flush);
    ConcatLast(parts, flush);
    WholeOfClean(parts + [flush]);
  }

  /** Whatever of the events behind the first `[DONE]` is delivered, the end is the same. */
  ghost predicate EndsAlike(decode: Decoder, blocks: seq<string>) {
    forall n | UpToDone(blocks) <= n <= |blocks| ::
      Deliver(decode, START, blocks[..n]) == Deliver(decode, START, blocks)
  }

  /** Two ways of cutting the same text then end the same way. */
  lemma {:induction false} CutsAgree(decode: Decoder, parts: seq<string>, flush: string, parts': seq<string>,
                                     flush': string)
    requires Concat(parts) + flush == Concat(parts') + flush'
    requires !HasCrCrLf(Concat(parts) + flush) && EndsAlike(decode, AllBlocks(Concat(parts) + flush))
    ensures Stream(decode, "", START, parts, flush) == Stream(decode, "", START, parts', flush')
    ensures Stream(decode, "", START, parts, flush)
         == Deliver(decode, START, AllBlocks(Concat(parts) + flush))
  {
    var n := CutDeliversWhole(decode, parts, flush);
    var n' := CutDeliversWhole(decode, parts', flush');
  }

  /** That is so in particular if no event behind the first `[DONE]` has data. */
  lemma {:induction false} QuietEndsAlike(decode: Decoder, blocks: seq<string>)
    requires QuietAfterDone(blocks)
    ensures EndsAlike(decode, blocks)
  {
    forall n | UpToDone(blocks) <= n <= |blocks|
      ensures Deliver(decode, START, blocks[..n]) == Deliver(decode, START, blocks)
    {
      QuietEnd(decode, blocks, n, Deliver(decode, START, blocks[..n]));
    }
  }

  lemma {:induction false} QuietEnd(decode: Decoder, blocks: seq<string>, n: nat, end: Result<Reply>)
    requires EndsAfter(decode, START, blocks, n, end) && QuietAfterDone(blocks)
    ensures end == Deliver(decode, START, blocks)
  {
    DeliverSplit(decode, START, blocks, n);
    if end.Ok? {
      QuietFrom(blocks, n);
      DeliverQuiet(decode, end.value, blocks[n..]);
    }
  }

  /** All cuts of a text without CR CR LF end the same way if and only if the events behind its first `[DONE]`,
      delivered up to any of them, change nothing: no text, no call and no error. */
  lemma {:induction false} CutsAgreeExactly(decode: Decoder, text: string)
    requires !HasCrCrLf(text)
    ensures (forall parts, flush | Concat(parts) + flush == text ::
               Stream(decode, "", START, parts, flush) == Deliver(decode, START, AllBlocks(text)))
       <==> EndsAlike(decode, AllBlocks(text))
  {
    var blocks := AllBlocks(text);
    if EndsAlike(decode, blocks) {
      forall parts, flush | Concat(parts) + flush == text
        ensures Stream(decode, "", START, parts, flush) == Deliver(decode, START, blocks)
      {
        var n := CutDeliversWhole(decode, parts, flush);
      }
    } else {
      var parts := CutThatDiffers(decode, text);
      assert Concat(parts) + "" == text;
    }
  }

  lemma {:induction false} CutThatDiffers(decode: Decoder, text: string) returns (parts: seq<string>)
    requires !HasCrCrLf(text) && !EndsAlike(decode, AllBlocks(text))
    ensures Concat(parts) == text
    ensures Stream(decode, "", START, parts, "") != Deliver(decode, START, AllBlocks(text))
  {
    var n := EndThatDiffers(decode, AllBlocks(text));
    parts := CutThere(decode, text, n);
  }

  lemma EndThatDiffers(decode: Decoder, blocks: seq<string>) returns (n: nat)
    requires !EndsAlike(decode, blocks)
    ensures UpToDone(blocks) <= n < |blocks|
    ensures Deliver(decode, START, blocks[..n]) != Deliver(decode, START, blocks)
  {
    n :| UpToDone(blocks) <= n <= |blocks|
         && Deliver(decode, START, blocks[..n]) != Deliver(decode, START, blocks);
    assert blocks[..|blocks|] == blocks;
  }

  /** Any number of events from the first `[DONE]` on can be the ones delivered. */
  lemma {:induction false} CutThere(decode: Decoder, text: string, n: nat) returns (parts: seq<string>)
    requires !HasCrCrLf(text) && UpToDone(AllBlocks(text)) <= n < |AllBlocks(text)|
    ensures Concat(parts) == text
    ensures Stream(decode, "", START, parts, "") == Deliver(decode, START, AllBlocks(text)[..n])
  {
    var front, later := CutInTwo(text, n);
    parts := [front, later];
    ConcatOfFew(front, later);
    FirstReadEnds(decode, front, later, AllBlocks(text), n);
  }

  lemma {:induction false} CutInTwo(text: string, n: nat) returns (front: string, later: string)
    requires !HasCrCrLf(text) && n < |AllBlocks(text)|
    ensures front + later == text
    ensures Blocks(Normal(front)) <= AllBlocks(text) && |Blocks(Normal(front))| == n
  {
    var i := CutBehind(text, n);
    front, later := text[..i], text[i..];
    assert front + later == text;
    ReadStep(front, later);
  }

  lemma {:induction false} FirstReadEnds(decode: Decoder, front: string, later: string, blocks: seq<string>, n: nat)
    requires Blocks(Normal(front)) <= blocks && |Blocks(Normal(front))| == n
    requires UpToDone(blocks) <= n < |blocks|
    ensures Stream(decode, "", START, [front, later], "") == Deliver(decode, START, blocks[..n])
  {
    var now := Blocks(Normal(front));
    assert now == blocks[..n];
    DoneAmong(blocks, n);
    var next := Deliver(decode, START, now);
    if next.Ok? {
      DeliverSetsDone(decode, START, now);
    }
    Unprefixed(front);
    StreamStep(decode, "", START, [front, later], "", Rest(Normal(front)), next);
  }

  lemma {:induction false} DoneAmong(blocks: seq<string>, n: nat)
    requires UpToDone(blocks) <= n < |blocks|
    ensures exists b <- blocks[..n] :: Data(b) == DONE
    decreases |blocks|
  {
    assert blocks[0] in blocks[..n];
    if Data(blocks[0]) != DONE {
      DoneAmong(blocks[1..], n - 1);
      assert forall b <- blocks[1..][..n - 1] :: b in blocks[..n];
    }
  }

  /** A text can be cut behind any of its events, since one more character ends at most one. */
  lemma {:induction false} CutBehind(text: string, n: nat) returns (i: nat)
    requires !HasCrCrLf(text) && n <= |Blocks(Normal(text))|
    ensures i <= |text| && |Blocks(Normal(text[..i]))| == n
    decreases |text|
  {
    if n == |Blocks(Normal(text))| {
      i := |text|;
      assert text[..i] == text;
    } else {
      NothingRead();
      var front, last := text[..|text| - 1], text[|text| - 1];
      assert text == front + [last];
      CutOfCleanPrefix(front, [last]);
      OneMoreChar(front, last);
      i := CutBehind(front, n);
      assert text[..i] == front[..i];
    }
  }

  lemma {:induction false} OneMoreChar(seen: string, c: char)
    requires !HasCrCrLf(seen + [c])
    ensures |Blocks(Normal(seen + [c]))| <= |Blocks(Normal(seen))| + 1
  {
    var framed, rest := Framed(Normal(seen)), Rest(Normal(seen));
    CutOfCleanPrefix(seen, [c]);
    NormalHasNoCrLf(seen);
    FramedSplit(Normal(seen));
    RestHasNoCrLf(framed, rest);
    RestHasNoBlankLine(Normal(seen));
    NormalOfLast(rest, c);
    if rest != [] {
      NoBlankLineInPart(rest, |rest| - 1);
      AtMostOneBlock(rest[..|rest| - 1], c);
    }
    AtMostOneBlock(rest, c);
    ReadStep(seen, [c]);
  }

  lemma RestHasNoCrLf(part: string, rest: string)
    requires !HasCrLf(part + rest)
    ensures !HasCrLf(rest)
  {
    assert forall i | 0 <= i < |rest| :: rest[i] == (part + rest)[|part| + i];
  }

  /** A character behind a text without CR LF makes a line end of a carriage return, or stands as it is. */
  function Ended(s: string, c: char): string {
    if s != [] && s[|s| - 1] == '\r' && c == '\n' then s[..|s| - 1] + [c] else s + [c]
  }

  lemma EndedBehind(d: char, tail: string, c: char)
    requires tail != []
    ensures Ended([d] + tail, c) == [d] + Ended(tail, c)
  {
    var s := [d] + tail;
    assert s[..|s| - 1] == [d] + tail[..|tail| - 1];
  }

  lemma {:induction false} EndedOne(d: char, c: char)
    ensures Normal([d] + [c]) == Ended([d], c)
  {
    assert [d][..0] == [] && [c] + [] == [c] && [d, c] + [] == [d, c];
    NormalOfOther(c, []);
    if d == '\r' && c == '\n' {
      NormalOfCrLf([]);
    } else {
      NormalOfOther(d, [c]);
    }
  }

  lemma {:induction false} NormalOfLast(s: string, c: char)
    requires !HasCrLf(s)
    ensures Normal(s + [c]) == Ended(s, c)
    decreases |s|
  {
    if s == [] {
      NormalOfOther(c, []);
      Unsuffixed([c]);
      Unprefixed([c]);
    } else {
      var tail := s[1..];
      assert s == [s[0]] + tail;
      if tail == [] {
        EndedOne(s[0], c);
      } else {
        RestHasNoCrLf([s[0]], tail);
        NormalOfLast(tail, c);
        BehindOther(s[0], tail, [c], Normal(tail), Ended(tail, c));
        EndedBehind(s[0], tail, c);
      }
    }
  }

  lemma {:induction false} RestHasNoBlankLine(s: string)
    ensures Boundary(Rest(s)) == -1
    decreases |s|
  {
    if Boundary(s) != -1 {
      RestHasNoBlankLine(s[Boundary(s) + 2..]);
    }
  }

  lemma {:induction false} NoBlankLineInPart(s: string, k: nat)
    requires k <= |s| && Boundary(s) == -1
    ensures Boundary(s[..k]) == -1
  {
    assert s == s[..k] + s[k..];
    if Boundary(s[..k]) != -1 {
      BoundaryOfLonger(s[..k], s[k..]);
    }
  }

  lemma {:induction false} AtMostOneBlock(s: string, c: char)
    requires Boundary(s) == -1
    ensures |Blocks(s + [c])| <= 1
  {
    var t := s + [c];
    var b := Boundary(t);
    if b != -1 {
      if b + 2 <= |s| {
        assert t[..b + 2] == s[..b + 2];
        NoBlankLineInPart(s, b + 2);
        BoundaryAt(t, b);
        assert false;
      }
      assert t[b + 2..] == [] && Blocks([]) == [];
    }
  }

  lemma {:induction false} DeliverSplit(decode: Decoder, reply: Reply, blocks: seq<string>, n: nat)
    requires n <= |blocks|
    ensures var first := Deliver(decode, reply, blocks[..n]);
            Deliver(decode, reply, blocks) == if first.Ok? then Deliver(decode, first.value, blocks[n..]) else first
  {
    assert blocks == blocks[..n] + blocks[n..];
    DeliverConcat(decode, reply, blocks[..n], blocks[n..]);
  }

  lemma {:induction false} QuietFrom(blocks: seq<string>, n: nat)
    requires UpToDone(blocks) <= n <= |blocks| && QuietAfterDone(blocks)
    ensures forall b <- blocks[n..] :: Data(b) == ""
  {
    forall i | 0 <= i < |blocks[n..]|
      ensures Data(blocks[n..][i]) == ""
    {
      assert blocks[n..][i] == blocks[n + i];
    }
  }

  lemma {:induction false} BoundaryAfterLine(line: string, more: string)
    requires '\n' !in line
    ensures Boundary(line + more) == if Boundary(more) == -1 then -1 else |line| + Boundary(more)
    decreases |line|
  {
    if line == [] {
      assert line + more == more;
    } else {
      assert (line + more)[1..] == line[1..] + more;
      BoundaryAfterLine(line[1..], more);
    }
  }

  /** A line, what the first read adds to it, and the blank line it ends with. */
  lemma {:induction false} OneBlock(line: string, more: string)
    requires '\n' !in line && 2 <= |more| && Boundary(more) == |more| - 2
    ensures Blocks(line + more) == [line + more[..|more| - 2]] && Rest(line + more) == ""
  {
    BoundaryAfterLine(line, more);
    var s := line + more;
    assert s[..|s| - 2] == line + more[..|more| - 2];
    assert s[|s| - 2 + 2..] == "";
    assert Blocks("") == [] && Rest("") == "";
  }

  lemma {:induction false} LastRead(decode: Decoder, reply: Reply)
    ensures Stream(decode, "", reply, [], "") == Ok(reply)
  {
    assert Normal("" + "") == "" && Blocks("") == [] && Rest("") == "";
  }

  lemma {:induction false} OneLine(line: string)
    requires '\n' !in line
    ensures Split(line, '\n') == [line]
    decreases |line|
  {
    if line != [] {
      OneLine(line[1..]);
      assert line == [line[0]] + line[1..];
    }
  }

  /** A data line carries what follows the field name and white space. */
  lemma {:induction false} DataOfLine(data: string, line: string)
    requires '\n' !in data && data != [] && !IsSpace(data[0]) && line == DATA + [' '] + data
    ensures '\n' !in line && Data(line) == data
  {
    assert '\n' !in DATA by {
      assert |DATA| == 5;
      assert forall i | 0 <= i < |DATA| :: DATA[i] != '\n';
    }
    OneLine(line);
    assert line[|DATA|..] == [' '] + data && ([' '] + data)[1..] == data;
    assert IsSpace(' ');
    assert TrimStart([' '] + data) == TrimStart(data) == data;
    assert DataLines([line]) == [data] by {
      assert [line][1..] == [] && DATA <= line;
    }
    assert Join([data], "\n") == data;
  }

  const DONE_LINE := DATA + [' '] + DONE

  lemma {:induction false} DoneLineIsDone()
    ensures '\r' !in DONE_LINE && '\n' !in DONE_LINE
    ensures Data(DONE_LINE) == DONE && Data(DONE_LINE + ['\r']) != DONE
  {
    assert |DONE| == 6;
    assert forall i | 0 <= i < |DONE| :: DONE[i] != '\n' && DONE[i] != '\r';
    assert |DATA| == 5;
    assert forall i | 0 <= i < |DATA| :: DATA[i] != '\r';
    assert !IsSpace(DONE[0]);
    DataOfLine(DONE, DONE_LINE);
    DataOfLine(DONE + ['\r'], DONE_LINE + ['\r']);
  }

  /** With CR CR LF the cut matters: read at once the last line is not the end of the stream, read in two
      parts it is, whatever the decoder makes of it. */
  lemma {:induction false} CrCrLfDependsOnCut(decode: Decoder)
    ensures var one, two := [DONE_LINE + "\r\r\n\n"], [DONE_LINE + "\r\r\n", "\n"];
            Concat(one) == Concat(two)
            && Stream(decode, "", START, one, "") != Stream(decode, "", START, two, "")
  {
    DoneLineIsDone();
    OneCut(decode, DONE_LINE);
    TwoCuts(decode, DONE_LINE);
    SameText(DONE_LINE);
    DeliverOne(decode, START, DONE_LINE);
    DeliverOne(decode, START, DONE_LINE + ['\r']);
    var end := Event(decode, START, DONE_LINE + ['\r']);
    if end.Ok? {
      EventKeepsDone(decode, START, DONE_LINE + ['\r']);
    }
  }

  lemma {:induction false} SameText(line: string)
    ensures Concat([line + "\r\r\n\n"]) == Concat([line + "\r\r\n", "\n"])
  {
    var one, first, second := line + "\r\r\n\n", line + "\r\r\n", "\n";
    assert [one][1..] == [] && [first, second][1..] == [second] && [second][1..] == [];
    assert one + "" == one == first + (second + "");
  }

  lemma {:induction false} NormalLine(line: string, more: string)
    requires '\r' !in line
    ensures Normal(line + more) == line + Normal(more)
  {
    NormalKeepsPart(line, more);
  }

  lemma OneCut(decode: Decoder, line: string)
    requires '\r' !in line && '\n' !in line
    ensures Stream(decode, "", START, [line + "\r\r\n\n"], "") == Deliver(decode, START, [line + ['\r']])
  {
    var text := line + "\r\r\n\n";
    assert "" + text == text && [text][1..] == [];
    NormalLine(line, "\r\r\n\n");
    assert Normal("\r\r\n\n") == "\r\n\n" by {
      assert "\r\r\n\n"[1..] == "\r\n\n" && "\r\n\n"[2..] == "\n" && "\n"[1..] == "";
    }
    assert Boundary("\r\n\n") == 1 by {
      assert "\r\n\n"[1..] == "\n\n";
    }
    OneBlock(line, "\r\n\n");
    assert "\r\n\n"[..1] == ['\r'];
    var next := Deliver(decode, START, [line + ['\r']]);
    if next.Ok? {
      LastRead(decode, next.value);
    }
  }

  lemma FirstOfTwo()
    ensures Normal("\r\r\n") == "\r\n" && Boundary("\r\n") == -1
  {
    assert "\r\r\n"[1..] == "\r\n" && "\r\n"[2..] == "" && "\r\n"[1..] == "\n";
  }

  lemma SecondOfTwo()
    ensures "\r\n" + "\n" == "\r\n\n" && Normal("\r\n\n") == "\n\n" && Boundary("\n\n") == 0
  {
    assert "\r\n\n"[2..] == "\n" && "\n"[1..] == "";
  }

  lemma TwoCuts(decode: Decoder, line: string)
    requires '\r' !in line && '\n' !in line
    ensures Stream(decode, "", START, [line + "\r\r\n", "\n"], "") == Deliver(decode, START, [line])
  {
    var first, second := line + "\r\r\n", "\n";
    assert "" + first == first && [first, second][1..] == [second] && [second][1..] == [];
    NormalLine(line, "\r\r\n");
    FirstOfTwo();
    BoundaryAfterLine(line, "\r\n");
    assert Stream(decode, "", START, [first, second], "") == Stream(decode, line + "\r\n", START, [second], "");
    Regroup(line, "\r\n", second);
    NormalLine(line, "\r\n\n");
    SecondOfTwo();
    OneBlock(line, "\n\n");
    assert line + "\n\n"[..0] == line;
    var next := Deliver(decode, START, [line]);
    if next.Ok? {
      LastRead(decode, next.value);
    }
  }

  // ---------- Tool calls from fragments ----------

  function IdOf(deltas: seq<Delta>, index: Index): string {
    if deltas == [] then ""
    else (if deltas[0].index == index then deltas[0].id else "") + IdOf(deltas[1..], index)
  }

  function NameOf(deltas: seq<Delta>, index: Index): string {
    if deltas == [] then ""
    else (if deltas[0].index == index then deltas[0].name else "") + NameOf(deltas[1..], index)
  }

  function ArgumentsOf(deltas: seq<Delta>, index: Index): string {
    if deltas == [] then ""
    else (if deltas[0].index == index then deltas[0].arguments else "") + ArgumentsOf(deltas[1..], index)
  }

  /** The call whose parts are all fragments for an index, in order. */
  function Assembled(deltas: seq<Delta>, index: Index): Call {
    Call(IdOf(deltas, index), NameOf(deltas, index), ArgumentsOf(deltas, index))
  }

  function Indexes(deltas: seq<Delta>): set<Index> {
    set d <- deltas :: d.index
  }

  function ChoiceDeltas(choices: seq<Choice>): seq<Delta> {
    if choices == [] then []
    else (if IsFirstChoice(choices[0]) then choices[0].deltas else []) + ChoiceDeltas(choices[1..])
  }

  function BlockDeltas(decode: Decoder, raw: string): seq<Delta> {
    var data := Data(raw);
    if data == "" || data == DONE || !decode(data).Chunk? then [] else ChoiceDeltas(decode(data).choices)
  }

  /** Every tool-call fragment of some blocks, in order. */
  function Fragments(decode: Decoder, blocks: seq<string>): seq<Delta> {
    if blocks == [] then [] else BlockDeltas(decode, blocks[0]) + Fragments(decode, blocks[1..])
  }

  function Joined(a: Call, b: Call): Call {
    Call(a.id + b.id, a.name + b.name, a.arguments + b.arguments)
  }

  /** Each index holds what it held and then its fragments, and stays within the limits. */
  ghost predicate Grown(calls: map<Index, Call>, deltas: seq<Delta>, next: map<Index, Call>) {
    && next.Keys == calls.Keys + Indexes(deltas)
    && (forall i <- next :: next[i] == Joined(CallAt(calls, i), Assembled(deltas, i)))
    && (forall i <- Indexes(deltas) :: WithinLimits(next[i]))
  }

  lemma {:induction false} NotNamed(deltas: seq<Delta>, index: Index)
    requires index !in Indexes(deltas)
    ensures Assembled(deltas, index) == Call("", "", "")
    decreases |deltas|
  {
    if deltas != [] {
      assert deltas[0] in deltas;
      assert Indexes(deltas[1..]) <= Indexes(deltas);
      NotNamed(deltas[1..], index);
    }
  }

  lemma {:induction false} AssembledConcat(a: seq<Delta>, b: seq<Delta>, index: Index)
    ensures Assembled(a + b, index) == Joined(Assembled(a, index), Assembled(b, index))
    decreases |a|
  {
    if a == [] {
      assert a + b == b;
    } else {
      assert (a + b)[1..] == a[1..] + b;
      AssembledConcat(a[1..], b, index);
    }
  }

  lemma JoinedAssociates(a: Call, b: Call, c: Call)
    ensures Joined(Joined(a, b), c) == Joined(a, Joined(b, c))
  {
    assert (a.id + b.id) + c.id == a.id + (b.id + c.id);
    assert (a.name + b.name) + c.name == a.name + (b.name + c.name);
    assert (a.arguments + b.arguments) + c.arguments == a.arguments + (b.arguments + c.arguments);
  }

  lemma JoinedWithNothing(a: Call)
    ensures Joined(a, Call("", "", "")) == a == Joined(Call("", "", ""), a)
  {
    assert a.id + "" == a.id == "" + a.id;
    assert a.name + "" == a.name == "" + a.name;
    assert a.arguments + "" == a.arguments == "" + a.arguments;
  }

  lemma GrownTwiceAt(calls: map<Index, Call>, a: seq<Delta>, mid: map<Index, Call>, b: seq<Delta>,
                     next: map<Index, Call>, i: Index)
    requires Grown(calls, a, mid) && Grown(mid, b, next) && i in next
    ensures next[i] == Joined(CallAt(calls, i), Assembled(a + b, i))
  {
    AssembledConcat(a, b, i);
    if i !in mid {
      NotNamed(a, i);
      JoinedWithNothing(CallAt(calls, i));
    }
    assert CallAt(mid, i) == Joined(CallAt(calls, i), Assembled(a, i));
    JoinedAssociates(CallAt(calls, i), Assembled(a, i), Assembled(b, i));
  }

  lemma Ungrown(mid: map<Index, Call>, b: seq<Delta>, next: map<Index, Call>, i: Index)
    requires Grown(mid, b, next) && i in mid && i !in Indexes(b)
    ensures next[i] == mid[i]
  {
    NotNamed(b, i);
    JoinedWithNothing(mid[i]);
  }

  /** Growing by some fragments and then by more is growing by all of them. */
  lemma GrownTwice(calls: map<Index, Call>, a: seq<Delta>, mid: map<Index, Call>, b: seq<Delta>, next: map<Index, Call>)
    requires Grown(calls, a, mid) && Grown(mid, b, next)
    ensures Grown(calls, a + b, next)
  {
    assert Indexes(a + b) == Indexes(a) + Indexes(b);
    GrownValues(calls, a, mid, b, next);
    GrownLimits(calls, a, mid, b, next);
  }

  lemma GrownValues(calls: map<Index, Call>, a: seq<Delta>, mid: map<Index, Call>, b: seq<Delta>,
                    next: map<Index, Call>)
    requires Grown(calls, a, mid) && Grown(mid, b, next)
    ensures forall i <- next :: next[i] == Joined(CallAt(calls, i), Assembled(a + b, i))
  {
    forall i <- next
      ensures next[i] == Joined(CallAt(calls, i), Assembled(a + b, i))
    {
      GrownTwiceAt(calls, a, mid, b, next, i);
    }
  }

  lemma GrownLimits(calls: map<Index, Call>, a: seq<Delta>, mid: map<Index, Call>, b: seq<Delta>,
                    next: map<Index, Call>)
    requires Grown(calls, a, mid) && Grown(mid, b, next)
    ensures forall i <- Indexes(a) + Indexes(b) :: i in next && WithinLimits(next[i])
  {
    forall i <- Indexes(a) - Indexes(b)
      ensures i in next && WithinLimits(next[i])
    {
      Ungrown(mid, b, next, i);
    }
  }

  lemma AssembledOne(d: Delta, i: Index)
    ensures Assembled([d], i) == if i == d.index then Call(d.id, d.name, d.arguments) else Call("", "", "")
  {
    assert [d][1..] == [];
    JoinedWithNothing(Call(d.id, d.name, d.arguments));
    var here := i == d.index;
    assert IdOf([d], i) == (if here then d.id else "") + IdOf([], i);
    assert NameOf([d], i) == (if here then d.name else "") + NameOf([], i);
    assert ArgumentsOf([d], i) == (if here then d.arguments else "") + ArgumentsOf([], i);
  }

  lemma GrownByOne(calls: map<Index, Call>, d: Delta)
    requires WithinLimits(Extend(CallAt(calls, d.index), d))
    ensures Grown(calls, [d], calls[d.index := Extend(CallAt(calls, d.index), d)])
  {
    assert Indexes([d]) == {d.index};
    forall i: Index {
      AssembledOne(d, i);
    }
    forall i <- calls
      ensures Joined(calls[i], Call("", "", "")) == calls[i]
    {
      JoinedWithNothing(calls[i]);
    }
  }

  lemma {:induction false} AddDeltasGrows(calls: map<Index, Call>, deltas: seq<Delta>)
    requires AddDeltas(calls, deltas).Some?
    ensures Grown(calls, deltas, AddDeltas(calls, deltas).value)
    decreases |deltas|
  {
    if deltas == [] {
      GrownByNone(calls);
    } else {
      var d := deltas[0];
      var mid := calls[d.index := Extend(CallAt(calls, d.index), d)];
      GrownByOne(calls, d);
      AddDeltasGrows(mid, deltas[1..]);
      GrownTwice(calls, [d], mid, deltas[1..], AddDeltas(calls, deltas).value);
      assert deltas == [d] + deltas[1..];
    }
  }

  lemma GrownByNone(calls: map<Index, Call>)
    ensures Grown(calls, [], calls)
  {
    forall i <- calls
      ensures calls[i] == Joined(calls[i], Assembled([], i))
    {
      JoinedWithNothing(calls[i]);
    }
  }

  lemma {:induction false} AddChoicesGrows(reply: Reply, choices: seq<Choice>)
    requires AddChoices(reply, choices).Ok?
    ensures Grown(reply.calls, ChoiceDeltas(choices), AddChoices(reply, choices).value.calls)
    decreases |choices|
  {
    if choices == [] {
      GrownByNone(reply.calls);
    } else if !IsFirstChoice(choices[0]) {
      AddChoicesGrows(reply, choices[1..]);
      assert [] + ChoiceDeltas(choices[1..]) == ChoiceDeltas(choices[1..]);
    } else {
      var calls := AddDeltas(reply.calls, choices[0].deltas).value;
      var mid := Reply(reply.done, reply.finished || choices[0].finishes, calls,
                       reply.emitted + Emissions(choices[0]));
      AddDeltasGrows(reply.calls, choices[0].deltas);
      AddChoicesGrows(mid, choices[1..]);
      GrownTwice(reply.calls, choices[0].deltas, calls, ChoiceDeltas(choices[1..]),
                 AddChoices(reply, choices).value.calls);
    }
  }

  lemma {:induction false} DeliverGrows(decode: Decoder, reply: Reply, blocks: seq<string>)
    requires Deliver(decode, reply, blocks).Ok?
    ensures Grown(reply.calls, Fragments(decode, blocks), Deliver(decode, reply, blocks).value.calls)
    decreases |blocks|
  {
    GrownByNone(reply.calls);
    if blocks != [] {
      var mid := Event(decode, reply, blocks[0]).value;
      var data := Data(blocks[0]);
      if data != "" && data != DONE {
        AddChoicesGrows(reply, decode(data).choices);
      }
      DeliverGrows(decode, mid, blocks[1..]);
      GrownTwice(reply.calls, BlockDeltas(decode, blocks[0]), mid.calls, Fragments(decode, blocks[1..]),
                 Deliver(decode, reply, blocks).value.calls);
    }
  }

  /** The calls named by some fragments, whole, in index order. */
  function AssembledFrom(deltas: seq<Delta>, from: nat): seq<Call>
    decreases 4 - from
  {
    if from >= 4 then []
    else (if from in Indexes(deltas) then [Assembled(deltas, from)] else []) + AssembledFrom(deltas, from + 1)
  }

  lemma {:induction false} CallsAreAssembled(deltas: seq<Delta>, calls: map<Index, Call>, from: nat)
    requires Grown(map[], deltas, calls)
    ensures CallsFrom(calls, from) == AssembledFrom(deltas, from)
    decreases 4 - from
  {
    if from < 4 {
      CallsAreAssembled(deltas, calls, from + 1);
      if from in calls {
        var a := Assembled(deltas, from);
        assert "" + a.id == a.id && "" + a.name == a.name && "" + a.arguments == a.arguments;
        assert calls[from] == Joined(CallAt(map[], from), a);
      }
    }
  }

  /** A stream that succeeds, cut anywhere, yields each tool call whole: its fragments from the events that
      were delivered, in order, however they were interleaved, in index order, with distinct nonempty ids and
      within the limits. */
  lemma {:induction false} CallsAreWhole(decode: Decoder, parts: seq<string>, flush: string) returns (n: nat)
    requires Conclude(Stream(decode, "", START, parts, flush)).Ok?
    ensures var calls := Conclude(Stream(decode, "", START, parts, flush)).value.calls;
            var blocks := CutBlocks("", parts + [flush]);
            && UpToDone(blocks) <= n <= |blocks|
            && var fragments := Fragments(decode, blocks[..n]);
            && calls == AssembledFrom(fragments, 0)
            && (forall call <- calls :: call.id != "" && call.name != "")
            && (forall i, j | 0 <= i < j < |calls| :: calls[i].id != calls[j].id)
            && forall i <- Indexes(fragments) ::
                 var call := Assembled(fragments, i);
                 |call.id| <= 256 && |call.name| <= 128 && |call.arguments| <= 20000
  {
    n := StreamDelivers(decode, "", START, parts, flush);
    ConcludedIsWhole(decode, CutBlocks("", parts + [flush])[..n], Stream(decode, "", START, parts, flush));
  }

  lemma {:induction false} ConcludedIsWhole(decode: Decoder, blocks: seq<string>, end: Result<Reply>)
    requires end == Deliver(decode, START, blocks) && Conclude(end).Ok?
    ensures var calls, fragments := Conclude(end).value.calls, Fragments(decode, blocks);
            && calls == AssembledFrom(fragments, 0)
            && (forall call <- calls :: call.id != "" && call.name != "")
            && (forall i, j | 0 <= i < j < |calls| :: calls[i].id != calls[j].id)
            && forall i <- Indexes(fragments) ::
                 var call := Assembled(fragments, i);
                 |call.id| <= 256 && |call.name| <= 128 && |call.arguments| <= 20000
  {
    DeliveredCallsAreWhole(decode, blocks);
  }

  lemma {:induction false} DeliveredCallsAreWhole(decode: Decoder, blocks: seq<string>)
    requires Deliver(decode, START, blocks).Ok?
    ensures var calls := CallsFrom(Deliver(decode, START, blocks).value.calls, 0);
            var fragments := Fragments(decode, blocks);
            && calls == AssembledFrom(fragments, 0)
            && forall i <- Indexes(fragments) :: WithinLimits(Assembled(fragments, i))
  {
    DeliverGrows(decode, START, blocks);
    var end := Deliver(decode, START, blocks).value;
    CallsAreAssembled(Fragments(decode, blocks), end.calls, 0);
    AssembledWithin(Fragments(decode, blocks), end.calls);
  }

  lemma AssembledWithin(deltas: seq<Delta>, calls: map<Index, Call>)
    requires Grown(map[], deltas, calls)
    ensures forall i <- Indexes(deltas) :: WithinLimits(Assembled(deltas, i))
  {
    forall i <- Indexes(deltas)
      ensures WithinLimits(Assembled(deltas, i))
    {
      JoinedWithNothing(Assembled(deltas, i));
      assert calls[i] == Joined(CallAt(map[], i), Assembled(deltas, i));
    }
  }
}
