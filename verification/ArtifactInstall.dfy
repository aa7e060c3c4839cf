/** Resumable, verified installation of one model artifact.

    The directory holds two files: the published `output`, and `partial`, the download in progress.
    `Attempt` gives every content the directory has during one call of `installArtifact`, one entry
    for each file effect, so an interruption leaves one of those entries behind. `ArtifactStore` runs
    the same call as code. The lemmas are about any number of attempts, each with its own server and
    each possibly cut. */
module ArtifactInstall {
  import opened Bytes
  import opened Options
  import opened Sequences

  datatype File = Absent | Present(bytes: Bytes)

  datatype Files = Files(output: File, partial: File)

  function Length(file: File): nat {
    if file.Present? then |file.bytes| else 0
  }

  /** What the catalog pins: a size, and which byte strings pass the SHA-256 check. */
  datatype Authority = Authority(size: nat, valid: Bytes -> bool)

  /** The size is checked before the digest, and both must be pinned; a size is positive. */
  ghost predicate Pinned(a: Authority) {
    && 0 < a.size
    && forall b :: a.valid(b) ==> |b| == a.size
  }

  /** Only `content` passes the digest check. */
  ghost predicate PinnedTo(a: Authority, content: Bytes) {
    && 0 < a.size == |content|
    && forall b :: a.valid(b) <==> b == content
  }

  // ---------- The server ----------

  datatype Header<+T> = Missing | Malformed | Header(value: T)

  /** `bytes first-last/total` (section 14.4 of RFC 9110). */
  datatype ContentRange = ContentRange(first: nat, last: nat, total: nat)

  /** A body arrives in chunks and then either closes or breaks off. */
  datatype Body = NoBody | Body(chunks: seq<Bytes>, broken: bool)

  datatype Reply =
    | Unreachable
    | Reply(status: nat, length: Header<nat>, range: Header<ContentRange>, body: Body)

  /** What one attempt meets: the reply to a request from each offset, and whether either of the two
      verifications an attempt can run fails for a reason other than the content. */
  datatype World = World(server: nat -> Reply, firstCheckBreaks: bool, lastCheckBreaks: bool)

  /** `parseDownloadResponse`, with the `response.ok` test before it. */
  predicate Acceptable(reply: Reply, offset: nat, size: nat) {
    && reply.Reply?
    && 200 <= reply.status < 300
    && !reply.length.Malformed?
    && if offset == 0 then
         && reply.status == 200
         && reply.range.Missing?
         && (reply.length.Header? ==> reply.length.value == size)
       else
         && reply.status == 206
         && reply.range.Header?
         && var r := reply.range.value;
            && r.first == offset
            && r.first <= r.last < r.total == size
            && (reply.length.Header? ==> reply.length.value == r.last - r.first + 1)
  }

  // ---------- One attempt, as the list of contents it goes through ----------

  datatype Outcome = Going | Installed | Failed

  /** The contents after each file effect, oldest first, and how the code went on. */
  datatype Run = Run(states: seq<Files>, outcome: Outcome)

  function Last(before: Files, states: seq<Files>): Files {
    if states == [] then before else states[|states| - 1]
  }

  /** The first part of a run and, if it did not end the call, the next part. */
  function Then(first: Run, second: Run): Run {
    if first.outcome.Going? then Run(first.states + second.states, second.outcome) else first
  }

  function SettleOutput(a: Authority, f: Files, w: World): Run {
    match f.output
    case Absent => Run([], Going)
    case Present(existing) =>
      if |existing| < a.size then
        if f.partial.Absent? then
          Run([Files(Absent, f.output)], Going)
        else if |f.partial.bytes| > a.size || |existing| > |f.partial.bytes| then
          Run([Files(f.output, Absent), Files(Absent, f.output)], Going)
        else
          Run([Files(Absent, f.partial)], Going)
      else if a.valid(existing) && !w.firstCheckBreaks then
        Run([], Installed)
      else
        Run([Files(Absent, f.partial), Files(Absent, Absent)], Going)
  }

  function SettlePartial(a: Authority, f: Files, w: World): Run {
    match f.partial
    case Absent => Run([], Going)
    case Present(kept) =>
      if |kept| > a.size then
        Run([Files(f.output, Absent)], Going)
      else if |kept| < a.size then
        Run([], Going)
      else if a.valid(kept) && !w.firstCheckBreaks then
        Run([Files(f.partial, Absent)], Installed)
      else
        Run([Files(f.output, Absent)], Going)
  }

  /** A write can be cut after any of its bytes. */
  function Torn(f: Files, chunk: Bytes): seq<Files>
    requires f.partial.Present?
  {
    seq(|chunk|, k requires 0 <= k < |chunk| => f.(partial := Present(f.partial.bytes + chunk[..k + 1])))
  }

  function Appended(f: Files, chunk: Bytes): Files
    requires f.partial.Present?
  {
    f.(partial := Present(f.partial.bytes + chunk))
  }

  lemma TornEndsAppended(f: Files, chunk: Bytes)
    requires f.partial.Present?
    ensures Last(f, Torn(f, chunk)) == Appended(f, chunk)
  {
    if chunk == [] {
      assert f.partial.bytes + chunk == f.partial.bytes;
    } else {
      assert chunk[..|chunk| - 1 + 1] == chunk;
    }
  }

  function Receive(a: Authority, f: Files, chunks: seq<Bytes>, broken: bool): (r: Run)
    requires f.partial.Present?
    ensures !r.outcome.Installed?
    decreases |chunks|
  {
    if chunks == [] then
      Run([], if broken || |f.partial.bytes| != a.size then Failed else Going)
    else if |f.partial.bytes| + |chunks[0]| > a.size then
      Run([], Failed)
    else
      Then(Run(Torn(f, chunks[0]), Going), Receive(a, Appended(f, chunks[0]), chunks[1..], broken))
  }

  /** Of a body, the first chunks have been written: `logged` gives the contents gone through, `now` the last. */
  ghost predicate Received(a: Authority, start: Files, chunks: seq<Bytes>, broken: bool, n: nat, logged: seq<Files>,
                           now: Files)
  {
    && start.partial.Present? && now.partial.Present? && n <= |chunks|
    && now == Last(start, logged)
    && var whole, rest := Receive(a, start, chunks, broken), Receive(a, now, chunks[n..], broken);
       whole == Run(logged + rest.states, rest.outcome)
  }

  lemma {:induction false} NothingReceived(a: Authority, start: Files, chunks: seq<Bytes>, broken: bool)
    requires start.partial.Present?
    ensures Received(a, start, chunks, broken, 0, [], start)
  {
    assert chunks[0..] == chunks;
    Unprefixed(Receive(a, start, chunks, broken).states);
  }

  lemma {:induction false} OneMoreReceived(a: Authority, start: Files, chunks: seq<Bytes>, broken: bool, n: nat,
                                           logged: seq<Files>, now: Files)
    requires n < |chunks| && Received(a, start, chunks, broken, n, logged, now)
    ensures if |now.partial.bytes| + |chunks[n]| > a.size then
              Receive(a, start, chunks, broken) == Run(logged, Failed)
            else
              Received(a, start, chunks, broken, n + 1, logged + Torn(now, chunks[n]), Appended(now, chunks[n]))
  {
    assert chunks[n..][0] == chunks[n] && chunks[n..][1..] == chunks[n + 1..];
    Unsuffixed(logged);
    if |now.partial.bytes| + |chunks[n]| <= a.size {
      TornEndsAppended(now, chunks[n]);
      Regroup(logged, Torn(now, chunks[n]), Receive(a, Appended(now, chunks[n]), chunks[n + 1..], broken).states);
      LastOfBoth(start, logged, Torn(now, chunks[n]));
    }
  }

  lemma {:induction false} AllReceived(a: Authority, start: Files, chunks: seq<Bytes>, broken: bool, logged: seq<Files>,
                                       now: Files)
    requires Received(a, start, chunks, broken, |chunks|, logged, now)
    ensures Receive(a, start, chunks, broken)
         == Run(logged, if broken || |now.partial.bytes| != a.size then Failed else Going)
  {
    Unsuffixed(logged);
  }

  function CheckAndPublish(a: Authority, f: Files, w: World): Run
    requires f.partial.Present?
  {
    if a.valid(f.partial.bytes) && !w.lastCheckBreaks then
      Run([Files(f.partial, Absent)], Installed)
    else
      Run([Files(f.output, Absent)], Failed)
  }

  function Download(a: Authority, f: Files, w: World): Run {
    var reply := w.server(Length(f.partial));
    if !Acceptable(reply, Length(f.partial), a.size) || reply.body.NoBody? then
      Run(if f.partial == Present([]) then [Files(f.output, Absent)] else [], Failed)
    else
      var ready := if f.partial.Present? then f else Files(f.output, Present([]));
      var received := Receive(a, ready, reply.body.chunks, reply.body.broken);
      var done := Last(ready, received.states);
      Then(Then(Run([ready], Going), received),
           if done.partial.Present? then CheckAndPublish(a, done, w) else Run([], Failed))
  }

  function Attempt(a: Authority, f: Files, w: World): Run {
    var output := SettleOutput(a, f, w);
    var f1 := Last(f, output.states);
    var partial := SettlePartial(a, f1, w);
    var f2 := Last(f1, partial.states);
    Then(output, Then(partial, Download(a, f2, w)))
  }

  lemma LastOfBoth(before: Files, x: seq<Files>, y: seq<Files>)
    ensures Last(before, x + y) == Last(Last(before, x), y)
  {
  }

  // ---------- The same call as code ----------

  class ArtifactStore {
    var output: File
    var partial: File
    /** Every content the directory has had since the store was opened, after each file effect. */
    ghost var seen: seq<Files>

    constructor (files: Files)
      ensures Now() == files && seen == []
    {
      output, partial, seen := files.output, files.partial, [];
    }

    ghost function Now(): Files
      reads this
    {
      Files(output, partial)
    }

    method RenameOutputToPartial()
      modifies this
      ensures Now() == Files(Absent, old(output)) && seen == old(seen) + [Now()]
    {
      partial := output;
      output := Absent;
      seen := seen + [Now()];
    }

    method Publish()
      modifies this
      ensures Now() == Files(old(partial), Absent) && seen == old(seen) + [Now()]
    {
      output := partial;
      partial := Absent;
      seen := seen + [Now()];
    }

    method DeleteOutput()
      modifies this
      ensures Now() == Files(Absent, old(partial)) && seen == old(seen) + [Now()]
    {
      output := Absent;
      seen := seen + [Now()];
    }

    method DeletePartial()
      modifies this
      ensures Now() == Files(old(output), Absent) && seen == old(seen) + [Now()]
    {
      partial := Absent;
      seen := seen + [Now()];
    }

    /** Opening for append creates the file when there is none. */
    method OpenPartial()
      modifies this
      ensures Now() == Files(old(output), if old(partial).Present? then old(partial) else Present([]))
      ensures seen == old(seen) + [Now()]
    {
      if partial.Absent? {
        partial := Present([]);
      }
      seen := seen + [Now()];
    }

    method WriteChunk(chunk: Bytes)
      requires partial.Present?
      modifies this
      ensures Now() == Appended(old(Now()), chunk)
      ensures seen == old(seen) + Torn(old(Now()), chunk)
    {
      seen := seen + Torn(Now(), chunk);
      partial := Present(partial.bytes + chunk);
    }

    /** The first branch of the call: what an existing `output` means. */
    method SettleExistingOutput(a: Authority, w: World) returns (outcome: Outcome)
      modifies this
      ensures var run := SettleOutput(a, old(Now()), w);
              seen == old(seen) + run.states && outcome == run.outcome && Now() == Last(old(Now()), run.states)
      ensures outcome.Installed? ==> output.Present? && a.valid(output.bytes)
    {
      outcome := Going;
      if output.Present? {
        var existingSize := |output.bytes|;
        if existingSize < a.size {
          if partial.Absent? {
            RenameOutputToPartial();
          } else {
            var partialSize := |partial.bytes|;
            if partialSize > a.size || existingSize > partialSize {
              DeletePartial();
              RenameOutputToPartial();
            } else {
              DeleteOutput();
            }
          }
        } else {
          if a.valid(output.bytes) && !w.firstCheckBreaks {
            return Installed;
          }
          DeleteOutput();
          DeletePartial();
        }
      }
    }

    method SettleExistingPartial(a: Authority, w: World) returns (outcome: Outcome)
      modifies this
      ensures var run := SettlePartial(a, old(Now()), w);
              seen == old(seen) + run.states && outcome == run.outcome && Now() == Last(old(Now()), run.states)
      ensures outcome.Installed? ==> output.Present? && a.valid(output.bytes)
    {
      outcome := Going;
      if partial.Present? {
        var partialSize := |partial.bytes|;
        if partialSize > a.size {
          DeletePartial();
        } else if partialSize == a.size {
          if a.valid(partial.bytes) && !w.firstCheckBreaks {
            Publish();
            return Installed;
          }
          DeletePartial();
        }
      }
    }

    /** The read loop: `downloadedSize` is advanced and checked before the chunk is written. */
    method ReceiveBody(a: Authority, chunks: seq<Bytes>, broken: bool) returns (outcome: Outcome)
      requires partial.Present?
      modifies this
      ensures var run := Receive(a, old(Now()), chunks, broken);
              seen == old(seen) + run.states && outcome == run.outcome && Now() == Last(old(Now()), run.states)
      ensures partial.Present?
    {
      var downloadedSize := |partial.bytes|;
      var next := 0;
      ghost var start, logged := Now(), [];
      NothingReceived(a, start, chunks, broken);
      while next < |chunks|
        invariant 0 <= next <= |chunks|
        invariant partial.Present? && downloadedSize == |partial.bytes|
        invariant seen == old(seen) + logged && Received(a, start, chunks, broken, next, logged, Now())
      {
        ghost var torn := Torn(Now(), chunks[next]);
        OneMoreReceived(a, start, chunks, broken, next, logged, Now());
        downloadedSize := downloadedSize + |chunks[next]|;
        if downloadedSize > a.size {
          return Failed;
        }
        WriteChunk(chunks[next]);
        next := next + 1;
        Regroup(old(seen), logged, torn);
        logged := logged + torn;
      }
      AllReceived(a, start, chunks, broken, logged, Now());
      if broken || downloadedSize != a.size {
        return Failed;
      }
      return Going;
    }

    method DownloadRest(a: Authority, w: World) returns (outcome: Outcome)
      modifies this
      ensures var run := Download(a, old(Now()), w);
              seen == old(seen) + run.states && outcome == run.outcome && Now() == Last(old(Now()), run.states)
      ensures outcome.Installed? ==> output.Present? && a.valid(output.bytes)
      ensures !outcome.Going?
    {
      var partialSize := if partial.Present? then |partial.bytes| else 0;
      var reply := w.server(partialSize);
      if !Acceptable(reply, partialSize, a.size) || reply.body.NoBody? {
        if partial.Present? && |partial.bytes| == 0 {
          DeletePartial();
        }
        return Failed;
      }
      OpenPartial();
      ghost var ready := Now();
      outcome := ReceiveBody(a, reply.body.chunks, reply.body.broken);
      ghost var received := Receive(a, ready, reply.body.chunks, reply.body.broken).states;
      Regroup(old(seen), [ready], received);
      LastOfBoth(old(Now()), [ready], received);
      if outcome.Failed? {
        return;
      }
      ghost var done := Now();
      ghost var last := CheckAndPublish(a, done, w).states;
      Regroup(old(seen), [ready] + received, last);
      LastOfBoth(old(Now()), [ready] + received, last);
      if a.valid(partial.bytes) && !w.lastCheckBreaks {
        Publish();
        return Installed;
      }
      DeletePartial();
      return Failed;
    }

    /** `installArtifact`: goes through exactly the contents of `Attempt`. */
    method InstallArtifact(a: Authority, w: World) returns (outcome: Outcome)
      modifies this
      ensures var run := Attempt(a, old(Now()), w);
              seen == old(seen) + run.states && outcome == run.outcome && Now() == Last(old(Now()), run.states)
      ensures !outcome.Going?
      ensures outcome.Installed? ==> output.Present? && a.valid(output.bytes)
    {
      ghost var f0 := Now();
      outcome := SettleExistingOutput(a, w);
      if outcome.Installed? {
        return;
      }
      ghost var f1 := Now();
      ghost var first := SettleOutput(a, f0, w).states;
      outcome := SettleExistingPartial(a, w);
      ghost var second := SettlePartial(a, f1, w).states;
      Regroup(old(seen), first, second);
      LastOfBoth(f0, first, second);
      if outcome.Installed? {
        return;
      }
      ghost var third := Download(a, Now(), w).states;
      LastOfBoth(f1, second, third);
      LastOfBoth(f0, first, second + third);
      Regroup(old(seen), first, second + third);
      Regroup(old(seen) + first, second, third);
      outcome := DownloadRest(a, w);
    }
  }

  // ---------- Any number of attempts, each possibly cut ----------

  /** One attempt against `world`; if `cut` is set, the process stops (or a file operation fails) once
      that many file effects have happened. */
  datatype Try = Try(world: World, cut: Option<nat>)

  function Survives(a: Authority, f: Files, t: Try): Files {
    var states := Attempt(a, f, t.world).states;
    Last(f, if t.cut.Some? && t.cut.value <= |states| then states[..t.cut.value] else states)
  }

  function Survivor(a: Authority, f: Files, tries: seq<Try>): Files
    decreases |tries|
  {
    if tries == [] then f else Survivor(a, Survives(a, f, tries[0]), tries[1..])
  }

  /** A cut after any number of file effects leaves what the last of them left. */
  lemma CutLeaves(a: Authority, f: Files, w: World, k: nat)
    requires k <= |Attempt(a, f, w).states|
    ensures Survives(a, f, Try(w, Some(k))) == if k == 0 then f else Attempt(a, f, w).states[k - 1]
    ensures Survives(a, f, Try(w, None)) == Last(f, Attempt(a, f, w).states)
  {
  }

  /** Whatever survives is either untouched or one of the contents the attempt went through. */
  lemma SurvivesIsSeen(a: Authority, f: Files, t: Try)
    ensures Survives(a, f, t) == f || Survives(a, f, t) in Attempt(a, f, t.world).states
  {
  }

  // ---------- What the read loop does ----------

  function Concat(chunks: seq<Bytes>): Bytes {
    if chunks == [] then [] else chunks[0] + Concat(chunks[1..])
  }

  /** The loop never writes past the pinned size, only adds bytes of the body in order, and goes on to
      verification exactly when a body that closed fills the file. */
  lemma {:induction false} ReceiveAppendsBody(a: Authority, f: Files, chunks: seq<Bytes>, broken: bool)
    requires f.partial.Present? && |f.partial.bytes| <= a.size
    ensures var r := Receive(a, f, chunks, broken);
            && (forall s <- r.states :: Extends(f, s, Concat(chunks), a.size))
            && (r.outcome.Going? <==> !broken && |f.partial.bytes| + |Concat(chunks)| == a.size)
            && (r.outcome.Going? ==>
                  Last(f, r.states) == f.(partial := Present(f.partial.bytes + Concat(chunks))))
    decreases |chunks|
  {
    if chunks == [] {
      assert f.partial.bytes + [] == f.partial.bytes;
    } else if |f.partial.bytes| + |chunks[0]| <= a.size {
      var g, torn := Appended(f, chunks[0]), Torn(f, chunks[0]);
      var rest := Receive(a, g, chunks[1..], broken);
      ReceiveAppendsBody(a, g, chunks[1..], broken);
      Regroup(f.partial.bytes, chunks[0], Concat(chunks[1..]));
      TornExtends(f, chunks[0], Concat(chunks[1..]), a.size);
      forall s <- rest.states {
        ExtendsFurther(f, chunks[0], s, Concat(chunks[1..]), a.size);
      }
      TornEndsAppended(f, chunks[0]);
      LastOfBoth(f, torn, rest.states);
    }
  }

  /** The same output, and a `partial` within the size that adds a beginning of the body. */
  ghost predicate Extends(f: Files, s: Files, body: Bytes, size: nat)
    requires f.partial.Present?
  {
    && s.output == f.output && s.partial.Present? && |s.partial.bytes| <= size
    && f.partial.bytes <= s.partial.bytes <= f.partial.bytes + body
  }

  lemma TornExtends(f: Files, chunk: Bytes, later: Bytes, size: nat)
    requires f.partial.Present? && |f.partial.bytes| + |chunk| <= size
    ensures forall s <- Torn(f, chunk) :: Extends(f, s, chunk + later, size)
  {
    var torn := Torn(f, chunk);
    forall s <- torn
      ensures Extends(f, s, chunk + later, size)
    {
      var k :| 0 <= k < |chunk| && s == torn[k];
      assert s.partial.bytes == f.partial.bytes + chunk[..k + 1];
    }
  }

  lemma ExtendsFurther(f: Files, chunk: Bytes, s: Files, later: Bytes, size: nat)
    requires f.partial.Present? && Extends(Appended(f, chunk), s, later, size)
    ensures Extends(f, s, chunk + later, size)
  {
    Regroup(f.partial.bytes, chunk, later);
  }

  /** Before the download, `partial` is absent or shorter than the pinned size and `output` is gone. */
  lemma SettledIsShort(a: Authority, f: Files, w: World)
    ensures var output := SettleOutput(a, f, w);
            var f1 := Last(f, output.states);
            var partial := SettlePartial(a, f1, w);
            var f2 := Last(f1, partial.states);
            output.outcome.Going? && partial.outcome.Going? ==>
              f2.output.Absent? && (f2.partial.Present? ==> |f2.partial.bytes| < a.size)
  {
  }

  /** What a download goes through when it is not refused. */
  lemma {:induction false} DownloadStates(a: Authority, f: Files, w: World)
    ensures var reply := w.server(Length(f.partial));
            var states := Download(a, f, w).states;
            if !Acceptable(reply, Length(f.partial), a.size) || reply.body.NoBody? then
              forall s <- states :: f.partial == Present([]) && s == Files(f.output, Absent)
            else
              var ready := if f.partial.Present? then f else Files(f.output, Present([]));
              var received := Receive(a, ready, reply.body.chunks, reply.body.broken);
              var done := Last(ready, received.states);
              if received.outcome.Going? && done.partial.Present? then
                states == ([ready] + received.states) + CheckAndPublish(a, done, w).states
              else states == [ready] + received.states
  {
    var reply := w.server(Length(f.partial));
    if Acceptable(reply, Length(f.partial), a.size) && reply.body.Body? {
      var ready := if f.partial.Present? then f else Files(f.output, Present([]));
      var received := Receive(a, ready, reply.body.chunks, reply.body.broken);
      assert ([ready] + received.states) + [] == [ready] + received.states;
    }
  }

  // ---------- Safety ----------

  ghost predicate OutputSafe(a: Authority, f: Files) {
    f.output.Present? ==> a.valid(f.output.bytes)
  }

  lemma DownloadKeepsOutputSafe(a: Authority, f: Files, w: World)
    requires f.output.Absent? && Length(f.partial) <= a.size
    ensures forall s <- Download(a, f, w).states :: OutputSafe(a, s)
  {
    var reply := w.server(Length(f.partial));
    DownloadStates(a, f, w);
    if Acceptable(reply, Length(f.partial), a.size) && reply.body.Body? {
      ReceiveAppendsBody(a, if f.partial.Present? then f else Files(f.output, Present([])),
                         reply.body.chunks, reply.body.broken);
    }
  }

  lemma AttemptKeepsOutputSafe(a: Authority, f: Files, w: World)
    requires Pinned(a) && OutputSafe(a, f)
    ensures forall s <- Attempt(a, f, w).states :: OutputSafe(a, s)
  {
    var f1 := Last(f, SettleOutput(a, f, w).states);
    var f2 := Last(f1, SettlePartial(a, f1, w).states);
    SettledIsShort(a, f, w);
    if f2.output.Absent? && Length(f2.partial) <= a.size {
      DownloadKeepsOutputSafe(a, f2, w);
    }
  }

  /** Publish safety: if there is no unverified `output` at the start, then after any attempts, against
      any servers, cut anywhere, an existing `output` passes verification. */
  lemma {:induction false} PublishSafety(a: Authority, f: Files, tries: seq<Try>)
    requires Pinned(a) && OutputSafe(a, f)
    ensures OutputSafe(a, Survivor(a, f, tries))
    decreases |tries|
  {
    if tries != [] {
      AttemptKeepsOutputSafe(a, f, tries[0].world);
      SurvivesIsSeen(a, f, tries[0]);
      PublishSafety(a, Survives(a, f, tries[0]), tries[1..]);
    }
  }

  lemma DownloadStaysInSize(a: Authority, f: Files, w: World)
    requires Length(f.partial) <= a.size
    ensures forall s <- Download(a, f, w).states :: Length(s.partial) <= a.size
  {
    var reply := w.server(Length(f.partial));
    DownloadStates(a, f, w);
    if Acceptable(reply, Length(f.partial), a.size) && reply.body.Body? {
      ReceiveAppendsBody(a, if f.partial.Present? then f else Files(f.output, Present([])),
                         reply.body.chunks, reply.body.broken);
    }
  }

  /** An attempt never makes `partial` longer than the pinned size: a longer one was there before. */
  lemma NeverOversized(a: Authority, f: Files, w: World)
    ensures forall s <- Attempt(a, f, w).states :: Length(s.partial) <= a.size || s.partial == f.partial
  {
    var first := SettleOutput(a, f, w);
    var f1 := Last(f, first.states);
    var second := SettlePartial(a, f1, w);
    var f2 := Last(f1, second.states);
    assert forall s <- first.states :: Length(s.partial) <= a.size || s.partial == f.partial;
    assert forall s <- second.states :: Length(s.partial) <= a.size;
    if first.outcome.Going? && second.outcome.Going? {
      SettledIsShort(a, f, w);
      DownloadStaysInSize(a, f2, w);
    }
  }

  /** An end that counts as a normal return. */
  ghost predicate Verified(a: Authority, f: Files, end: Files) {
    end.output.Present? && a.valid(end.output.bytes) && (end.partial.Present? ==> end == f)
  }

  lemma DownloadEndsVerified(a: Authority, f: Files, w: World)
    ensures var run := Download(a, f, w);
            !run.outcome.Going? && (run.outcome.Installed? ==>
                                      run.states != [] && Verified(a, f, Last(f, run.states)))
  {
  }

  /** A call that returns normally leaves a verified `output` and no `partial` it was built from. */
  lemma NormalReturnIsVerified(a: Authority, f: Files, w: World)
    ensures var run := Attempt(a, f, w);
            !run.outcome.Going? && (run.outcome.Installed? ==> Verified(a, f, Last(f, run.states)))
  {
    var first := SettleOutput(a, f, w);
    var f1 := Last(f, first.states);
    var second := SettlePartial(a, f1, w);
    var f2 := Last(f1, second.states);
    if first.outcome.Going? {
      if second.outcome.Going? {
        DownloadEndsVerified(a, f2, w);
        if Download(a, f2, w).outcome.Installed? {
          NoPartialAfter(a, f2, w);
        }
        LastOfBoth(f1, second.states, Download(a, f2, w).states);
        LastOfBoth(f, first.states, second.states + Download(a, f2, w).states);
      } else {
        LastOfBoth(f, first.states, second.states);
      }
    }
  }

  lemma NoPartialAfter(a: Authority, f: Files, w: World)
    requires Download(a, f, w).outcome.Installed?
    ensures Last(f, Download(a, f, w).states).partial.Absent?
  {
  }

  // ---------- Progress against a server that sends the pinned content ----------

  /** The server may refuse, lie in its headers or stop early, but the bytes it sends from an offset are
      the bytes of `content` from there. */
  ghost predicate Faithful(server: nat -> Reply, content: Bytes) {
    forall offset: nat | offset <= |content| ::
      server(offset).Reply? && server(offset).body.Body? ==>
        Concat(server(offset).body.chunks) <= content[offset..]
  }

  ghost predicate Healthy(f: Files, content: Bytes) {
    && (f.output.Present? ==> f.output.bytes == content)
    && (f.partial.Present? ==> f.partial.bytes <= content)
  }

  /** How far an install has come: the resumable bytes, or one more than all of them once published. */
  function Progress(f: Files, content: Bytes): nat {
    if f.output == Present(content) then |content| + 1 else Length(f.partial)
  }

  /** The reply is a body that closes and fills `partial` up to the pinned size. */
  predicate Completes(a: Authority, f: Files, w: World) {
    var reply := w.server(Length(f.partial));
    && Acceptable(reply, Length(f.partial), a.size) && reply.body.Body? && !reply.body.broken
    && Length(f.partial) + |Concat(reply.body.chunks)| == a.size
  }

  /** A verification fails although the content is good, and bytes that were there are deleted: a full-size
      file, or a download that resumed and has just been completed. */
  predicate Spoils(a: Authority, f: Files, w: World) {
    || (w.firstCheckBreaks && (f.output.Present? || Length(f.partial) == a.size))
    || (w.lastCheckBreaks && f.output.Absent? && 0 < Length(f.partial) < a.size && Completes(a, f, w))
  }

  lemma {:induction false} ReceivedAdvances(a: Authority, ready: Files, body: Body, content: Bytes)
    requires PinnedTo(a, content) && body.Body? && ready.output.Absent? && ready.partial.Present?
    requires ready.partial.bytes <= content && Concat(body.chunks) <= content[|ready.partial.bytes|..]
    ensures var received := Receive(a, ready, body.chunks, body.broken);
            && (forall s <- received.states :: Healthy(s, content) && Length(ready.partial) <= Progress(s, content))
            && (received.outcome.Going? <==>
                  !body.broken && |ready.partial.bytes| + |Concat(body.chunks)| == a.size)
            && (received.outcome.Going? ==> Last(ready, received.states) == Files(Absent, Present(content)))
  {
    var offset := |ready.partial.bytes|;
    ReceiveAppendsBody(a, ready, body.chunks, body.broken);
    assert ready.partial.bytes == content[..offset];
    assert content == content[..offset] + content[offset..];
    assert ready.partial.bytes + Concat(body.chunks) <= content;
    if |ready.partial.bytes| + |Concat(body.chunks)| == a.size {
      assert ready.partial.bytes + Concat(body.chunks) == content;
    }
  }

  /** What a download leaves at every moment: no less than it began with, but for the deletion after a last
      check that breaks. */
  lemma DownloadAdvances(a: Authority, f: Files, w: World, content: Bytes)
    requires PinnedTo(a, content) && Faithful(w.server, content)
    requires Healthy(f, content) && f.output.Absent? && Length(f.partial) < a.size
    ensures forall s <- Download(a, f, w).states ::
              Healthy(s, content)
              && (Progress(f, content) <= Progress(s, content) || (w.lastCheckBreaks && Completes(a, f, w)))
    ensures w.lastCheckBreaks && Completes(a, f, w) ==> Files(Absent, Absent) in Download(a, f, w).states
  {
    var reply := w.server(Length(f.partial));
    DownloadStates(a, f, w);
    if Acceptable(reply, Length(f.partial), a.size) && reply.body.Body? {
      ReceivedAdvances(a, if f.partial.Present? then f else Files(f.output, Present([])), reply.body, content);
    }
  }

  /** With honest bytes every moment of an attempt is healthy, and no moment has less than the attempt began
      with if and only if no verification spoils it. */
  lemma AttemptAdvances(a: Authority, f: Files, w: World, content: Bytes)
    requires PinnedTo(a, content) && Faithful(w.server, content) && Healthy(f, content)
    ensures forall s <- Attempt(a, f, w).states :: Healthy(s, content)
    ensures (forall s <- Attempt(a, f, w).states :: Progress(f, content) <= Progress(s, content))
       <==> !Spoils(a, f, w)
  {
    if f.output.Present? || Length(f.partial) == a.size {
      FullAttempt(a, f, w, content);
      if w.firstCheckBreaks {
        DownloadAdvances(a, Files(Absent, Absent), w, content);
        assert Settling(f)[0] in Attempt(a, f, w).states;
        assert Progress(Settling(f)[0], content) < Progress(f, content);
      }
    } else {
      ShortAttempt(a, f, w);
      DownloadAdvances(a, f, w, content);
    }
  }

  /** A complete file is published or kept, or deleted by a check that breaks and downloaded anew. */
  lemma FullAttempt(a: Authority, f: Files, w: World, content: Bytes)
    requires PinnedTo(a, content) && Healthy(f, content) && (f.output.Present? || Length(f.partial) == a.size)
    ensures var states := Attempt(a, f, w).states;
            if w.firstCheckBreaks then
              && states == Settling(f) + Download(a, Files(Absent, Absent), w).states
            else states == if f.output.Present? then [] else [Files(Present(content), Absent)]
  {
    if w.firstCheckBreaks {
      var first := SettleOutput(a, f, w);
      var f1 := Last(f, first.states);
      var second := SettlePartial(a, f1, w);
      assert Last(f1, second.states) == Files(Absent, Absent);
      assert first.states + second.states == Settling(f);
      Regroup(first.states, second.states, Download(a, Files(Absent, Absent), w).states);
    } else if f.output.Absent? {
      assert f.partial.bytes == content;
      assert f.partial == Present(content);
      assert [] + [Files(f.partial, Absent)] == [Files(f.partial, Absent)];
    }
  }

  function Settling(f: Files): seq<Files> {
    if f.output.Present? then [Files(Absent, f.partial), Files(Absent, Absent)] else [Files(Absent, Absent)]
  }

  lemma ShortAttempt(a: Authority, f: Files, w: World)
    requires f.output.Absent? && Length(f.partial) < a.size
    ensures Attempt(a, f, w).states == Download(a, f, w).states
  {
    assert [] + ([] + Download(a, f, w).states) == Download(a, f, w).states;
  }

  /** A complete and correct file, published or not, is gone after an attempt whose first check breaks and
      whose server cannot be reached. */
  lemma BrokenCheckLosesContent(a: Authority, f: Files, w: World, content: Bytes)
    requires PinnedTo(a, content) && w.firstCheckBreaks && w.server(0).Unreachable?
    requires f in [Files(Present(content), Absent), Files(Absent, Present(content))]
    ensures Last(f, Attempt(a, f, w).states) == Files(Absent, Absent)
  {
    FullAttempt(a, f, w, content);
    assert Download(a, Files(Absent, Absent), w).states == [];
  }

  /** No attempt of a run is spoilt. */
  predicate Unspoilt(a: Authority, f: Files, tries: seq<Try>)
    decreases |tries|
  {
    tries == [] || (!Spoils(a, f, tries[0].world) && Unspoilt(a, Survives(a, f, tries[0]), tries[1..]))
  }

  /** From an empty directory (or any healthy one), cut and failed attempts keep `partial` a prefix of
      the content, and as long as none is spoilt, no attempt loses any of it. */
  lemma {:induction false} InterruptedAttemptsAdvance(a: Authority, f: Files, tries: seq<Try>, content: Bytes)
    requires PinnedTo(a, content) && Healthy(f, content)
    requires forall t <- tries :: Faithful(t.world.server, content)
    ensures Healthy(Survivor(a, f, tries), content)
    ensures Unspoilt(a, f, tries) ==> Progress(f, content) <= Progress(Survivor(a, f, tries), content)
    decreases |tries|
  {
    if tries != [] {
      AttemptAdvances(a, f, tries[0].world, content);
      SurvivesIsSeen(a, f, tries[0]);
      InterruptedAttemptsAdvance(a, Survives(a, f, tries[0]), tries[1..], content);
    }
  }

  // ---------- Self-stabilisation ----------

  /** A server that honours Range (sections 14.2 and 15.3.7 of RFC 9110), over a line that holds: 200 and the whole
      file, or 206 and the rest from the offset asked for, with the length of the body or none. */
  ghost predicate Serves(w: World, content: Bytes) {
    && !w.firstCheckBreaks && !w.lastCheckBreaks
    && SendsWhole(w.server(0), |content|) && SendsBody(w.server(0), content)
    && forall offset: nat | 0 < offset < |content| ::
         && SendsRange(w.server(offset), offset, |content| - 1, |content|)
         && SendsBody(w.server(offset), content[offset..])
  }

  ghost predicate SendsWhole(reply: Reply, size: nat) {
    && reply.Reply? && reply.status == 200 && reply.range == Missing
    && reply.length in [Missing, Header(size)]
  }

  ghost predicate SendsRange(reply: Reply, first: nat, last: nat, size: nat) {
    && first <= last < size
    && reply.Reply? && reply.status == 206 && reply.range == Header(ContentRange(first, last, size))
    && reply.length in [Missing, Header(last - first + 1)]
  }

  ghost predicate SendsBody(reply: Reply, bytes: Bytes) {
    reply.Reply? && reply.body.Body? && !reply.body.broken && Concat(reply.body.chunks) == bytes
  }

  /** The replies that are accepted are these and no others. */
  lemma AcceptedExactly(reply: Reply, offset: nat, size: nat)
    ensures Acceptable(reply, offset, size) <==>
            if offset == 0 then SendsWhole(reply, size) else exists last: nat :: SendsRange(reply, offset, last, size)
  {
    if offset > 0 && Acceptable(reply, offset, size) {
      assert SendsRange(reply, offset, reply.range.value.last, size);
    }
  }

  /** The bytes an attempt builds on, read off the two files. */
  function Retained(a: Authority, f: Files): Bytes {
    var kept :=
      if f.output.Absent? then
        if f.partial.Present? then f.partial.bytes else []
      else if |f.output.bytes| >= a.size then
        if a.valid(f.output.bytes) then f.output.bytes else []
      else if f.partial.Present? && |f.output.bytes| <= |f.partial.bytes| <= a.size then
        f.partial.bytes
      else
        f.output.bytes;
    if |kept| < a.size || a.valid(kept) then kept else []
  }

  /** Both settling steps of an attempt. */
  function Settle(a: Authority, f: Files, w: World): Run {
    var output := SettleOutput(a, f, w);
    Then(output, SettlePartial(a, Last(f, output.states), w))
  }

  lemma AttemptSettles(a: Authority, f: Files, w: World)
    ensures var settled := Settle(a, f, w);
            var f2 := Last(f, settled.states);
            var run := Attempt(a, f, w);
            if !settled.outcome.Going? then run == settled
            else
              var download := Download(a, f2, w);
              run.outcome == download.outcome && Last(f, run.states) == Last(f2, download.states)
  {
    var first := SettleOutput(a, f, w);
    var f1 := Last(f, first.states);
    var second := SettlePartial(a, f1, w);
    LastOfBoth(f, first.states, second.states);
    if first.outcome.Going? && second.outcome.Going? {
      var third := Download(a, Last(f1, second.states), w);
      LastOfBoth(f1, second.states, third.states);
      LastOfBoth(f, first.states, second.states + third.states);
    }
  }

  /** Settling keeps the bytes an attempt builds on. */
  lemma SettleRetains(a: Authority, f: Files, w: World, content: Bytes)
    requires PinnedTo(a, content) && !w.firstCheckBreaks
    ensures var settled := Settle(a, f, w);
            var f2 := Last(f, settled.states);
            match settled.outcome
            case Going => && f2.output.Absent? && Length(f2.partial) < a.size
                          && Retained(a, f) == if f2.partial.Present? then f2.partial.bytes else []
            case Installed => f2.output == Present(content) && Retained(a, f) == content
            case Failed => false
  {
    var first := SettleOutput(a, f, w);
    var f1 := Last(f, first.states);
    LastOfBoth(f, first.states, SettlePartial(a, f1, w).states);
  }

  lemma ServedReply(w: World, content: Bytes, offset: nat)
    requires Serves(w, content) && offset < |content|
    ensures Acceptable(w.server(offset), offset, |content|) && SendsBody(w.server(offset), content[offset..])
  {
    AcceptedExactly(w.server(offset), offset, |content|);
    assert content[0..] == content;
    if offset > 0 {
      assert SendsRange(w.server(offset), offset, |content| - 1, |content|);
    }
  }

  lemma ServedDownload(a: Authority, f: Files, w: World, content: Bytes)
    requires PinnedTo(a, content) && Serves(w, content)
    requires f.output.Absent? && Length(f.partial) < a.size
    ensures var run := Download(a, f, w);
            var kept := if f.partial.Present? then f.partial.bytes else [];
            if kept <= content then
              run.outcome.Installed? && Last(f, run.states) == Files(Present(content), Absent)
            else
              run.outcome.Failed? && Last(f, run.states) == Files(Absent, Absent)
  {
    var offset := Length(f.partial);
    var reply := w.server(offset);
    var ready := if f.partial.Present? then f else Files(f.output, Present([]));
    var kept := ready.partial.bytes;
    ServedReply(w, content, offset);
    ReceiveAppendsBody(a, ready, reply.body.chunks, reply.body.broken);
    var received := Receive(a, ready, reply.body.chunks, reply.body.broken);
    assert content == content[..offset] + content[offset..];
    assert received.outcome.Going?;
    var whole := kept + content[offset..];
    assert Last(ready, received.states) == Files(Absent, Present(whole));
    assert whole[..offset] == kept;
    assert whole == content <==> kept <= content;
    var last := CheckAndPublish(a, Files(Absent, Present(whole)), w);
    assert Download(a, f, w) == Run(([ready] + received.states) + last.states, last.outcome);
    assert Last(f, (([ready] + received.states) + last.states)) == last.states[0];
  }

  /** With such a server an attempt succeeds if and only if the bytes it builds on start the content;
      otherwise it leaves an empty directory. */
  lemma ServedAttempt(a: Authority, f: Files, w: World, content: Bytes)
    requires PinnedTo(a, content) && Serves(w, content)
    ensures var run := Attempt(a, f, w);
            && (run.outcome.Installed? <==> Retained(a, f) <= content)
            && Last(f, run.states).output == (if run.outcome.Installed? then Present(content) else Absent)
            && (!run.outcome.Installed? ==> Last(f, run.states).partial.Absent?)
  {
    SettleRetains(a, f, w, content);
    AttemptSettles(a, f, w);
    if Settle(a, f, w).outcome.Going? {
      ServedDownload(a, Last(f, Settle(a, f, w).states), w, content);
    }
  }

  /** From any contents of the two files, two uninterrupted attempts install the content. */
  lemma {:induction false} SelfStabilises(a: Authority, f: Files, w1: World, w2: World, content: Bytes)
    requires PinnedTo(a, content) && Serves(w1, content) && Serves(w2, content)
    ensures Survivor(a, f, [Try(w1, None), Try(w2, None)]).output == Present(content)
  {
    var tries := [Try(w1, None), Try(w2, None)];
    var f1 := Survives(a, f, tries[0]);
    ServedAttempt(a, f, w1, content);
    ServedAttempt(a, f1, w2, content);
    assert tries[1..] == [tries[1]] && [tries[1]][1..] == [];
    assert Survivor(a, f1, [tries[1]]) == Survives(a, f1, tries[1]);
  }

  // ---------- Which replies are written ----------

  /** The first chunk that is not empty fits into the room left. */
  ghost predicate FirstFits(chunks: seq<Bytes>, room: int) {
    exists i | 0 <= i < |chunks| :: 0 < |chunks[i]| <= room && forall j | 0 <= j < i :: chunks[j] == []
  }

  ghost predicate Grows(states: seq<Files>, length: nat) {
    exists s <- states :: Length(s.partial) > length
  }

  lemma {:induction false} ReceiveGrows(a: Authority, f: Files, chunks: seq<Bytes>, broken: bool)
    requires f.partial.Present?
    ensures Grows(Receive(a, f, chunks, broken).states, |f.partial.bytes|)
       <==> FirstFits(chunks, a.size - |f.partial.bytes|)
    decreases |chunks|
  {
    if chunks != [] {
      if chunks[0] == [] {
        assert Appended(f, []) == f by {
          assert f.partial.bytes + [] == f.partial.bytes;
        }
        if |f.partial.bytes| <= a.size {
          assert Torn(f, []) == [];
          Unprefixed(Receive(a, f, chunks[1..], broken).states);
          ReceiveGrows(a, f, chunks[1..], broken);
          SkipEmpty(chunks, a.size - |f.partial.bytes|);
        }
      } else if |f.partial.bytes| + |chunks[0]| <= a.size {
        var torn := Torn(f, chunks[0]);
        assert torn[0] in Receive(a, f, chunks, broken).states && Length(torn[0].partial) > |f.partial.bytes|;
      }
    }
  }

  lemma SkipEmpty(chunks: seq<Bytes>, room: int)
    requires chunks != [] && chunks[0] == []
    ensures FirstFits(chunks, room) <==> FirstFits(chunks[1..], room)
  {
    if i :| 0 <= i < |chunks[1..]| && 0 < |chunks[1..][i]| <= room && forall j | 0 <= j < i :: chunks[1..][j] == [] {
      assert chunks[i + 1] == chunks[1..][i];
      assert forall j | 0 < j < i + 1 :: chunks[j] == chunks[1..][j - 1];
    }
    if i :| 0 <= i < |chunks| && 0 < |chunks[i]| <= room && forall j | 0 <= j < i :: chunks[j] == [] {
      assert chunks[1..][i - 1] == chunks[i];
      assert forall j | 0 <= j < i - 1 :: chunks[1..][j] == chunks[j + 1];
    }
  }

  /** An attempt with nothing published and `partial` absent or short writes a byte if and only if the reply to its
      request sends the whole file, or the range from the kept length on, in these words, and has a body whose
      first bytes fit. */
  lemma WrittenExactly(a: Authority, f: Files, w: World)
    requires f.output.Absent? && Length(f.partial) < a.size
    ensures var kept := Length(f.partial);
            var reply := w.server(kept);
            Grows(Attempt(a, f, w).states, kept) <==>
              && (if kept == 0 then SendsWhole(reply, a.size)
                  else exists last: nat :: SendsRange(reply, kept, last, a.size))
              && reply.body.Body? && FirstFits(reply.body.chunks, a.size - kept)
  {
    ShortAttempt(a, f, w);
    AcceptedExactly(w.server(Length(f.partial)), Length(f.partial), a.size);
    DownloadGrows(a, f, w);
  }

  lemma DownloadGrows(a: Authority, f: Files, w: World)
    ensures var kept := Length(f.partial);
            var reply := w.server(kept);
            Grows(Download(a, f, w).states, kept) <==>
              Acceptable(reply, kept, a.size) && reply.body.Body? && FirstFits(reply.body.chunks, a.size - kept)
  {
    var reply := w.server(Length(f.partial));
    DownloadStates(a, f, w);
    if Acceptable(reply, Length(f.partial), a.size) && reply.body.Body? {
      var ready := if f.partial.Present? then f else Files(f.output, Present([]));
      var received := Receive(a, ready, reply.body.chunks, reply.body.broken);
      ReceiveGrows(a, ready, reply.body.chunks, reply.body.broken);
      GrowsConcat([ready], received.states, Length(f.partial));
      var done := Last(ready, received.states);
      if received.outcome.Going? && done.partial.Present? {
        GrowsConcat([ready] + received.states, CheckAndPublish(a, done, w).states, Length(f.partial));
      }
    }
  }

  lemma GrowsConcat(x: seq<Files>, y: seq<Files>, length: nat)
    ensures Grows(x + y, length) <==> Grows(x, length) || Grows(y, length)
  {
  }

  /** A body that fits is kept whole, even if it breaks off. */
  lemma {:induction false} BodyIsKept(a: Authority, f: Files, chunks: seq<Bytes>, broken: bool)
    requires f.partial.Present? && |f.partial.bytes| + |Concat(chunks)| <= a.size
    ensures Last(f, Receive(a, f, chunks, broken).states)
         == f.(partial := Present(f.partial.bytes + Concat(chunks)))
    decreases |chunks|
  {
    if chunks == [] {
      Unsuffixed(f.partial.bytes);
    } else {
      var g := Appended(f, chunks[0]);
      BodyIsKept(a, g, chunks[1..], broken);
      Regroup(f.partial.bytes, chunks[0], Concat(chunks[1..]));
      TornEndsAppended(f, chunks[0]);
      LastOfBoth(f, Torn(f, chunks[0]), Receive(a, g, chunks[1..], broken).states);
    }
  }

  /** An attempt that is cut short by the server keeps every byte that came. */
  lemma BrokenAttemptKeepsBytes(a: Authority, f: Files, w: World)
    requires f.output.Absent? && Length(f.partial) < a.size
    requires var reply := w.server(Length(f.partial));
             && (if f.partial.Absent? || f.partial.bytes == [] then SendsWhole(reply, a.size)
                 else exists last: nat :: SendsRange(reply, Length(f.partial), last, a.size))
             && reply.body.Body? && Length(f.partial) + |Concat(reply.body.chunks)| < a.size
    ensures var run := Attempt(a, f, w);
            && run.outcome.Failed?
            && Last(f, run.states) == Files(Absent, Present((if f.partial.Present? then f.partial.bytes else [])
                                                            + Concat(w.server(Length(f.partial)).body.chunks)))
  {
    var reply := w.server(Length(f.partial));
    var ready := if f.partial.Present? then f else Files(f.output, Present([]));
    AcceptedExactly(reply, Length(f.partial), a.size);
    AttemptSettles(a, f, w);
    BodyIsKept(a, ready, reply.body.chunks, reply.body.broken);
    ReceiveAppendsBody(a, ready, reply.body.chunks, reply.body.broken);
    LastOfBoth(f, [ready], Receive(a, ready, reply.body.chunks, reply.body.broken).states);
  }
}
