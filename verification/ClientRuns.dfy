/** What every run of the client keeps, and what a well-behaved reader gets out of it. */
module ClientRuns {
  import opened Wrappers
  import opened Bits
  import opened Frame
  import opened Stream
  import opened Link
  import opened Client

  // ---- subsequences ----

  /** `a` is `b` with some elements left out. */
  ghost predicate Subsequence<T>(a: seq<T>, b: seq<T>) {
    a == []
    || (b != [] && ((a[0] == b[0] && Subsequence(a[1..], b[1..])) || Subsequence(a, b[1..])))
  }

  lemma {:induction false} SubsequenceOfItself<T>(a: seq<T>)
    ensures Subsequence(a, a)
  {
    if a != [] {
      SubsequenceOfItself(a[1..]);
    }
  }

  lemma {:induction false} SubsequenceAppend<T>(a: seq<T>, b: seq<T>, c: seq<T>, d: seq<T>)
    requires Subsequence(a, b) && Subsequence(c, d)
    ensures Subsequence(a + c, b + d)
    decreases |b|
  {
    if b == [] {
      assert a + c == c && b + d == d;
    } else {
      assert (b + d)[1..] == b[1..] + d;
      if a != [] && a[0] == b[0] && Subsequence(a[1..], b[1..]) {
        SubsequenceAppend(a[1..], b[1..], c, d);
        assert (a + c)[1..] == a[1..] + c;
      } else {
        SubsequenceAppend(a, b[1..], c, d);
      }
    }
  }

  lemma {:induction false} SubsequenceTransitive<T>(a: seq<T>, b: seq<T>, c: seq<T>)
    requires Subsequence(a, b) && Subsequence(b, c)
    ensures Subsequence(a, c)
    decreases |b| + |c|
  {
    if a != [] && b != [] {
      if b[0] == c[0] && Subsequence(b[1..], c[1..]) {
        if a[0] == b[0] && Subsequence(a[1..], b[1..]) {
          SubsequenceTransitive(a[1..], b[1..], c[1..]);
        } else {
          SubsequenceTransitive(a, b[1..], c[1..]);
        }
      } else {
        SubsequenceTransitive(a, b, c[1..]);
      }
    }
  }

  // ---- safety of every run ----

  /** All messages in the bytes received so far, decoded in one go. */
  function Seen(s: State): seq<Item> {
    Decode(Joined(s.arrived), None).items
  }

  predicate Clean(items: seq<Item>) {
    Errors(items) == [] && Heartbeats(items) == []
  }

  /** The messages that the last chunk completes. */
  function Completed(chunks: seq<seq<byte>>): seq<Item>
    requires chunks != []
  {
    var n := |chunks| - 1;
    Decode(Decode(Joined(chunks[..n]), None).rest + chunks[n], None).items
  }

  /** The responses in the chunks that complete neither an error nor a heartbeat. */
  function Kept(chunks: seq<seq<byte>>): seq<RfidResponse> {
    if chunks == [] then []
    else
      var items := Completed(chunks);
      Kept(chunks[..|chunks| - 1]) + if Clean(items) then Frames(items) else []
  }

  ghost predicate Safe(s: State) {
    && Decode(Joined(s.arrived), None).rest == s.pending
    && s.popped + s.queue == Kept(s.arrived)
    && Subsequence(s.returned, s.popped)
    && (!s.connected ==> s.sent == [] && s.arrived == [] && s.queue == [] && s.popped == [] && s.returned == [])
  }

  lemma InitiallySafe()
    ensures Safe(INITIAL)
  {}

  lemma ChunkSafe(s: State, chunk: seq<byte>, t: State)
    requires Safe(s) && s.connected
    requires var d := Decode(s.pending + chunk, None);
      && t.connected && t.arrived == s.arrived + [chunk] && t.pending == d.rest
      && t.popped == s.popped && t.returned == s.returned
      && t.queue == s.queue + (if Clean(d.items) then Frames(d.items) else [])
    ensures Safe(t)
  {
    hide Decode, Subsequence, Frames, Errors, Heartbeats;
    DecodeResumes(Joined(s.arrived), chunk, None);
    JoinedSnoc(s.arrived, chunk);
    var d := Decode(s.pending + chunk, None);
    assert t.arrived[..|s.arrived|] == s.arrived;
    assert Completed(t.arrived) == d.items;
    var added := if Clean(d.items) then Frames(d.items) else [];
    assert (s.popped + s.queue) + added == t.popped + t.queue;
  }

  /** The messages of a stream are those of its chunks but the last, and those that the last completes. */
  lemma LastChunk(chunks: seq<seq<byte>>)
    requires chunks != []
    ensures Decode(Joined(chunks), None).items
         == Decode(Joined(chunks[..|chunks| - 1]), None).items + Completed(chunks)
  {
    hide Decode;
    var n := |chunks| - 1;
    assert chunks == chunks[..n] + [chunks[n]];
    JoinedSnoc(chunks[..n], chunks[n]);
    DecodeResumes(Joined(chunks[..n]), chunks[n], None);
  }

  /** What is kept is an in-order selection of all responses, and all of them if nothing else is seen. */
  lemma {:induction false} KeptSelection(chunks: seq<seq<byte>>)
    ensures var all := Decode(Joined(chunks), None).items;
      && Subsequence(Kept(chunks), Frames(all))
      && (Clean(all) ==> Kept(chunks) == Frames(all))
  {
    hide Decode, Frames, Errors, Heartbeats, Subsequence;
    if chunks == [] {
      NothingIsSubsequence(Frames(Decode(Joined(chunks), None).items));
      NothingDecoded();
    } else {
      var before := chunks[..|chunks| - 1];
      var early, last := Decode(Joined(before), None).items, Completed(chunks);
      KeptSelection(before);
      LastChunk(chunks);
      FramesAppend(early, last);
      ErrorsAppend(early, last);
      HeartbeatsAppend(early, last);
      var added := if Clean(last) then Frames(last) else [];
      SubsequenceOfItself(added);
      NothingIsSubsequence(Frames(last));
      SubsequenceAppend(Kept(before), Frames(early), added, Frames(last));
    }
  }

  lemma NothingDecoded()
    ensures Decode([], None) == Decoded([], []) && Frames([]) == [] && Joined([]) == []
  {}

  lemma NothingIsSubsequence<T>(b: seq<T>)
    ensures Subsequence([], b)
  {}

  lemma {:induction false} AwaitSafe(s: State)
    requires Safe(s) && s.connected
    ensures Safe(Await(s).0) && Await(s).0.connected
    decreases |s.inbox|
  {
    hide Safe, Decode, Frames, Errors, Heartbeats;
    if s.queue == [] && s.inbox != [] {
      SafeDespite(s, s.(inbox := s.inbox[1..]));
      if s.inbox[0].Data? && s.inbox[0].bytes != [] {
        var chunk := s.inbox[0].bytes;
        var d := Decode(s.pending + chunk, None);
        var u := s.(inbox := s.inbox[1..], pending := d.rest, arrived := s.arrived + [chunk]);
        var v := u.(queue := s.queue + (if Clean(d.items) then Frames(d.items) else []));
        ChunkSafe(s, chunk, v);
        assert s.queue + [] == s.queue;
        if Clean(d.items) {
          AwaitSafe(v);
        }
      }
    }
  }

  /** Neither the inbox nor what was sent matters to safety. */
  lemma SafeDespite(s: State, t: State)
    requires Safe(s) && s.connected && t == s.(inbox := t.inbox, sent := t.sent)
    ensures Safe(t)
  {}

  lemma TakeSafe(s: State, command: byte)
    requires Safe(s) && s.connected && s.queue != []
    ensures Safe(Take(s, command).0)
  {
    hide Decode, Subsequence;
    var frame := s.queue[0];
    assert s.popped + s.queue == (s.popped + [frame]) + s.queue[1..];
    SubsequenceOfItself([frame]);
    SubsequenceAppend(s.returned, s.popped, [frame], [frame]);
    NothingIsSubsequence([frame]);
    SubsequenceAppend(s.returned, s.popped, [], [frame]);
    assert s.returned + [] == s.returned;
  }

  lemma StepSafe(s: State, op: Op)
    requires Safe(s)
    ensures Safe(Step(s, op).0)
  {
    hide Safe, Decode, Await, Take, BuildCommandFrame, Size;
    match op
    case Connect(connection) =>
      if !s.connected && connection.Some? {
        ConnectSafe(s, connection.value);
      }
    case Close =>
      InitiallySafe();
    case Send(address, command, data, written) =>
      var built := BuildCommandFrame(address, Size(command), data);
      if s.connected && built.Ok? && written {
        var u := s.(sent := s.sent + [built.value]);
        SafeDespite(s, u);
        AwaitSafe(u);
        var (t, error) := Await(u);
        if error.None? {
          TakeSafe(t, command);
        }
      }
  }

  lemma ConnectSafe(s: State, inbox: seq<Arrival>)
    requires Safe(s) && !s.connected
    ensures Safe(s.(connected := true, inbox := inbox, sent := []))
  {}

  lemma {:induction false} RunSafe(s: State, ops: seq<Op>)
    requires Safe(s)
    ensures Safe(Run(s, ops).0)
    decreases |ops|
  {
    hide Safe, Step;
    if ops != [] {
      StepSafe(s, ops[0]);
      RunSafe(Step(s, ops[0]).0, ops[1..]);
    }
  }

  /**
   * In every run, whatever the network does: the responses taken or still queued are exactly
   * those of the chunks that brought neither an error nor a heartbeat, in order; so they are a
   * selection, without repeats, of the responses in all bytes received, and all of them if the
   * bytes hold nothing else. What was handed out is in turn a selection of what was taken.
   */
  lemma RunSafety(ops: seq<Op>)
    ensures var s := Run(INITIAL, ops).0;
      && s.pending == Decode(Joined(s.arrived), None).rest
      && s.popped + s.queue == Kept(s.arrived)
      && Subsequence(s.popped + s.queue, Frames(Seen(s)))
      && (Clean(Seen(s)) ==> s.popped + s.queue == Frames(Seen(s)))
      && Subsequence(s.returned, s.popped)
      && Subsequence(s.returned, Frames(Seen(s)))
  {
    hide Run, Decode, Subsequence, Frames;
    InitiallySafe();
    RunSafe(INITIAL, ops);
    var s := Run(INITIAL, ops).0;
    KeptSelection(s.arrived);
    NothingIsSubsequence(s.queue);
    SubsequenceAppend(s.returned, s.popped, [], s.queue);
    assert s.returned + [] == s.returned;
    SubsequenceTransitive(s.returned, s.popped + s.queue, Frames(Seen(s)));
  }

  /** `returned` is the record of the responses that calls returned since the last reset. */
  function Handed(ops: seq<Op>, outcomes: seq<Outcome>): seq<RfidResponse>
    requires |ops| == |outcomes|
  {
    if ops == [] then []
    else
      var n := |ops| - 1;
      var earlier := Handed(ops[..n], outcomes[..n]);
      if ops[n].Close? then []
      else if outcomes[n].Some? && outcomes[n].value.Ok? then earlier + [outcomes[n].value.value]
      else earlier
  }

  lemma {:induction false} RunAppend(s: State, a: seq<Op>, b: seq<Op>)
    ensures var (t, first) := Run(s, a);
      var (u, second) := Run(t, b);
      Run(s, a + b) == (u, first + second)
    decreases |a|
  {
    hide Step;
    if a == [] {
      assert a + b == b;
      assert [] + Run(s, b).1 == Run(s, b).1;
    } else {
      assert (a + b)[1..] == a[1..] + b;
      var (t, outcome) := Step(s, a[0]);
      RunAppend(t, a[1..], b);
      var first, second := Run(t, a[1..]).1, Run(Run(t, a[1..]).0, b).1;
      assert ([outcome] + first) + second == [outcome] + (first + second);
    }
  }

  lemma {:induction false} AwaitReturnsNothing(s: State)
    ensures Await(s).0.returned == s.returned
    decreases |s.inbox|
  {
    hide Decode, Frames, Errors, Heartbeats;
    if s.queue == [] && s.inbox != [] && s.inbox[0].Data? && s.inbox[0].bytes != [] {
      var chunk := s.inbox[0].bytes;
      var d := Decode(s.pending + chunk, None);
      var u := s.(inbox := s.inbox[1..], pending := d.rest, arrived := s.arrived + [chunk]);
      AwaitReturnsNothing(u.(queue := s.queue + Frames(d.items)));
    }
  }

  lemma StepReturned(s: State, op: Op)
    ensures var (t, outcome) := Step(s, op);
      t.returned == if op.Close? then []
                    else if outcome.Some? && outcome.value.Ok? then s.returned + [outcome.value.value]
                    else s.returned
  {
    hide Ask;
    if op.Send? {
      AskReturned(s, op.address, op.command, op.data, op.written);
    }
  }

  lemma AskReturned(s: State, address: int, command: Command, data: seq<byte>, written: bool)
    ensures var (t, reading) := Ask(s, address, command, data, written);
      t.returned == if reading.Ok? then s.returned + [reading.value] else s.returned
  {
    hide Await, BuildCommandFrame, Size, Answers;
    var built := BuildCommandFrame(address, Size(command), data);
    if s.connected && built.Ok? {
      AwaitReturnsNothing(s.(sent := s.sent + [built.value]));
    }
  }

  lemma {:induction false} ReturnedIsHanded(ops: seq<Op>)
    ensures Run(INITIAL, ops).0.returned == Handed(ops, Run(INITIAL, ops).1)
    decreases |ops|
  {
    hide Step;
    if ops != [] {
      var n := |ops| - 1;
      var (t, outcomes) := Run(INITIAL, ops[..n]);
      RunAppend(INITIAL, ops[..n], [ops[n]]);
      assert ops == ops[..n] + [ops[n]];
      ReturnedIsHanded(ops[..n]);
      StepReturned(t, ops[n]);
      RunOne(t, ops[n]);
      assert Run(INITIAL, ops).1[..n] == outcomes;
    }
  }

  lemma RunOne(s: State, op: Op)
    ensures Run(s, [op]) == (Step(s, op).0, [Step(s, op).1])
  {
    hide Step;
    var (t, outcome) := Step(s, op);
    assert [op][1..] == [];
    assert Run(t, []) == (t, []);
    assert [outcome] + [] == [outcome];
  }

  lemma RunNothing(s: State)
    ensures Run(s, []) == (s, [])
  {}

  lemma RunCons(s: State, op: Op, ops: seq<Op>)
    ensures var (t, outcome) := Step(s, op);
      Run(s, [op] + ops) == (Run(t, ops).0, [outcome] + Run(t, ops).1)
  {
    hide Step;
    assert ([op] + ops)[1..] == ops;
  }

  // ---- closing forgets everything ----

  /** After a close, a run goes exactly as it would for a client that was just created. */
  lemma CloseForgets(before: seq<Op>, after: seq<Op>)
    ensures var ops := before + [Op.Close] + after;
      && Run(INITIAL, ops).1[|before| + 1..] == Run(INITIAL, after).1
      && Run(INITIAL, ops).0 == Run(INITIAL, after).0
  {
    hide Step, Run;
    var first := before + [Op.Close];
    var (s, _) := Run(INITIAL, before);
    RunAppend(INITIAL, before, [Op.Close]);
    RunAppend(INITIAL, first, after);
    RunOne(s, Op.Close);
    CloseResets(s);
    var early, late := Run(INITIAL, first).1, Run(INITIAL, after).1;
    assert Run(INITIAL, first).0 == INITIAL;
    assert Run(INITIAL, first + after).1 == early + late;
    assert (early + late)[|before| + 1..] == late;
  }

  lemma CloseResets(s: State)
    ensures Step(s, Op.Close) == (INITIAL, None)
  {}

  // ---- which response a call takes, whatever the network does ----

  /** The call took a response: it returned it, or reported its code as unexpected. */
  predicate Took(outcome: Outcome) {
    outcome.Some? && (outcome.value.Ok? || outcome.value.error.UnexpectedCommand?)
  }

  /** The command was written, but the call ended without taking a response. */
  predicate Missed(outcome: Outcome) {
    && outcome.Some? && outcome.value.Err?
    && var e := outcome.value.error;
    || e.TimedOut? || e.ReadFailed? || e.NoResponse? || e.InvalidResponse? || e.UnexpectedHeartbeat?
  }

  function Takes(outcomes: seq<Outcome>): (n: nat)
    ensures n <= |outcomes|
  {
    if outcomes == [] then 0
    else
      var n := |outcomes| - 1;
      Takes(outcomes[..n]) + if Took(outcomes[n]) then 1 else 0
  }

  function Misses(outcomes: seq<Outcome>): (n: nat)
    ensures n <= |outcomes|
  {
    if outcomes == [] then 0
    else
      var n := |outcomes| - 1;
      Misses(outcomes[..n]) + if Missed(outcomes[n]) then 1 else 0
  }

  predicate StaysOpen(ops: seq<Op>) {
    forall i :: 0 <= i < |ops| ==> !ops[i].Close?
  }

  lemma {:induction false} AwaitTakesNothing(s: State)
    ensures var (t, error) := Await(s);
      && t.popped == s.popped && t.sent == s.sent
      && (error.Some? ==> Missed(Some(Err(error.value))))
    decreases |s.inbox|
  {
    hide Decode, Frames, Errors, Heartbeats;
    if s.queue == [] && s.inbox != [] && s.inbox[0].Data? && s.inbox[0].bytes != [] {
      var chunk := s.inbox[0].bytes;
      var d := Decode(s.pending + chunk, None);
      var u := s.(inbox := s.inbox[1..], pending := d.rest, arrived := s.arrived + [chunk]);
      AwaitTakesNothing(u.(queue := s.queue + Frames(d.items)));
    }
  }

  /** `after` is `before` with the response, if any, that the operation took as its outcome says. */
  predicate TakesNext(op: Op, outcome: Outcome, before: seq<RfidResponse>, after: seq<RfidResponse>) {
    if Took(outcome) then
      && op.Send?
      && |after| == |before| + 1 && after[..|before|] == before
      && outcome == Some(Verdict(after[|before|], op.command))
    else after == before
  }

  /** One operation takes at most one response, and only a command that was written takes one. */
  lemma StepTakes(s: State, op: Op)
    requires Safe(s) && !op.Close?
    ensures var (t, outcome) := Step(s, op);
      && TakesNext(op, outcome, s.popped, t.popped)
      && |t.sent| == |s.sent| + if Took(outcome) || Missed(outcome) then 1 else 0
  {
    hide Decode, Await, BuildCommandFrame, Size, Answers, Subsequence, Kept;
    if op.Send? && s.connected {
      var built := BuildCommandFrame(op.address, Size(op.command), op.data);
      if built.Ok? {
        var u := s.(sent := s.sent + [built.value]);
        AwaitTakesNothing(u);
        var (t, error) := Await(u);
        if op.written && error == None {
          assert Take(t, op.command).0.popped == s.popped + [t.queue[0]];
        }
      }
    }
  }

  /** If the operation took a response, it is the k-th of those taken. */
  predicate TookAt(op: Op, outcome: Outcome, k: nat, taken: seq<RfidResponse>) {
    Took(outcome) ==> op.Send? && k < |taken| && outcome == Some(Verdict(taken[k], op.command))
  }

  /** The calls that took a response took them in turn. */
  predicate InTurn(ops: seq<Op>, outcomes: seq<Outcome>, taken: seq<RfidResponse>)
    requires |ops| == |outcomes|
  {
    forall i :: 0 <= i < |ops| ==> TookAt(ops[i], outcomes[i], Takes(outcomes[..i]), taken)
  }

  lemma TookAtLonger(
    op: Op, outcome: Outcome, k: nat, before: seq<RfidResponse>, after: seq<RfidResponse>)
    requires TookAt(op, outcome, k, before) && before <= after
    ensures TookAt(op, outcome, k, after)
  {
    hide Verdict;
  }

  lemma InTurnLonger(
    ops: seq<Op>, outcomes: seq<Outcome>, before: seq<RfidResponse>, after: seq<RfidResponse>)
    requires |ops| == |outcomes| && InTurn(ops, outcomes, before) && before <= after
    ensures InTurn(ops, outcomes, after)
  {
    hide TookAt, Takes;
    forall i | 0 <= i < |ops|
      ensures TookAt(ops[i], outcomes[i], Takes(outcomes[..i]), after)
    {
      TookAtLonger(ops[i], outcomes[i], Takes(outcomes[..i]), before, after);
    }
  }

  lemma InTurnSnoc(
    ops: seq<Op>, outcomes: seq<Outcome>, op: Op, outcome: Outcome, taken: seq<RfidResponse>)
    requires |ops| == |outcomes| && InTurn(ops, outcomes, taken)
    requires TookAt(op, outcome, Takes(outcomes), taken)
    ensures InTurn(ops + [op], outcomes + [outcome], taken)
  {
    hide TookAt, Takes;
    var all := outcomes + [outcome];
    forall i | 0 <= i < |all|
      ensures TookAt((ops + [op])[i], all[i], Takes(all[..i]), taken)
    {
      if i < |outcomes| {
        assert all[..i] == outcomes[..i];
      } else {
        assert all[..i] == outcomes;
      }
    }
  }

  lemma CountsSnoc(outcomes: seq<Outcome>, outcome: Outcome)
    ensures Takes(outcomes + [outcome]) == Takes(outcomes) + if Took(outcome) then 1 else 0
    ensures Misses(outcomes + [outcome]) == Misses(outcomes) + if Missed(outcome) then 1 else 0
  {
    hide Took, Missed;
    assert (outcomes + [outcome])[..|outcomes|] == outcomes;
  }

  /** What every run keeps: calls took their responses in turn, and every written command took one or missed it. */
  predicate Accounted(ops: seq<Op>, s: State, outcomes: seq<Outcome>) {
    && |ops| == |outcomes| && InTurn(ops, outcomes, s.popped)
    && |s.popped| == Takes(outcomes)
    && |s.sent| == Takes(outcomes) + Misses(outcomes)
  }

  lemma NotBoth(outcome: Outcome)
    ensures !(Took(outcome) && Missed(outcome))
  {}

  lemma StepAccounted(ops: seq<Op>, s: State, outcomes: seq<Outcome>, op: Op)
    requires Safe(s) && !op.Close? && Accounted(ops, s, outcomes)
    ensures Accounted(ops + [op], Step(s, op).0, outcomes + [Step(s, op).1])
  {
    hide Step, Safe, InTurn, Took, Missed, Takes, Misses, Verdict;
    var (t, outcome) := Step(s, op);
    StepTakes(s, op);
    CountsSnoc(outcomes, outcome);
    NotBoth(outcome);
    assert s.popped <= t.popped;
    InTurnLonger(ops, outcomes, s.popped, t.popped);
    InTurnSnoc(ops, outcomes, op, outcome, t.popped);
  }

  lemma RunSnoc(s: State, ops: seq<Op>, i: nat)
    requires i < |ops|
    ensures var (t, outcomes) := Run(s, ops[..i]);
      Run(s, ops[..i + 1]) == (Step(t, ops[i]).0, outcomes + [Step(t, ops[i]).1])
  {
    hide Step, Run;
    assert ops[..i + 1] == ops[..i] + [ops[i]];
    RunAppend(s, ops[..i], [ops[i]]);
    RunOne(Run(s, ops[..i]).0, ops[i]);
  }

  lemma NothingAccounted()
    ensures Accounted([], INITIAL, [])
  {}

  lemma RunAccounted(ops: seq<Op>, n: nat)
    requires StaysOpen(ops) && n <= |ops|
    ensures Accounted(ops[..n], Run(INITIAL, ops[..n]).0, Run(INITIAL, ops[..n]).1)
    decreases n
  {
    hide Step, Run, Safe, Accounted;
    if n == 0 {
      RunNothing(INITIAL);
      NothingAccounted();
      assert ops[..0] == [];
    } else {
      var earlier, op := ops[..n - 1], ops[n - 1];
      var (s, outcomes) := Run(INITIAL, earlier);
      RunAccounted(ops, n - 1);
      InitiallySafe();
      RunSafe(INITIAL, earlier);
      RunSnoc(INITIAL, ops, n - 1);
      StepAccounted(earlier, s, outcomes, op);
      assert ops[..n] == earlier + [op];
    }
  }

  /**
   * The k-th call that took a response took the k-th of those in the chunks that brought neither
   * an error nor a heartbeat, for every run from a new client up to a close: whatever arrives,
   * including errors, heartbeats, ends, stalls and failures. And every command that was written
   * has taken a response or missed one.
   */
  lemma TakesInOrder(ops: seq<Op>)
    requires StaysOpen(ops)
    ensures var (t, outcomes) := Run(INITIAL, ops);
      && InTurn(ops, outcomes, Kept(t.arrived)) && Takes(outcomes) <= |Kept(t.arrived)|
      && t.popped == Kept(t.arrived)[..Takes(outcomes)] && t.queue == Kept(t.arrived)[Takes(outcomes)..]
      && |t.sent| == Takes(outcomes) + Misses(outcomes)
  {
    hide Run, Kept, InTurn, Takes, Misses, Subsequence;
    RunAccounted(ops, |ops|);
    assert ops[..|ops|] == ops;
    RunSafety(ops);
    var (t, outcomes) := Run(INITIAL, ops);
    assert (t.popped + t.queue)[..|t.popped|] == t.popped;
    InTurnLonger(ops, outcomes, t.popped, Kept(t.arrived));
  }

  lemma RunPrefix(s: State, ops: seq<Op>, i: nat)
    requires i <= |ops|
    ensures Run(s, ops).1[..i] == Run(s, ops[..i]).1
  {
    hide Run;
    assert ops == ops[..i] + ops[i..];
    RunAppend(s, ops[..i], ops[i..]);
  }

  /** `at` are the places, in order, at which the elements of `a` stand in `b`. */
  predicate Selects<T(==)>(at: seq<nat>, a: seq<T>, b: seq<T>) {
    && |at| == |a|
    && (forall k :: 0 <= k < |a| ==> at[k] < |b| && a[k] == b[at[k]])
    && (forall j, k :: 0 <= j < k < |at| ==> at[j] < at[k])
  }

  lemma SubsequenceSelects<T>(a: seq<T>, b: seq<T>) returns (at: seq<nat>)
    requires Subsequence(a, b)
    ensures Selects(at, a, b)
    decreases |b|
  {
    at := [];
    if a != [] {
      if a[0] == b[0] && Subsequence(a[1..], b[1..]) {
        at := SubsequenceSelects(a[1..], b[1..]);
        at := SelectsHead(at, a, b);
      } else {
        at := SubsequenceSelects(a, b[1..]);
        at := SelectsTail(at, a, b);
      }
    }
  }

  lemma SelectsTail<T>(at: seq<nat>, a: seq<T>, b: seq<T>) returns (places: seq<nat>)
    requires b != [] && Selects(at, a, b[1..])
    ensures Selects(places, a, b) && |places| == |at|
    ensures forall k :: 0 <= k < |places| ==> places[k] > 0
  {
    places := seq(|at|, k requires 0 <= k < |at| => at[k] + 1);
  }

  lemma SelectsHead<T>(at: seq<nat>, a: seq<T>, b: seq<T>) returns (places: seq<nat>)
    requires a != [] && b != [] && a[0] == b[0] && Selects(at, a[1..], b[1..])
    ensures Selects(places, a, b)
  {
    var others := SelectsTail(at, a[1..], b);
    places := [0] + others;
    assert forall k :: 0 < k < |a| ==> places[k] == others[k - 1] && a[k] == a[1..][k - 1];
  }

  /**
   * What was kept has places among the responses that the readers sent whenever those that
   * arrived undamaged are in turn a selection of these.
   */
  lemma KeptPlaces(chunks: seq<seq<byte>>, emitted: seq<RfidResponse>) returns (at: seq<nat>)
    requires Subsequence(Frames(Decode(Joined(chunks), None).items), emitted)
    ensures Selects(at, Kept(chunks), emitted)
  {
    hide Decode, Frames, Kept, Subsequence, Selects, Joined;
    KeptSelection(chunks);
    SubsequenceTransitive(Kept(chunks), Frames(Decode(Joined(chunks), None).items), emitted);
    at := SubsequenceSelects(Kept(chunks), emitted);
  }

  lemma PlaceAtLeast(at: seq<nat>, k: nat)
    requires forall i, j :: 0 <= i < j < |at| ==> at[i] < at[j]
    requires k < |at|
    ensures k <= at[k]
    decreases k
  {
    if k > 0 {
      PlaceAtLeast(at, k - 1);
    }
  }

  predicate Distinct<T(==)>(s: seq<T>) {
    forall j, k :: 0 <= j < k < |s| ==> s[j] != s[k]
  }

  /**
   * Whose reply a call returns, in every run from a new client up to a close. Whatever response
   * `own` is meant for the call, a call that took a response returned it iff it is the next of
   * those kept. When all kept responses differ and `own` is the one at p: iff p and the calls that
   * missed a response before this one make up the number of commands written before it.
   */
  lemma OwnReplyExact(ops: seq<Op>, i: nat, own: RfidResponse)
    requires StaysOpen(ops) && i < |ops| && ops[i].Send? && Answers(own, ops[i].command)
    ensures var (t, outcomes) := Run(INITIAL, ops);
      var n, k, kept := |Run(INITIAL, ops[..i]).0.sent|, Takes(outcomes[..i]), Kept(t.arrived);
      && n == k + Misses(outcomes[..i])
      && (Took(outcomes[i]) ==>
            && k < |kept|
            && (outcomes[i] == Some(Ok(own)) <==> kept[k] == own)
            && (Distinct(kept) ==> forall p :: 0 <= p < |kept| && kept[p] == own ==>
                  (outcomes[i] == Some(Ok(own)) <==> p + Misses(outcomes[..i]) == n)))
  {
    hide Run, Kept, Answers, Misses, Takes;
    TakesInOrder(ops);
    TakesInOrder(ops[..i]);
    RunPrefix(INITIAL, ops, i);
  }

  /**
   * The same in terms of what the readers sent. `emitted` are their responses in order, `at` the
   * places of those that were kept; what is missing among them was damaged, lost, or in a chunk
   * with an error or a heartbeat. The call's own reply is the one at q. With one response to each
   * command q is n, the number of commands written before the call; q - n counts the surplus
   * ones, from a second reader, a second message or a report that nobody asked for. When all
   * responses differ, a call that took one returned its own iff the dropped responses before it
   * are as many as the calls that missed one and the surplus responses together.
   */
  lemma OwnReplyDropped(ops: seq<Op>, i: nat, emitted: seq<RfidResponse>, at: seq<nat>, q: nat)
    requires StaysOpen(ops) && i < |ops| && ops[i].Send?
    requires Selects(at, Kept(Run(INITIAL, ops).0.arrived), emitted)
    requires q < |emitted| && Answers(emitted[q], ops[i].command)
    ensures var outcomes := Run(INITIAL, ops).1;
      var n, k := |Run(INITIAL, ops[..i]).0.sent|, Takes(outcomes[..i]);
      Took(outcomes[i]) ==>
        && k < |at| && k <= at[k]
        && (Distinct(emitted) ==>
              (outcomes[i] == Some(Ok(emitted[q])) <==> at[k] - k == Misses(outcomes[..i]) + (q - n)))
  {
    hide Run, Kept, Answers, Misses, Takes;
    var outcomes := Run(INITIAL, ops).1;
    OwnReplyExact(ops, i, emitted[q]);
    if Took(outcomes[i]) {
      PlaceAtLeast(at, Takes(outcomes[..i]));
    }
  }

  /** The call reported something other than a response. */
  predicate Spoils(outcome: Outcome) {
    && outcome.Some? && outcome.value.Err?
    && (outcome.value.error.InvalidResponse? || outcome.value.error.UnexpectedHeartbeat?)
  }

  lemma SeenSnoc(s: State, chunk: seq<byte>, t: State)
    requires Decode(Joined(s.arrived), None).rest == s.pending && t.arrived == s.arrived + [chunk]
    ensures Clean(Seen(t)) <==> Clean(Seen(s)) && Clean(Decode(s.pending + chunk, None).items)
  {
    hide Decode, Errors, Heartbeats, Joined;
    DecodeResumes(Joined(s.arrived), chunk, None);
    JoinedSnoc(s.arrived, chunk);
    var d := Decode(s.pending + chunk, None);
    ErrorsAppend(Seen(s), d.items);
    HeartbeatsAppend(Seen(s), d.items);
  }

  lemma {:induction false} AwaitClean(s: State)
    requires Safe(s) && s.connected
    ensures var (t, error) := Await(s);
      Clean(Seen(t)) <==> Clean(Seen(s)) && (error.Some? ==> !Spoils(Some(Err(error.value))))
    decreases |s.inbox|
  {
    hide Decode, Frames, Errors, Heartbeats, Seen, Kept, Subsequence;
    if s.queue == [] && s.inbox != [] && s.inbox[0].Data? && s.inbox[0].bytes != [] {
      var chunk := s.inbox[0].bytes;
      var d := Decode(s.pending + chunk, None);
      var u := s.(inbox := s.inbox[1..], pending := d.rest, arrived := s.arrived + [chunk]);
      var v := u.(queue := s.queue + (if Clean(d.items) then Frames(d.items) else []));
      assert s.queue + [] == s.queue;
      SeenSnoc(s, chunk, v);
      SeenIs(u, v);
      ChunkSafe(s, chunk, v);
      if Clean(d.items) {
        AwaitClean(v);
      }
    }
    SeenIs(s, s.(inbox := Await(s).0.inbox));
  }

  lemma SeenIs(s: State, t: State)
    requires s.arrived == t.arrived
    ensures Seen(s) == Seen(t)
  {}

  lemma StepClean(s: State, op: Op)
    requires Safe(s) && !op.Close?
    ensures var (t, outcome) := Step(s, op);
      Clean(Seen(t)) <==> Clean(Seen(s)) && !Spoils(outcome)
  {
    hide Decode, Await, BuildCommandFrame, Size, Answers, Safe, Clean, Seen;
    SeenIs(s, Step(s, op).0.(arrived := s.arrived));
    if op.Send? && s.connected {
      var built := BuildCommandFrame(op.address, Size(op.command), op.data);
      if built.Ok? && op.written {
        var u := s.(sent := s.sent + [built.value]);
        SafeDespite(s, u);
        SeenIs(s, u);
        AwaitClean(u);
        SeenIs(Await(u).0, Step(s, op).0);
      }
    }
  }

  predicate Unspoilt(outcomes: seq<Outcome>) {
    forall i :: 0 <= i < |outcomes| ==> !Spoils(outcomes[i])
  }

  lemma UnspoiltSnoc(outcomes: seq<Outcome>, outcome: Outcome)
    ensures Unspoilt(outcomes + [outcome]) <==> Unspoilt(outcomes) && !Spoils(outcome)
  {
    var all := outcomes + [outcome];
    assert all[|outcomes|] == outcome;
    assert forall i :: 0 <= i < |outcomes| ==> all[i] == outcomes[i];
  }

  /** What was received holds nothing but responses iff no call has reported otherwise. */
  lemma CleanIffUnspoilt(ops: seq<Op>, n: nat)
    requires StaysOpen(ops) && n <= |ops|
    ensures var (t, outcomes) := Run(INITIAL, ops[..n]);
      Clean(Seen(t)) <==> Unspoilt(outcomes)
    decreases n
  {
    if n == 0 {
      RunNothing(INITIAL);
      assert ops[..0] == [];
      NothingDecoded();
    } else {
      hide Step, Run, Safe, Seen, Clean, Spoils, Unspoilt;
      CleanIffUnspoilt(ops, n - 1);
      InitiallySafe();
      RunSafe(INITIAL, ops[..n - 1]);
      RunSnoc(INITIAL, ops, n - 1);
      var (s, earlier) := Run(INITIAL, ops[..n - 1]);
      StepClean(s, ops[n - 1]);
      UnspoiltSnoc(earlier, Step(s, ops[n - 1]).1);
    }
  }

  lemma {:induction false} NothingMissed(outcomes: seq<Outcome>, i: nat)
    requires Misses(outcomes) == 0 && i < |outcomes|
    ensures !Missed(outcomes[i])
    decreases |outcomes|
  {
    if i < |outcomes| - 1 {
      NothingMissed(outcomes[..|outcomes| - 1], i);
    }
  }

  /**
   * What a caller can check: as long as no call has missed its response, each that takes one
   * takes the one at n, the number of commands written before it, among all responses received
   * by then. That is its own if the readers send just one response to each command: if what was
   * received is the beginning of `replies`, and the one at n there answers this call.
   */
  lemma OwnReplyUnlessMissed(ops: seq<Op>, i: nat, replies: seq<RfidResponse>)
    requires StaysOpen(ops) && i < |ops| && Took(Run(INITIAL, ops).1[i]) && Misses(Run(INITIAL, ops).1[..i]) == 0
    ensures var received := Frames(Seen(Run(INITIAL, ops[..i + 1]).0));
      var n := |Run(INITIAL, ops[..i]).0.sent|;
      && ops[i].Send? && n < |received|
      && Run(INITIAL, ops).1[i] == Some(Verdict(received[n], ops[i].command))
      && (received <= replies && Answers(replies[n], ops[i].command) ==>
            Run(INITIAL, ops).1[i] == Some(Ok(replies[n])))
  {
    hide Run, Kept, Seen, Clean, Frames, Verdict, Takes, Misses;
    var (u, outcomes) := Run(INITIAL, ops[..i + 1]);
    RunPrefix(INITIAL, ops, i);
    RunPrefix(INITIAL, ops, i + 1);
    assert ops[..i + 1][..i] == ops[..i];
    RunPrefix(INITIAL, ops[..i + 1], i);
    TakesInOrder(ops[..i]);
    TakesInOrder(ops[..i + 1]);
    forall j | 0 <= j < i + 1
      ensures !Spoils(outcomes[j])
    {
      if j < i {
        NothingMissed(outcomes[..i], j);
      }
    }
    CleanIffUnspoilt(ops, i + 1);
    RunSafety(ops[..i + 1]);
    assert ops[..i + 1][i] == ops[i];
    VerdictIs(Frames(Seen(u))[|Run(INITIAL, ops[..i]).0.sent|], ops[i].command);
  }

  lemma VerdictIs(f: RfidResponse, command: byte)
    ensures Answers(f, command) ==> Verdict(f, command) == Ok(f)
  {}

  // ---- lockstep ----

  /** A command, the reader's reply to it, and how the network cuts the reply into chunks. */
  datatype Exchange = Exchange(
    address: int, command: Command, data: seq<byte>, reply: Fields, chunks: seq<seq<byte>>)
  {
    /** The reader echoes the command code, or answers (0x00, 0xFE). */
    predicate Proper() {
      && IsByte(address) && |data| <= 251
      && reply.InRange()
      && (reply.command == Size(command)
          || (reply.command == 0 && reply.status == Size(ILLEGAL_COMMAND_OR_CRC_ERROR)))
      && Joined(chunks) == reply.Build().value
      && forall i :: 0 <= i < |chunks| ==> chunks[i] != []
    }

    function Call(): Op {
      Send(address, command, data, true)
    }
  }

  predicate AllProper(es: seq<Exchange>) {
    forall i :: 0 <= i < |es| ==> es[i].Proper()
  }

  function Arrivals(chunks: seq<seq<byte>>): seq<Arrival> {
    if chunks == [] then [] else [Data(chunks[0])] + Arrivals(chunks[1..])
  }

  function Script(es: seq<Exchange>): seq<Arrival> {
    if es == [] then [] else Arrivals(es[0].chunks) + Script(es[1..])
  }

  function Calls(es: seq<Exchange>): seq<Op> {
    if es == [] then [] else [es[0].Call()] + Calls(es[1..])
  }

  function Replies(es: seq<Exchange>): seq<Outcome>
    requires AllProper(es)
  {
    if es == [] then [] else [Some(Ok(ResponseOf(es[0].reply)))] + Replies(es[1..])
  }

  function Requests(es: seq<Exchange>): seq<seq<byte>>
    requires AllProper(es)
  {
    if es == [] then []
    else [BuildCommandFrame(es[0].address, Size(es[0].command), es[0].data).value] + Requests(es[1..])
  }

  lemma NoCommandIsZero(c: Command)
    ensures c != 0 && Size(c) != 0
  {
    assert IsCommand(c);
    hide Size;
    SizeRange(c);
    Sizes();
  }

  /** No reply can be taken for a heartbeat. */
  lemma ReplyIsLegal(e: Exchange)
    requires e.Proper()
    ensures var raw := e.reply.Build().value;
      && Legal(Item(raw, Response(ResponseOf(e.reply))), None)
      && |raw| > MIN_FRAME_LENGTH && !IsHeartbeat(raw)
      && Answers(ResponseOf(e.reply), e.command)
  {
    hide Size, ByteOf, ValidateFrame, Judge;
    NoCommandIsZero(e.command);
    SizeRange(e.command);
    SizeRange(ILLEGAL_COMMAND_OR_CRC_ERROR);
    Sizes();
    SizeOfIllegal();
    AmbiguousIffHeartbeat(e.reply);
    JudgeBuilt(e.reply, None);
  }

  lemma SizeOfIllegal()
    ensures Size(ILLEGAL_COMMAND_OR_CRC_ERROR) == 254
  {}

  /** The beginning of a legal frame is pending, not decoded. */
  lemma PrefixIsIncomplete(raw: seq<byte>, prefix: seq<byte>, event: Event)
    requires Legal(Item(raw, event), None) && |raw| > MIN_FRAME_LENGTH && !IsHeartbeat(raw)
    requires prefix < raw
    ensures Decode(prefix, None) == Decoded([], prefix)
  {
    hide Size, Judge;
    SizeRange(raw[0]);
    if prefix != [] {
      assert prefix[0] == raw[0];
      if |prefix| >= HEARTBEAT_LENGTH {
        assert prefix[..HEARTBEAT_LENGTH] == raw[..HEARTBEAT_LENGTH];
      }
    }
    ParseIsDecode(prefix, Decoded([], prefix), None);
  }

  lemma WholeIsDecoded(raw: seq<byte>, event: Event)
    requires Legal(Item(raw, event), None)
    ensures Decode(raw, None) == Decoded([Item(raw, event)], [])
  {
    hide Legal;
    var d := Decoded([Item(raw, event)], []);
    assert d.items[1..] == [];
    assert Consumed(d.items) == raw + Consumed([]) == raw;
    assert raw + [] == raw;
    ParseIsDecode(raw, d, None);
  }

  /** However a reply is cut, the receive loop stops right behind it with just that reply queued. */
  lemma {:induction false} AwaitReply(
    s: State, raw: seq<byte>, f: RfidResponse, chunks: seq<seq<byte>>, more: seq<Arrival>)
    requires Legal(Item(raw, Response(f)), None) && |raw| > MIN_FRAME_LENGTH && !IsHeartbeat(raw)
    requires s.queue == [] && s.pending < raw && s.pending + Joined(chunks) == raw
    requires forall i :: 0 <= i < |chunks| ==> chunks[i] != []
    requires s.inbox == Arrivals(chunks) + more
    ensures Await(s)
         == (s.(queue := [f], pending := [], inbox := more, arrived := s.arrived + chunks), None)
    decreases |chunks|
  {
    hide Legal, IsHeartbeat, Decode, Await, Frames, Errors, Heartbeats;
    var chunk, others := chunks[0], chunks[1..];
    var p := s.pending + chunk;
    assert p + Joined(others) == raw;
    assert s.inbox[0] == Data(chunk) && s.inbox[1..] == Arrivals(others) + more;
    AwaitReads(s, chunk, Decode(p, None));
    var t := s.(inbox := s.inbox[1..], arrived := s.arrived + [chunk]);
    SingleFrame(raw, f);
    if others == [] {
      assert p == raw && chunks == [chunk] && s.inbox[1..] == more;
      WholeIsDecoded(raw, Response(f));
      assert s.queue + [f] == [f];
      AwaitStops(t.(queue := [f], pending := []));
    } else {
      assert others[0] == chunks[1] != [];
      assert p < raw;
      PrefixIsIncomplete(raw, p, Response(f));
      assert forall i :: 0 <= i < |others| ==> others[i] == chunks[i + 1];
      AwaitReply(t.(pending := p), raw, f, others, more);
      assert s.queue + [] == s.queue;
      assert (s.arrived + [chunk]) + others == s.arrived + chunks;
    }
  }

  lemma SingleFrame(raw: seq<byte>, f: RfidResponse)
    ensures Frames([Item(raw, Response(f))]) == [f] && Frames([]) == []
    ensures Heartbeats([Item(raw, Response(f))]) == Heartbeats([]) == []
    ensures Errors([Item(raw, Response(f))]) == Errors([]) == []
  {
    var items := [Item(raw, Response(f))];
    assert items[1..] == [];
    assert Frames([]) == [] && Heartbeats([]) == [] && Errors([]) == [];
    assert [f] + [] == [f];
  }

  lemma AskAnswered(s: State, e: Exchange, frame: seq<byte>, t: State, f: RfidResponse)
    requires s.connected && BuildCommandFrame(e.address, Size(e.command), e.data) == Ok(frame)
    requires Await(s.(sent := s.sent + [frame])) == (t, None)
    requires t.queue == [f] && Answers(f, e.command)
    ensures Step(s, e.Call())
         == (t.(queue := [], popped := t.popped + [f], returned := t.returned + [f]), Some(Ok(f)))
  {
    hide BuildCommandFrame, Size, Await, Answers;
    assert t.queue[1..] == [];
  }

  /** One exchange in lockstep: the command gets its own reply and leaves nothing behind. */
  lemma OneExchange(s: State, e: Exchange, more: seq<Arrival>)
    requires e.Proper() && s.connected && s.queue == [] && s.pending == []
    requires s.inbox == Arrivals(e.chunks) + more
    ensures var (t, outcome) := Step(s, e.Call());
      && outcome == Some(Ok(ResponseOf(e.reply)))
      && t.connected && t.queue == [] && t.pending == [] && t.inbox == more
      && BuildCommandFrame(e.address, Size(e.command), e.data).Ok?
      && t.sent == s.sent + [BuildCommandFrame(e.address, Size(e.command), e.data).value]
  {
    hide Size, Legal, Await, ResponseOf, Answers, Step, IsHeartbeat, BuildCommandFrame, Fields.Build;
    BuildsCommand(e);
    ReplyIsLegal(e);
    BuildsIffInRange(e.reply);
    var raw, f := e.reply.Build().value, ResponseOf(e.reply);
    var frame := BuildCommandFrame(e.address, Size(e.command), e.data).value;
    var u := s.(sent := s.sent + [frame]);
    assert s.pending + Joined(e.chunks) == raw;
    AwaitReply(u, raw, f, e.chunks, more);
    AskAnswered(s, e, frame, Await(u).0, f);
  }

  /**
   * Lockstep: when the reader sends one proper reply per command and only after it, every call
   * returns its own command's reply, for every chunking, and nothing is left between calls.
   */
  lemma {:induction false} Lockstep(s: State, es: seq<Exchange>, more: seq<Arrival>)
    requires AllProper(es) && s.connected && s.queue == [] && s.pending == []
    requires s.inbox == Script(es) + more
    ensures var (t, outcomes) := Run(s, Calls(es));
      && outcomes == Replies(es)
      && t.connected && t.queue == [] && t.pending == [] && t.inbox == more
      && t.sent == s.sent + Requests(es)
    decreases |es|
  {
    hide Step, Run, ResponseOf, BuildCommandFrame, Size, Exchange.Call, Exchange.Proper, Arrivals;
    if es == [] {
      assert s.inbox == more;
      RunNothing(s);
    } else {
      var e, others := es[0], es[1..];
      assert AllProper(others) by {
        assert forall i :: 0 <= i < |others| ==> others[i] == es[i + 1];
      }
      assert s.inbox == Arrivals(e.chunks) + (Script(others) + more);
      OneExchange(s, e, Script(others) + more);
      var (t, outcome) := Step(s, e.Call());
      hide Script, Calls, Replies, Requests;
      Lockstep(t, others, more);
      RunCons(s, e.Call(), Calls(others));
      ExchangeCons(es);
    }
  }

  lemma ExchangeCons(es: seq<Exchange>)
    requires AllProper(es) && es != []
    ensures AllProper(es[1..]) && BuildCommandFrame(es[0].address, Size(es[0].command), es[0].data).Ok?
    ensures Calls(es) == [es[0].Call()] + Calls(es[1..])
    ensures Replies(es) == [Some(Ok(ResponseOf(es[0].reply)))] + Replies(es[1..])
    ensures Requests(es)
         == [BuildCommandFrame(es[0].address, Size(es[0].command), es[0].data).value] + Requests(es[1..])
  {
    hide ResponseOf, BuildCommandFrame, Size, Exchange.Call, Exchange.Proper;
    assert forall i :: 0 <= i < |es[1..]| ==> es[1..][i] == es[i + 1];
    BuildsCommand(es[0]);
  }

  lemma BuildsCommand(e: Exchange)
    requires e.Proper()
    ensures BuildCommandFrame(e.address, Size(e.command), e.data).Ok?
  {
    SizeRange(e.command);
  }

  // ---- what is outstanding: any timing, any chunking ----

  function Bytes(inbox: seq<Arrival>): seq<byte> {
    if inbox == [] then []
    else (if inbox[0].Data? then inbox[0].bytes else []) + Bytes(inbox[1..])
  }

  /** The connection neither ends nor breaks; it may stall. */
  predicate Delivers(inbox: seq<Arrival>) {
    forall i :: 0 <= i < |inbox| ==> inbox[i].Timeout? || (inbox[i].Data? && inbox[i].bytes != [])
  }

  predicate NeverStalls(inbox: seq<Arrival>) {
    forall i :: 0 <= i < |inbox| ==> inbox[i].Data?
  }

  /**
   * The responses that no call has taken yet: queued, partly received or still to arrive, with
   * nothing but responses among them.
   */
  ghost predicate Outstanding(s: State, backlog: seq<RfidResponse>) {
    var items := Decode(s.pending + Bytes(s.inbox), None).items;
    && s.connected
    && Decode(s.pending, None) == Decoded([], s.pending)
    && Delivers(s.inbox)
    && Clean(items)
    && s.queue + Frames(items) == backlog
  }

  /** Reading one chunk moves responses into the queue, but changes nothing about what is outstanding. */
  lemma ChunkOutstanding(s: State, backlog: seq<RfidResponse>, d: Decoded, t: State)
    requires Outstanding(s, backlog) && s.inbox != [] && s.inbox[0].Data?
    requires d == Decode(s.pending + s.inbox[0].bytes, None)
    requires t.connected && t.inbox == s.inbox[1..] && t.pending == d.rest && t.queue == s.queue + Frames(d.items)
    ensures Clean(d.items) && Outstanding(t, backlog)
  {
    hide Decode, Frames, Errors, Heartbeats;
    var chunk, later := s.inbox[0].bytes, Bytes(s.inbox[1..]);
    assert s.pending + Bytes(s.inbox) == (s.pending + chunk) + later;
    DecodeResumes(s.pending + chunk, later, None);
    var others := Decode(d.rest + later, None).items;
    FramesAppend(d.items, others);
    ErrorsAppend(d.items, others);
    HeartbeatsAppend(d.items, others);
    Quiescent(s.pending + chunk, None);
    assert (s.queue + Frames(d.items)) + Frames(others) == s.queue + (Frames(d.items) + Frames(others));
  }

  /** A stall changes nothing about what is outstanding. */
  lemma StallOutstanding(s: State, backlog: seq<RfidResponse>)
    requires Outstanding(s, backlog) && s.inbox != [] && s.inbox[0] == Timeout
    ensures Outstanding(s.(inbox := s.inbox[1..]), backlog)
  {
    hide Decode, Frames, Clean;
    assert Bytes(s.inbox) == Bytes(s.inbox[1..]);
  }

  /** Waiting ends with a response in the queue or with a timeout; what is outstanding stays. */
  lemma {:induction false} AwaitOutstanding(s: State, backlog: seq<RfidResponse>)
    requires Outstanding(s, backlog)
    ensures var (t, error) := Await(s);
      && Outstanding(t, backlog)
      && (error == None || error == Some(TimedOut))
      && (NeverStalls(s.inbox) ==> NeverStalls(t.inbox))
      && (NeverStalls(s.inbox) && backlog != [] ==> error == None)
    decreases |s.inbox|
  {
    hide Await, Outstanding, Decode, Frames, Errors, Heartbeats, Bytes;
    AwaitStops(s);
    Connected(s, backlog);
    if s.queue == [] {
      if s.inbox == [] {
        NothingOnTheWay(s, backlog);
      } else {
        ArrivalDelivers(s, backlog);
        if s.inbox[0].Timeout? {
          StallOutstanding(s, backlog);
        } else {
          var chunk := s.inbox[0].bytes;
          var d := Decode(s.pending + chunk, None);
          AwaitReads(s, chunk, d);
          var u := s.(inbox := s.inbox[1..], pending := d.rest, arrived := s.arrived + [chunk]);
          var v := u.(queue := s.queue + Frames(d.items));
          ChunkOutstanding(s, backlog, d, v);
          AwaitOutstanding(v, backlog);
        }
      }
    }
  }

  lemma NothingOnTheWay(s: State, backlog: seq<RfidResponse>)
    requires Outstanding(s, backlog) && s.queue == [] && s.inbox == []
    ensures backlog == []
  {
    assert s.pending + [] == s.pending;
    hide Decode;
  }

  lemma ArrivalDelivers(s: State, backlog: seq<RfidResponse>)
    requires Outstanding(s, backlog) && s.inbox != []
    ensures s.inbox[0].Timeout? || (s.inbox[0].Data? && s.inbox[0].bytes != [])
  {}

  predicate Sound(op: Op) {
    op.Send? && IsByte(op.address) && |op.data| <= 251 && op.written
  }

  predicate AllSound(calls: seq<Op>) {
    forall i :: 0 <= i < |calls| ==> Sound(calls[i])
  }

  const TIMED_OUT: Outcome := Some(Err(TimedOut))

  /** One call either times out, leaving everything outstanding, or takes the oldest outstanding response. */
  lemma OneCall(s: State, call: Op, backlog: seq<RfidResponse>)
    requires Outstanding(s, backlog) && Sound(call)
    ensures var (t, outcome) := Step(s, call);
      && (NeverStalls(s.inbox) ==> NeverStalls(t.inbox))
      && (NeverStalls(s.inbox) && backlog != [] ==> outcome != TIMED_OUT)
      && if outcome == TIMED_OUT then Outstanding(t, backlog)
         else backlog != [] && outcome == Some(Verdict(backlog[0], call.command)) && Outstanding(t, backlog[1..])
  {
    hide Await, Outstanding, Size, BuildCommandFrame, Answers;
    assert BuildCommandFrame(call.address, Size(call.command), call.data).Ok? && s.connected by {
      CommandBuilds(call);
      Connected(s, backlog);
    }
    var u := s.(sent := s.sent + [BuildCommandFrame(call.address, Size(call.command), call.data).value]);
    SentIsIrrelevant(s, u, backlog);
    AwaitOutstanding(u, backlog);
    var (t, error) := Await(u);
    if error == None {
      TakeOldest(t, Take(t, call.command).0, backlog);
    }
  }

  /**
   * Which responses a call accepts, in terms of what the reader sent: a call that does not time
   * out returns the oldest outstanding response r iff r echoes its code or is the (0x00, 0xFE)
   * answer, and otherwise fails with both codes.
   */
  lemma CallRule(s: State, call: Op, r: Fields, others: seq<RfidResponse>)
    requires r.InRange() && Sound(call)
    ensures var outcome := Step(s, call).1;
      Outstanding(s, [ResponseOf(r)] + others) ==>
      || outcome == Some(Err(TimedOut))
      || outcome == Some(if r.command == Size(call.command) || (r.command == 0 && r.status == 254)
                         then Ok(ResponseOf(r))
                         else Err(UnexpectedCommand(ByteOf(r.command), call.command)))
  {
    hide Outstanding, Step, Size, ByteOf, Answers, Verdict;
    var f := ResponseOf(r);
    assert ([f] + others)[0] == f;
    if Outstanding(s, [f] + others) {
      OneCall(s, call, [f] + others);
    }
    VerdictRule(f, call.command);
    SizeOfByte(r.command);
    SizeOfByte(r.status);
    SizeRange(call.command);
    SizesOfAnswer();
  }

  lemma VerdictRule(f: RfidResponse, command: byte)
    ensures Verdict(f, command)
         == if f.command == command || (f.command == 0x00 && f.status == 0xFE) then Ok(f)
            else Err(UnexpectedCommand(f.command, command))
  {}

  lemma SizesOfAnswer()
    ensures ByteOf(0) == 0x00 && ByteOf(254) == 0xFE && Size(0x00) == 0 && Size(0xFE) == 254
  {}

  /** A command that is written goes out as one frame: its length, address, code, data and checksum. */
  lemma CommandOnWire(s: State, call: Op)
    requires Sound(call) && s.connected
    ensures Step(s, call).0.sent
         == s.sent + [WithCrc([ByteOf(|call.data| + 4), ByteOf(call.address), call.command] + call.data)]
  {
    hide Await, Size, ByteOf, Answers;
    SizeRange(call.command);
    var frame := BuildCommandFrame(call.address, Size(call.command), call.data).value;
    AwaitTakesNothing(s.(sent := s.sent + [frame]));
  }

  lemma CommandBuilds(call: Op)
    requires Sound(call)
    ensures BuildCommandFrame(call.address, Size(call.command), call.data).Ok?
  {
    SizeRange(call.command);
  }

  lemma Connected(s: State, backlog: seq<RfidResponse>)
    requires Outstanding(s, backlog)
    ensures s.connected
  {}

  lemma SentIsIrrelevant(s: State, t: State, backlog: seq<RfidResponse>)
    requires Outstanding(s, backlog) && t == s.(sent := t.sent)
    ensures Outstanding(t, backlog)
  {
    hide Decode, Frames, Clean, Delivers, Bytes;
  }

  lemma TakeOldest(s: State, t: State, backlog: seq<RfidResponse>)
    requires Outstanding(s, backlog) && s.queue != []
    requires t.connected == s.connected && t.pending == s.pending && t.inbox == s.inbox && t.queue == s.queue[1..]
    ensures backlog != [] && backlog[0] == s.queue[0] && Outstanding(t, backlog[1..])
  {
    hide Decode, Frames, Clean, Delivers, Bytes;
  }

  /** The number of calls that timed out. */
  function Lost(outcomes: seq<Outcome>): (n: nat)
    ensures n <= |outcomes|
  {
    if outcomes == [] then 0 else (if outcomes[0] == TIMED_OUT then 1 else 0) + Lost(outcomes[1..])
  }

  /** Call i took the outstanding response that is next when each call before it that did not time out took one. */
  predicate TookInOrder(outcomes: seq<Outcome>, calls: seq<Op>, backlog: seq<RfidResponse>)
    requires |outcomes| == |calls| && AllSound(calls)
  {
    forall i {:trigger outcomes[i]} :: 0 <= i < |calls| ==>
      outcomes[i] == TIMED_OUT
      || (i - Lost(outcomes[..i]) < |backlog|
          && outcomes[i] == Some(Verdict(backlog[i - Lost(outcomes[..i])], calls[i].command)))
  }

  /**
   * First in, first out, for every timing and every chunking: a call times out or takes the
   * oldest response that no call has taken, and succeeds iff that one answers its command. What
   * the calls have not taken is outstanding still. Calls time out only if the network stalls or
   * there are more of them than responses.
   */
  lemma {:induction false} Fifo(s: State, calls: seq<Op>, backlog: seq<RfidResponse>)
    requires Outstanding(s, backlog) && AllSound(calls)
    ensures var (t, outcomes) := Run(s, calls);
      && TookInOrder(outcomes, calls, backlog)
      && |calls| - Lost(outcomes) <= |backlog|
      && Outstanding(t, backlog[|calls| - Lost(outcomes)..])
      && (NeverStalls(s.inbox) && |calls| <= |backlog| ==> Lost(outcomes) == 0)
    decreases |calls|
  {
    hide Step, Outstanding, Verdict, Run, NeverStalls;
    if calls == [] {
      RunNothing(s);
      assert backlog[0..] == backlog;
    } else {
      var call, others := calls[0], calls[1..];
      assert calls == [call] + others;
      var (t, outcome) := Step(s, call);
      OneCall(s, call, backlog);
      var left := if outcome == TIMED_OUT then backlog else backlog[1..];
      assert forall i :: 0 <= i < |others| ==> others[i] == calls[i + 1];
      Fifo(t, others, left);
      RunCons(s, call, others);
      TookCons(outcome, Run(t, others).1, calls, backlog);
    }
  }

  lemma {:induction false} TookCons(
    outcome: Outcome, later: seq<Outcome>, calls: seq<Op>, backlog: seq<RfidResponse>)
    requires |calls| == |later| + 1 && AllSound(calls) && AllSound(calls[1..])
    requires outcome == TIMED_OUT || (backlog != [] && outcome == Some(Verdict(backlog[0], calls[0].command)))
    requires TookInOrder(later, calls[1..], if outcome == TIMED_OUT then backlog else backlog[1..])
    ensures TookInOrder([outcome] + later, calls, backlog)
    ensures Lost([outcome] + later) == (if outcome == TIMED_OUT then 1 else 0) + Lost(later)
  {
    hide Verdict;
    var all := [outcome] + later;
    assert all[1..] == later;
    forall i {:trigger all[i]} | 0 < i < |calls|
      ensures Lost(all[..i]) == (if outcome == TIMED_OUT then 1 else 0) + Lost(later[..i - 1])
      ensures all[i] == later[i - 1]
    {
      assert all[..i][1..] == later[..i - 1];
    }
    assert all[..0] == [];
  }

  /** `own[i]` answers call i. */
  predicate AnswersAll(own: seq<RfidResponse>, calls: seq<Op>) {
    |own| == |calls| && AllSound(calls) && forall i :: 0 <= i < |calls| ==> Answers(own[i], calls[i].command)
  }

  /**
   * Whose reply a call gets. `late` are the replies still outstanding for earlier calls when these
   * calls begin, `own` the replies to these. As long as nothing was late and no call has timed out,
   * each call returns its own reply; and afterwards nothing is outstanding iff nothing was late
   * and no call timed out.
   */
  lemma {:induction false} OwnReply(s: State, calls: seq<Op>, late: seq<RfidResponse>, own: seq<RfidResponse>)
    requires Outstanding(s, late + own) && AnswersAll(own, calls)
    ensures var (t, outcomes) := Run(s, calls);
      && (forall i {:trigger outcomes[i]} :: 0 <= i < |calls| && late == [] && Lost(outcomes[..i]) == 0 ==>
            outcomes[i] == TIMED_OUT || outcomes[i] == Some(Ok(own[i])))
      && |calls| - Lost(outcomes) <= |late + own|
      && Outstanding(t, (late + own)[|calls| - Lost(outcomes)..])
      && ((late + own)[|calls| - Lost(outcomes)..] == [] <==> late == [] && Lost(outcomes) == 0)
  {
    hide Outstanding, Run, Lost, Answers;
    Fifo(s, calls, late + own);
  }

  /**
   * On a connection that brings only responses, the condition of `OwnReplyExact` in terms of what
   * was outstanding: a call that did not time out returned its own reply iff the
   * response at its place in the queue of all outstanding ones is that reply. When no two
   * replies are equal, that is so iff nothing was late and no earlier call timed out.
   */
  lemma {:induction false} OwnReplyIff(
    s: State, calls: seq<Op>, late: seq<RfidResponse>, own: seq<RfidResponse>, i: nat)
    requires Outstanding(s, late + own) && AnswersAll(own, calls)
    requires i < |calls|
    ensures var outcomes, backlog := Run(s, calls).1, late + own;
      outcomes[i] == TIMED_OUT
      || (&& i - Lost(outcomes[..i]) < |backlog|
          && (outcomes[i] == Some(Ok(own[i])) <==> backlog[i - Lost(outcomes[..i])] == own[i])
          && ((forall j, k :: 0 <= j < k < |backlog| ==> backlog[j] != backlog[k]) ==>
                (outcomes[i] == Some(Ok(own[i])) <==> late == [] && Lost(outcomes[..i]) == 0)))
  {
    hide Outstanding, Run, Lost, Answers;
    var outcomes, backlog := Run(s, calls).1, late + own;
    Fifo(s, calls, backlog);
    if outcomes[i] != TIMED_OUT {
      var k := i - Lost(outcomes[..i]);
      assert outcomes[i] == Some(Verdict(backlog[k], calls[i].command));
      assert backlog[|late| + i] == own[i];
      assert k == |late| + i <==> late == [] && Lost(outcomes[..i]) == 0;
    }
  }

  /** Without stalls and with enough responses, call i takes the outstanding response at its own position. */
  lemma InOrder(s: State, calls: seq<Op>, backlog: seq<RfidResponse>)
    requires Outstanding(s, backlog) && AllSound(calls) && NeverStalls(s.inbox) && |calls| <= |backlog|
    ensures var (t, outcomes) := Run(s, calls);
      && (forall i :: 0 <= i < |calls| ==> outcomes[i] == Some(Verdict(backlog[i], calls[i].command)))
      && Outstanding(t, backlog[|calls|..])
  {
    hide Outstanding, Run, NeverStalls, Verdict, Lost;
    Fifo(s, calls, backlog);
    var outcomes := Run(s, calls).1;
    forall i | 0 <= i < |calls|
      ensures outcomes[i] == Some(Verdict(backlog[i], calls[i].command))
    {
      NothingLost(outcomes, i);
    }
  }

  lemma AllSends(calls: seq<Op>)
    requires AllSound(calls)
    ensures forall i :: 0 <= i < |calls| ==> calls[i].Send?
  {}

  /**
   * One timed-out call whose reply comes late: the next call takes that reply, every later call
   * takes the reply to the call before it, and each fails unless what it takes answers its own
   * command. The shift never ends by itself: afterwards one reply is still outstanding.
   */
  lemma {:induction false} LateReplyShifts(
    s: State, first: Op, others: seq<Op>, late: RfidResponse, own: seq<RfidResponse>)
    requires Outstanding(s, [late] + own) && AnswersAll(own, others) && Sound(first)
    requires s.queue == [] && s.inbox != [] && s.inbox[0] == Timeout && NeverStalls(s.inbox[1..])
    ensures var (t, outcomes) := Run(s, [first] + others);
      && outcomes[0] == TIMED_OUT
      && (forall i {:trigger others[i]} :: 0 <= i < |others| ==>
            outcomes[i + 1] == Some(Verdict(if i == 0 then late else own[i - 1], others[i].command)))
      && Outstanding(t, [if own == [] then late else own[|own| - 1]])
  {
    hide Outstanding, Run, NeverStalls, Verdict, Step, Answers, Sound, AllSound;
    var backlog := [late] + own;
    AllSends(others);
    FirstTimesOut(s, first, backlog);
    var t := Step(s, first).0;
    InOrder(t, others, backlog);
    RunCons(s, first, others);
    var outcomes := Run(t, others).1;
    forall i {:trigger others[i]} | 0 <= i < |others|
      ensures ([TIMED_OUT] + outcomes)[i + 1] == Some(Verdict(if i == 0 then late else own[i - 1], others[i].command))
    {
      assert backlog[i] == if i == 0 then late else own[i - 1];
    }
    assert backlog[|others|..] == [if own == [] then late else own[|own| - 1]];
  }

  lemma FirstTimesOut(s: State, call: Op, backlog: seq<RfidResponse>)
    requires Outstanding(s, backlog) && Sound(call)
    requires s.queue == [] && s.inbox != [] && s.inbox[0] == Timeout
    ensures var (t, outcome) := Step(s, call);
      outcome == TIMED_OUT && t.inbox == s.inbox[1..] && Outstanding(t, backlog)
  {
    hide Outstanding, Await, BuildCommandFrame, Size;
    CommandBuilds(call);
    Connected(s, backlog);
    var u := s.(sent := s.sent + [BuildCommandFrame(call.address, Size(call.command), call.data).value]);
    AwaitStops(u);
    SentIsIrrelevant(s, u, backlog);
    StallOutstanding(u, backlog);
  }

  lemma {:induction false} NothingLost(outcomes: seq<Outcome>, i: nat)
    requires Lost(outcomes) == 0 && i < |outcomes|
    ensures outcomes[i] != TIMED_OUT && Lost(outcomes[..i]) == 0
  {
    if i > 0 {
      NothingLost(outcomes[1..], i - 1);
      assert outcomes[..i][1..] == outcomes[1..][..i - 1];
    }
  }

  // ---- from the wire ----

  function AsMessages(rs: seq<Fields>): (ms: seq<Message>)
    requires forall r :: r in rs ==> r.InRange()
    ensures |ms| == |rs| && forall i :: 0 <= i < |rs| ==> ms[i] == Reply(rs[i])
    ensures forall m :: m in ms ==> m.Sendable()
  {
    seq(|rs|, i requires 0 <= i < |rs| => Reply(rs[i]))
  }

  function Responses(rs: seq<Fields>): (fs: seq<RfidResponse>)
    requires forall r :: r in rs ==> r.InRange()
    ensures |fs| == |rs| && forall i :: 0 <= i < |rs| ==> fs[i] == ResponseOf(rs[i])
  {
    seq(|rs|, i requires 0 <= i < |rs| => ResponseOf(rs[i]))
  }

  /** Replies that a fresh connection will deliver, cut up and delayed in any way, are what is outstanding. */
  lemma RepliesAreOutstanding(s: State, rs: seq<Fields>)
    requires forall r :: r in rs ==> r.InRange() && !Ambiguous(r)
    requires s.connected && s.queue == [] && s.pending == [] && Delivers(s.inbox)
    requires Bytes(s.inbox) == Encode(AsMessages(rs))
    ensures Outstanding(s, Responses(rs))
  {
    hide Decode, Encode, Ambiguous, ResponseOf, Report, Bytes, Delivers, Message.Wire;
    var ms := AsMessages(rs);
    RoundTrip(ms, None);
    assert [] + Bytes(s.inbox) == Bytes(s.inbox);
    NothingDecoded();
    assert Decode(s.pending, None) == Decoded([], []);
    ReportsAreResponses(rs);
    assert [] + Responses(rs) == Responses(rs);
  }

  lemma ReportsAreResponses(rs: seq<Fields>)
    requires forall r :: r in rs ==> r.InRange()
    ensures Frames(Reports(AsMessages(rs), None)) == Responses(rs) && Clean(Reports(AsMessages(rs), None))
  {
    hide ResponseOf, Message.Wire;
    if rs != [] {
      hide Frames, Errors, Heartbeats, AsMessages, Responses, Reports, Report;
      var others := rs[1..];
      var later := Reports(AsMessages(others), None);
      var first := Item(Reply(rs[0]).Wire(), Response(ResponseOf(rs[0])));
      ReportsAreResponses(others);
      ReportsCons(rs);
      SingleFrame(first.raw, ResponseOf(rs[0]));
      FramesAppend([first], later);
      ErrorsAppend([first], later);
      HeartbeatsAppend([first], later);
    }
  }

  lemma ReportsCons(rs: seq<Fields>)
    requires rs != [] && forall r :: r in rs ==> r.InRange()
    ensures Reports(AsMessages(rs), None)
         == [Item(Reply(rs[0]).Wire(), Response(ResponseOf(rs[0])))] + Reports(AsMessages(rs[1..]), None)
    ensures Responses(rs) == [ResponseOf(rs[0])] + Responses(rs[1..])
  {
    hide ResponseOf, Message.Wire, Fields.InRange;
  }

  /** A late reply that arrives in one piece with the next one, from a fresh client on. */
  lemma LateReplyRun(a: Fields, b: Fields, first: Command, second: Command)
    requires a.InRange() && b.InRange() && a.command == Size(first) && b.command == Size(second)
    ensures var inbox := [Timeout, Data(a.Build().value + b.Build().value)];
      var ops := [Op.Connect(Some(inbox)), Send(a.address, first, [], true), Send(b.address, second, [], true)];
      Run(INITIAL, ops).1 == [None, TIMED_OUT, Some(Verdict(ResponseOf(a), second))]
  {
    hide Outstanding, Run, Fields.Build, ResponseOf, Size, Verdict, Answers, Joined;
    BuildsIffInRange(a);
    BuildsIffInRange(b);
    PairEncoded(a, b);
    var raw := a.Build().value + b.Build().value;
    var inbox := [Timeout, Data(raw)];
    var calls := [Send(a.address, first, [], true), Send(b.address, second, [], true)];
    var s := INITIAL.(connected := true, inbox := inbox);
    PairOutstanding(s, a, b, first, second);
    EchoAnswers(b, second);
    var late, own := ResponseOf(a), ResponseOf(b);
    assert [late] + [own] == [late, own];
    LateReplyShifts(s, calls[0], [calls[1]], late, [own]);
    assert [calls[0]] + [calls[1]] == calls;
    var outcomes := Run(s, calls).1;
    assert outcomes == [TIMED_OUT, Some(Verdict(late, second))] by {
      assert [calls[1]][0] == calls[1];
    }
    RunCons(INITIAL, Op.Connect(Some(inbox)), calls);
    assert [Op.Connect(Some(inbox))] + calls == [Op.Connect(Some(inbox)), calls[0], calls[1]];
  }

  lemma EchoAnswers(r: Fields, command: Command)
    requires r.InRange() && r.command == Size(command)
    ensures Answers(ResponseOf(r), command)
  {}

  lemma PairOutstanding(s: State, a: Fields, b: Fields, first: Command, second: Command)
    requires a.InRange() && b.InRange() && a.command == Size(first) && b.command == Size(second)
    requires s.connected && s.pending == [] && s.queue == []
    requires var raw := a.Build().value + b.Build().value;
      s.inbox == [Data(raw)] || s.inbox == [Timeout, Data(raw)]
    ensures Outstanding(s, [ResponseOf(a), ResponseOf(b)])
  {
    hide Outstanding, Fields.Build, ResponseOf, Size, Bytes, Encode;
    NoCommandIsZero(first);
    NoCommandIsZero(second);
    var rs := [a, b];
    assert AsMessages(rs) == [Reply(a), Reply(b)];
    PairEncoded(a, b);
    RepliesAreOutstanding(s, rs);
    assert Responses(rs) == [ResponseOf(a), ResponseOf(b)];
  }

  lemma PairEncoded(a: Fields, b: Fields)
    requires a.InRange() && b.InRange()
    ensures var raw := a.Build().value + b.Build().value;
      && raw != []
      && Encode([Reply(a), Reply(b)]) == raw
      && Bytes([Data(raw)]) == Bytes([Timeout, Data(raw)]) == raw
  {
    hide Fields.Build;
    BuildsIffInRange(a);
    BuildsIffInRange(b);
    BuiltIsAccepted(a);
    var first, second := a.Build().value, b.Build().value;
    assert [Reply(a), Reply(b)][1..] == [Reply(b)] && [Reply(b)][1..] == [];
    assert Encode([Reply(b)]) == second + [] == second;
    assert Encode([Reply(a), Reply(b)]) == first + second;
    var raw := first + second;
    assert [Timeout, Data(raw)][1..] == [Data(raw)] && [Data(raw)][1..] == [];
    assert Bytes([Data(raw)]) == raw + [] == raw;
    assert Bytes([Timeout, Data(raw)]) == [] + raw == raw;
  }

  /** A heartbeat shifts the replies just so, though nothing is late and no call times out. */
  lemma HeartbeatRun(a: Fields, b: Fields, first: Command, second: Command)
    requires a.InRange() && b.InRange() && a.command == Size(first) && b.command == Size(second)
    ensures var inbox := [Data(HEARTBEAT), Data(a.Build().value + b.Build().value)];
      var ops := [Op.Connect(Some(inbox)), Send(a.address, first, [], true), Send(b.address, second, [], true)];
      Run(INITIAL, ops).1 == [None, Some(Err(UnexpectedHeartbeat)), Some(Verdict(ResponseOf(a), second))]
  {
    hide Outstanding, Run, Fields.Build, ResponseOf, Size, Verdict, Answers, Joined, Step;
    BuildsIffInRange(a);
    BuildsIffInRange(b);
    var raw := a.Build().value + b.Build().value;
    var inbox := [Data(HEARTBEAT), Data(raw)];
    var calls := [Send(a.address, first, [], true), Send(b.address, second, [], true)];
    var s := INITIAL.(connected := true, inbox := inbox);
    HeartbeatStep(s, calls[0]);
    var t := Step(s, calls[0]).0;
    PairEncoded(a, b);
    PairOutstanding(t, a, b, first, second);
    InOrder(t, [calls[1]], [ResponseOf(a), ResponseOf(b)]);
    assert Run(t, [calls[1]]).1 == [Some(Verdict(ResponseOf(a), second))] by {
      assert [calls[1]][0] == calls[1];
    }
    RunCons(s, calls[0], [calls[1]]);
    assert [calls[0]] + [calls[1]] == calls;
    ConnectStep(inbox);
    RunCons(INITIAL, Op.Connect(Some(inbox)), calls);
    assert [Op.Connect(Some(inbox))] + calls == [Op.Connect(Some(inbox)), calls[0], calls[1]];
  }

  lemma ConnectStep(inbox: seq<Arrival>)
    ensures Step(INITIAL, Op.Connect(Some(inbox))) == (INITIAL.(connected := true, inbox := inbox), None)
  {}

  /** A call that meets a heartbeat fails, and takes nothing. */
  lemma HeartbeatStep(s: State, call: Op)
    requires Sound(call) && s.connected && s.queue == [] && s.pending == []
    requires s.inbox != [] && s.inbox[0] == Data(HEARTBEAT)
    ensures var (t, outcome) := Step(s, call);
      && outcome == Some(Err(UnexpectedHeartbeat))
      && t.connected && t.queue == [] && t.pending == [] && t.inbox == s.inbox[1..]
  {
    hide Await, BuildCommandFrame, Size, Decode, Errors, Heartbeats;
    CommandBuilds(call);
    var u := s.(sent := s.sent + [BuildCommandFrame(call.address, Size(call.command), call.data).value]);
    assert u.pending + HEARTBEAT == HEARTBEAT;
    HeartbeatAlone();
    AwaitReads(u, HEARTBEAT, Decode(HEARTBEAT, None));
  }

  lemma HeartbeatAlone()
    ensures var d := Decode(HEARTBEAT, None);
      d.rest == [] && Errors(d.items) == [] && Heartbeats(d.items) != []
  {
    var items := [Item(HEARTBEAT, Heartbeat(HEARTBEAT))];
    assert HEARTBEAT[..HEARTBEAT_LENGTH] == HEARTBEAT && HEARTBEAT[HEARTBEAT_LENGTH..] == [];
    assert items[1..] == [] && items + [] == items;
  }

  /** A response too many in front shifts the replies, though every call takes one at once. */
  lemma SurplusRun(u: Fields, a: Fields, b: Fields, first: Command, second: Command)
    requires u.InRange() && a.InRange() && b.InRange() && !Ambiguous(u)
    requires a.command == Size(first) && b.command == Size(second)
    ensures AllSendable([Reply(u), Reply(a), Reply(b)])
    ensures var inbox := [Data(Encode([Reply(u), Reply(a), Reply(b)]))];
      var ops := [Op.Connect(Some(inbox)), Send(a.address, first, [], true), Send(b.address, second, [], true)];
      Run(INITIAL, ops).1 == [None, Some(Verdict(ResponseOf(u), first)), Some(Verdict(ResponseOf(a), second))]
  {
    hide Outstanding, Run, Fields.Build, ResponseOf, Size, Verdict, Answers, Encode, Step, Bytes, Ambiguous;
    var rs := [u, a, b];
    var backlog := [ResponseOf(u), ResponseOf(a), ResponseOf(b)];
    assert AsMessages(rs) == [Reply(u), Reply(a), Reply(b)];
    var raw := Encode(AsMessages(rs));
    EncodeNotEmpty(AsMessages(rs));
    OneChunk(raw);
    NoCommandIsZero(first);
    NoCommandIsZero(second);
    NotAmbiguous(a);
    NotAmbiguous(b);
    var inbox := [Data(raw)];
    var calls := [Send(a.address, first, [], true), Send(b.address, second, [], true)];
    var s := INITIAL.(connected := true, inbox := inbox);
    RepliesAreOutstanding(s, rs);
    assert Responses(rs) == backlog;
    InOrder(s, calls, backlog);
    var outcomes := Run(s, calls).1;
    assert outcomes[0] == Some(Verdict(backlog[0], first)) by { assert calls[0].command == first; }
    assert outcomes[1] == Some(Verdict(backlog[1], second)) by { assert calls[1].command == second; }
    assert outcomes == [outcomes[0], outcomes[1]];
    ConnectStep(inbox);
    RunCons(INITIAL, Op.Connect(Some(inbox)), calls);
    assert [Op.Connect(Some(inbox))] + calls == [Op.Connect(Some(inbox)), calls[0], calls[1]];
  }

  predicate AllSendable(ms: seq<Message>) {
    forall m :: m in ms ==> m.Sendable()
  }

  lemma NotAmbiguous(x: Fields)
    requires x.command != 0
    ensures !Ambiguous(x)
  {}

  lemma EncodeNotEmpty(ms: seq<Message>)
    requires AllSendable(ms) && ms != [] && ms[0].Reply?
    ensures Encode(ms) != []
  {
    hide Fields.Build;
    var x := ms[0].fields;
    assert ms[0] in ms;
    BuildsIffInRange(x);
    BuiltIsAccepted(x);
  }

  lemma OneChunk(raw: seq<byte>)
    ensures Bytes([Data(raw)]) == raw
  {
    assert [Data(raw)][1..] == [];
    assert raw + [] == raw;
  }

  /**
   * Five inputs that show the failure: the late reply to 0x21 makes the next call fail if its code
   * is another one, and is returned as the wrong reader's answer if its code is the same; so it
   * is with a heartbeat in place of the delay; a second reader that answers the first command,
   * or a report of code 0xEE that nobody asked for, does the same though nothing is late or missed.
   */
  lemma WrongReplyExamples()
    ensures var a, b := Fields(1, 0x21, 0, []), Fields(2, 0x2F, 0, []);
      var inbox := [Timeout, Data(a.Build().value + b.Build().value)];
      var ops := [Op.Connect(Some(inbox)), Send(1, 0x21, [], true), Send(2, 0x2F, [], true)];
      Run(INITIAL, ops).1 == [None, TIMED_OUT, Some(Err(UnexpectedCommand(0x21, 0x2F)))]
    ensures var a, b := Fields(1, 0x21, 0, []), Fields(2, 0x21, 0, []);
      var inbox := [Timeout, Data(a.Build().value + b.Build().value)];
      var ops := [Op.Connect(Some(inbox)), Send(1, 0x21, [], true), Send(2, 0x21, [], true)];
      Run(INITIAL, ops).1 == [None, TIMED_OUT, Some(Ok(ResponseOf(a)))] && ResponseOf(a) != ResponseOf(b)
    ensures var a, b := Fields(1, 0x21, 0, []), Fields(2, 0x21, 0, []);
      var inbox := [Data(HEARTBEAT), Data(a.Build().value + b.Build().value)];
      var ops := [Op.Connect(Some(inbox)), Send(1, 0x21, [], true), Send(2, 0x21, [], true)];
      && Run(INITIAL, ops).1 == [None, Some(Err(UnexpectedHeartbeat)), Some(Ok(ResponseOf(a)))]
      && ResponseOf(a) != ResponseOf(b)
    ensures var u, a, b := Fields(1, 0x21, 0, []), Fields(2, 0x21, 0, []), Fields(3, 0x21, 0, []);
      var inbox := [Data(Encode([Reply(u), Reply(a), Reply(b)]))];
      var ops := [Op.Connect(Some(inbox)), Send(2, 0x21, [], true), Send(3, 0x21, [], true)];
      && Run(INITIAL, ops).1 == [None, Some(Ok(ResponseOf(u))), Some(Ok(ResponseOf(a)))]
      && Distinct([ResponseOf(u), ResponseOf(a), ResponseOf(b)])
    ensures var u, a, b := Fields(1, 0xEE, 0, []), Fields(2, 0x21, 0, []), Fields(3, 0x21, 0, []);
      var inbox := [Data(Encode([Reply(u), Reply(a), Reply(b)]))];
      var ops := [Op.Connect(Some(inbox)), Send(2, 0x21, [], true), Send(3, 0x21, [], true)];
      && Run(INITIAL, ops).1 == [None, Some(Err(UnexpectedCommand(0xEE, 0x21))), Some(Ok(ResponseOf(a)))]
      && ResponseOf(a) != ResponseOf(b)
  {
    hide Run, Fields.Build, Encode;
    var a, b, u := Fields(1, 0x21, 0, []), Fields(2, 0x21, 0, []), Fields(1, 0xEE, 0, []);
    LateReplyRun(a, Fields(2, 0x2F, 0, []), 0x21, 0x2F);
    LateReplyRun(a, b, 0x21, 0x21);
    HeartbeatRun(a, b, 0x21, 0x21);
    SurplusRun(a, b, Fields(3, 0x21, 0, []), 0x21, 0x21);
    SurplusRun(u, b, Fields(3, 0x21, 0, []), 0x21, 0x21);
  }
}
