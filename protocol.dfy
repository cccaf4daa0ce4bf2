/**
 * The holder's command loop (serve_client) as a function of what its reads return and of
 * what each send of the descriptors returns, with the properties of that loop.
 */
module Protocol {
  import opened Wire

  /** The commands the receiver writes, all at once, before it reads anything. */
  const ReceiverScript: seq<Byte> := [CmdStart, CmdFds, CmdEnd]

  /** What one read of a command byte returns: -1, 0 (end of file) or the byte. */
  datatype ReadOutcome = ReadError | ReadEof | ReadByte(b: Byte)

  /** Why the loop gave up; each is reported as EXIT_FAILURE. */
  datatype Fault =
    | ReadFailed
    | InvalidCommand(cmd: Byte)
    | DuplicateStart
    | EndBeforeStart
    | FdsBeforeStart
    | ClientError
    | SendFailed

  /**
   * How the loop ended. Unfinished means the given outcomes ran out before it ended: the
   * real loop would go on reading (or sending).
   */
  datatype Status = Served | Failed(fault: Fault) | Unfinished

  /** The status, how many times send_fds was called, and how many reads were made. */
  datatype ServeResult = ServeResult(status: Status, sendCalls: nat, readsUsed: nat)

  /** The command byte the switch sees after one read: the byte read, or after a 0-byte read whatever cmd still holds. */
  function Effective(cmd: Byte, o: ReadOutcome): Byte
  {
    if o.ReadByte? then o.b else cmd
  }

  /** Counts an earlier step into a result. */
  function Shift(r: ServeResult, readsBefore: nat, sendsBefore: nat): ServeResult
  {
    ServeResult(r.status, r.sendCalls + sendsBefore, r.readsUsed + readsBefore)
  }

  /**
   * serve_client from a state (the started flag and the current value of cmd), consuming
   * the read outcomes in order and, for each send_fds, the next value sendmsg returns.
   */
  function Serve(started: bool, cmd: Byte, input: seq<ReadOutcome>, sendRvs: seq<int>): (r: ServeResult)
    ensures r.readsUsed <= |input|
    ensures r.sendCalls <= |sendRvs|
    ensures r.status != Unfinished ==> 1 <= r.readsUsed
    decreases |input|
  {
    if input == [] then ServeResult(Unfinished, 0, 0)
    else if input[0].ReadError? then ServeResult(Failed(ReadFailed), 0, 1)
    else
      var c := Effective(cmd, input[0]);
      if c == CmdStart then
        if started then ServeResult(Failed(DuplicateStart), 0, 1)
        else Shift(Serve(true, c, input[1..], sendRvs), 1, 0)
      else if c == CmdEnd then
        ServeResult(if started then Served else Failed(EndBeforeStart), 0, 1)
      else if c == CmdFds then
        if !started then ServeResult(Failed(FdsBeforeStart), 0, 1)
        else if sendRvs == [] then ServeResult(Unfinished, 0, 1)
        else if sendRvs[0] < 1 then ServeResult(Failed(SendFailed), 1, 1)
        else Shift(Serve(true, c, input[1..], sendRvs[1..]), 1, 1)
      else if c == CmdError then ServeResult(Failed(ClientError), 0, 1)
      else ServeResult(Failed(InvalidCommand(c)), 0, 1)
  }

  /** What one pass of the switch leaves the loop to do: read again from a new state, or return. */
  datatype Next =
    | Continue(started: bool, cmd: Byte, sendCalled: bool)
    | Stop(status: Status, sendCalled: bool)

  /**
   * One pass of serve_client's switch on the outcome of one read, where pending are the
   * values sendmsg will return; sendCalled says whether send_fds was called.
   */
  function Step(started: bool, cmd: Byte, o: ReadOutcome, pending: seq<int>): Next
  {
    if o.ReadError? then Stop(Failed(ReadFailed), false)
    else
      var c := Effective(cmd, o);
      if c == CmdStart then
        if started then Stop(Failed(DuplicateStart), false) else Continue(true, c, false)
      else if c == CmdEnd then
        Stop(if started then Served else Failed(EndBeforeStart), false)
      else if c == CmdFds then
        if !started then Stop(Failed(FdsBeforeStart), false)
        else if pending == [] then Stop(Unfinished, false)
        else if pending[0] < 1 then Stop(Failed(SendFailed), true)
        else Continue(true, c, true)
      else if c == CmdError then Stop(Failed(ClientError), false)
      else Stop(Failed(InvalidCommand(c)), false)
  }

  /** Serve takes one Step per read: it stops where the step stops and otherwise goes on from the step's state. */
  lemma ServeByStep(started: bool, cmd: Byte, input: seq<ReadOutcome>, sendRvs: seq<int>)
    requires input != []
    ensures var next := Step(started, cmd, input[0], sendRvs);
      var k := if next.sendCalled then 1 else 0;
      Serve(started, cmd, input, sendRvs) ==
        if next.Stop? then ServeResult(next.status, k, 1)
        else Shift(Serve(next.started, next.cmd, input[1..], sendRvs[k..]), 1, k)
  {
  }

  /** serve_client as called: not started, cmd uninitialised (any byte). */
  function ServeFromStart(initialCmd: Byte, input: seq<ReadOutcome>, sendRvs: seq<int>): ServeResult
  {
    Serve(false, initialCmd, input, sendRvs)
  }

  // ---------------------------------------------------------------------------
  // Vocabulary for the lemmas

  /** The command bytes the switch sees for a run of reads. */
  function Seen(cmd: Byte, input: seq<ReadOutcome>): (s: seq<Byte>)
    ensures |s| == |input|
    decreases |input|
  {
    if input == [] then []
    else [Effective(cmd, input[0])] + Seen(Effective(cmd, input[0]), input[1..])
  }

  /** k copies of a byte. */
  function Repeat(b: Byte, k: nat): (s: seq<Byte>)
    ensures |s| == k
    ensures forall i :: 0 <= i < k ==> s[i] == b
  {
    if k == 0 then [] else [b] + Repeat(b, k - 1)
  }

  /** The reads that return the given bytes one at a time. */
  function AsReads(bs: seq<Byte>): (r: seq<ReadOutcome>)
    ensures |r| == |bs|
    ensures forall i :: 0 <= i < |bs| ==> r[i] == ReadByte(bs[i])
  {
    if bs == [] then [] else [ReadByte(bs[0])] + AsReads(bs[1..])
  }

  /** The sends succeed: sendmsg returned at least the one in-band byte. */
  predicate SendsSucceed(sendRvs: seq<int>, k: nat)
  {
    k <= |sendRvs| && forall j :: 0 <= j < k ==> sendRvs[j] >= 1
  }

  // ---------------------------------------------------------------------------
  // Single-step properties

  /** A read that returns -1 ends the loop with failure, without a send. */
  lemma ReadErrorFails(started: bool, cmd: Byte, rest: seq<ReadOutcome>, sendRvs: seq<int>)
    ensures Serve(started, cmd, [ReadError] + rest, sendRvs) == ServeResult(Failed(ReadFailed), 0, 1)
  {
  }

  /** A start seen after start (also when a 0-byte read leaves start in cmd) fails at once, without a send. */
  lemma DuplicateStartFails(cmd: Byte, o: ReadOutcome, rest: seq<ReadOutcome>, sendRvs: seq<int>)
    requires !o.ReadError? && Effective(cmd, o) == CmdStart
    ensures Serve(true, cmd, [o] + rest, sendRvs) == ServeResult(Failed(DuplicateStart), 0, 1)
  {
  }

  /** The error command and every byte outside the four commands fail at once, without a send. */
  lemma ErrorAndUnknownFail(started: bool, cmd: Byte, o: ReadOutcome, rest: seq<ReadOutcome>, sendRvs: seq<int>)
    requires !o.ReadError?
    requires Effective(cmd, o) !in {CmdStart, CmdEnd, CmdFds}
    ensures Serve(started, cmd, [o] + rest, sendRvs) ==
      ServeResult(Failed(if Effective(cmd, o) == CmdError then ClientError else InvalidCommand(Effective(cmd, o))), 0, 1)
  {
  }

  /** A 0-byte read is not rejected: the switch runs again on the byte cmd still holds. */
  lemma EofRepeatsCommand(started: bool, cmd: Byte, rest: seq<ReadOutcome>, sendRvs: seq<int>)
    ensures Serve(started, cmd, [ReadEof] + rest, sendRvs) == Serve(started, cmd, [ReadByte(cmd)] + rest, sendRvs)
  {
    assert ([ReadEof] + rest)[1..] == rest;
    assert ([ReadByte(cmd)] + rest)[1..] == rest;
  }

  // ---------------------------------------------------------------------------
  // Whole-run properties

  /** Once started, the loop never reports a command before start. */
  lemma {:induction false} StartedNeverPreStartFault(cmd: Byte, input: seq<ReadOutcome>, sendRvs: seq<int>)
    ensures Serve(true, cmd, input, sendRvs).status !in {Failed(EndBeforeStart), Failed(FdsBeforeStart)}
    decreases |input|
  {
    if input != [] && !input[0].ReadError? {
      var c := Effective(cmd, input[0]);
      if c == CmdFds && sendRvs != [] && sendRvs[0] >= 1 {
        StartedNeverPreStartFault(c, input[1..], sendRvs[1..]);
      }
    }
  }

  /** An end or fds before start fails on the first read, and no descriptors are sent. */
  lemma {:induction false} PreStartFaultsSendNothing(cmd: Byte, input: seq<ReadOutcome>, sendRvs: seq<int>)
    requires Serve(false, cmd, input, sendRvs).status in {Failed(EndBeforeStart), Failed(FdsBeforeStart)}
    ensures Serve(false, cmd, input, sendRvs).sendCalls == 0
    ensures Serve(false, cmd, input, sendRvs).readsUsed == 1
  {
    var c := Effective(cmd, input[0]);
    if c == CmdStart {
      StartedNeverPreStartFault(c, input[1..], sendRvs);
    }
  }

  /** Before start, a read that yields end or fds ends the session at once with the matching fault, whatever follows. */
  lemma PreStartRejected(cmd: Byte, o: ReadOutcome, rest: seq<ReadOutcome>, sendRvs: seq<int>)
    requires !o.ReadError? && Effective(cmd, o) in {CmdEnd, CmdFds}
    ensures Serve(false, cmd, [o] + rest, sendRvs) ==
      ServeResult(Failed(if Effective(cmd, o) == CmdEnd then EndBeforeStart else FdsBeforeStart), 0, 1)
  {
    assert ([o] + rest)[0] == o;
  }

  /** Once started: k fds commands with k successful sends, then end, serve the session after exactly k sends. */
  lemma {:induction false} FdsThenEndServed(cmd: Byte, k: nat, rest: seq<ReadOutcome>, sendRvs: seq<int>)
    requires SendsSucceed(sendRvs, k)
    ensures Serve(true, cmd, AsReads(Repeat(CmdFds, k) + [CmdEnd]) + rest, sendRvs) == ServeResult(Served, k, k + 1)
    decreases k
  {
    var input := AsReads(Repeat(CmdFds, k) + [CmdEnd]) + rest;
    if k == 0 {
      assert input[0] == ReadByte(CmdEnd);
    } else {
      assert input[0] == ReadByte(CmdFds);
      assert Repeat(CmdFds, k) + [CmdEnd] == [CmdFds] + (Repeat(CmdFds, k - 1) + [CmdEnd]);
      assert input[1..] == AsReads(Repeat(CmdFds, k - 1) + [CmdEnd]) + rest;
      FdsThenEndServed(CmdFds, k - 1, rest, sendRvs[1..]);
    }
  }

  /** start, then k fds, then end, with k successful sends: served after exactly k sends and k + 2 reads. */
  lemma ScriptServed(cmd: Byte, k: nat, rest: seq<ReadOutcome>, sendRvs: seq<int>)
    requires SendsSucceed(sendRvs, k)
    ensures ServeFromStart(cmd, AsReads([CmdStart] + Repeat(CmdFds, k) + [CmdEnd]) + rest, sendRvs) == ServeResult(Served, k, k + 2)
  {
    var input := AsReads([CmdStart] + Repeat(CmdFds, k) + [CmdEnd]) + rest;
    assert input[0] == ReadByte(CmdStart);
    assert [CmdStart] + Repeat(CmdFds, k) + [CmdEnd] == [CmdStart] + (Repeat(CmdFds, k) + [CmdEnd]);
    assert input[1..] == AsReads(Repeat(CmdFds, k) + [CmdEnd]) + rest;
    FdsThenEndServed(CmdStart, k, rest, sendRvs);
  }

  /** The receiver's script with one successful send is served after exactly one send and three reads. */
  lemma ReceiverScriptServed(cmd: Byte, rest: seq<ReadOutcome>, sendRvs: seq<int>)
    requires SendsSucceed(sendRvs, 1)
    ensures ServeFromStart(cmd, AsReads(ReceiverScript) + rest, sendRvs) == ServeResult(Served, 1, 3)
  {
    assert ReceiverScript == [CmdStart] + Repeat(CmdFds, 1) + [CmdEnd];
    ScriptServed(cmd, 1, rest, sendRvs);
  }

  /** Once started: after k successful sends, a fds command whose send fails ends the loop at once with failure. */
  lemma {:induction false} FailedSendStops(cmd: Byte, k: nat, rest: seq<ReadOutcome>, sendRvs: seq<int>)
    requires SendsSucceed(sendRvs, k) && k < |sendRvs| && sendRvs[k] < 1
    ensures Serve(true, cmd, AsReads(Repeat(CmdFds, k + 1)) + rest, sendRvs) == ServeResult(Failed(SendFailed), k + 1, k + 1)
    decreases k
  {
    var input := AsReads(Repeat(CmdFds, k + 1)) + rest;
    assert input[0] == ReadByte(CmdFds);
    if k > 0 {
      assert input[1..] == AsReads(Repeat(CmdFds, k)) + rest;
      FailedSendStops(CmdFds, k - 1, rest, sendRvs[1..]);
    }
  }

  /** The one step a served session takes first: start before starting, a successful fds, or end. */
  lemma ServedFirstStep(started: bool, cmd: Byte, input: seq<ReadOutcome>, sendRvs: seq<int>)
    requires Serve(started, cmd, input, sendRvs).status == Served
    ensures input != [] && !input[0].ReadError?
    ensures var c := Effective(cmd, input[0]);
      var r := Serve(started, cmd, input, sendRvs);
      (c == CmdStart && !started && r == Shift(Serve(true, c, input[1..], sendRvs), 1, 0)) ||
      (c == CmdFds && started && sendRvs != [] && sendRvs[0] >= 1 &&
        r == Shift(Serve(true, c, input[1..], sendRvs[1..]), 1, 1)) ||
      (c == CmdEnd && started && r == ServeResult(Served, 0, 1))
  {
  }

  /** A served session read no -1. */
  lemma {:induction false} ServedNoReadError(started: bool, cmd: Byte, input: seq<ReadOutcome>, sendRvs: seq<int>)
    requires Serve(started, cmd, input, sendRvs).status == Served
    ensures forall j :: 0 <= j < Serve(started, cmd, input, sendRvs).readsUsed ==> !input[j].ReadError?
    decreases |input|
  {
    ServedFirstStep(started, cmd, input, sendRvs);
    var c := Effective(cmd, input[0]);
    if c != CmdEnd {
      var rest := if c == CmdFds then sendRvs[1..] else sendRvs;
      var n := Serve(started, cmd, input, sendRvs).readsUsed;
      var tail := input[1..];
      assert n == Serve(true, c, tail, rest).readsUsed + 1;
      ServedNoReadError(true, c, tail, rest);
      ReadsShift(input, n);
    }
  }

  /** A prefix of n reads has no -1 when its first read and the n - 1 reads after it have none. */
  lemma ReadsShift(input: seq<ReadOutcome>, n: nat)
    requires 1 <= n <= |input| && !input[0].ReadError?
    requires forall j :: 0 <= j < n - 1 ==> !input[1..][j].ReadError?
    ensures forall j :: 0 <= j < n ==> !input[j].ReadError?
  {
    forall j | 1 <= j < n
      ensures !input[j].ReadError?
    {
      assert input[j] == input[1..][j - 1];
    }
  }

  /** Every send of a served session succeeded. */
  lemma {:induction false} ServedSendsSucceed(started: bool, cmd: Byte, input: seq<ReadOutcome>, sendRvs: seq<int>)
    requires Serve(started, cmd, input, sendRvs).status == Served
    ensures SendsSucceed(sendRvs, Serve(started, cmd, input, sendRvs).sendCalls)
    decreases |input|
  {
    ServedFirstStep(started, cmd, input, sendRvs);
    var c := Effective(cmd, input[0]);
    var tail := input[1..];
    if c == CmdStart {
      ServedSendsSucceed(true, c, tail, sendRvs);
    } else if c == CmdFds {
      var r' := Serve(true, c, tail, sendRvs[1..]);
      assert Serve(started, cmd, input, sendRvs).sendCalls == r'.sendCalls + 1;
      ServedSendsSucceed(true, c, tail, sendRvs[1..]);
      SendsShift(sendRvs, r'.sendCalls);
    }
  }

  /** A successful first send followed by k successful sends. */
  lemma SendsShift(sendRvs: seq<int>, k: nat)
    requires sendRvs != [] && sendRvs[0] >= 1 && SendsSucceed(sendRvs[1..], k)
    ensures SendsSucceed(sendRvs, k + 1)
  {
    forall j | 1 <= j < k + 1
      ensures sendRvs[j] >= 1
    {
      assert sendRvs[j] == sendRvs[1..][j - 1];
    }
  }

  /** The commands a served session saw: start unless already started, one fds per send, then end. */
  lemma ServedCommands(started: bool, cmd: Byte, input: seq<ReadOutcome>, sendRvs: seq<int>)
    requires Serve(started, cmd, input, sendRvs).status == Served
    ensures var r := Serve(started, cmd, input, sendRvs);
      Seen(cmd, input[..r.readsUsed]) == (if started then [] else [CmdStart]) + Repeat(CmdFds, r.sendCalls) + [CmdEnd]
  {
    if started {
      ServedCommandsStarted(cmd, input, sendRvs);
      var r := Serve(started, cmd, input, sendRvs);
      assert [] + Repeat(CmdFds, r.sendCalls) + [CmdEnd] == Repeat(CmdFds, r.sendCalls) + [CmdEnd];
    } else {
      ServedCommandsFromStart(cmd, input, sendRvs);
    }
  }

  /** Before start, a served session saw start and then what a started session sees. */
  lemma ServedCommandsFromStart(cmd: Byte, input: seq<ReadOutcome>, sendRvs: seq<int>)
    requires Serve(false, cmd, input, sendRvs).status == Served
    ensures var r := Serve(false, cmd, input, sendRvs);
      Seen(cmd, input[..r.readsUsed]) == [CmdStart] + Repeat(CmdFds, r.sendCalls) + [CmdEnd]
  {
    ServedFirstStep(false, cmd, input, sendRvs);
    var r := Serve(false, cmd, input, sendRvs);
    var tail := input[1..];
    var r' := Serve(true, CmdStart, tail, sendRvs);
    assert r == Shift(r', 1, 0);
    ServedCommandsStarted(CmdStart, tail, sendRvs);
    var used := input[..r.readsUsed];
    assert Seen(cmd, used) == [CmdStart] + Seen(CmdStart, tail[..r'.readsUsed]) by {
      assert used[1..] == tail[..r'.readsUsed];
      SeenCons(cmd, used);
    }
  }

  /** Once started, a served session saw one fds per send and then end. */
  lemma {:induction false} ServedCommandsStarted(cmd: Byte, input: seq<ReadOutcome>, sendRvs: seq<int>)
    requires Serve(true, cmd, input, sendRvs).status == Served
    ensures var r := Serve(true, cmd, input, sendRvs);
      Seen(cmd, input[..r.readsUsed]) == Repeat(CmdFds, r.sendCalls) + [CmdEnd]
    decreases |input|
  {
    ServedFirstStep(true, cmd, input, sendRvs);
    var r := Serve(true, cmd, input, sendRvs);
    var used := input[..r.readsUsed];
    if Effective(cmd, input[0]) == CmdEnd {
      assert Seen(cmd, used) == [CmdEnd] by {
        assert used == [input[0]];
        SeenCons(cmd, used);
      }
    } else {
      var tail := input[1..];
      var r' := Serve(true, CmdFds, tail, sendRvs[1..]);
      assert r == Shift(r', 1, 1);
      ServedCommandsStarted(CmdFds, tail, sendRvs[1..]);
      assert Seen(cmd, used) == [CmdFds] + Seen(CmdFds, tail[..r'.readsUsed]) by {
        assert used[1..] == tail[..r'.readsUsed];
        SeenCons(cmd, used);
      }
      assert Repeat(CmdFds, r'.sendCalls + 1) == [CmdFds] + Repeat(CmdFds, r'.sendCalls);
    }
  }

  /** The first command seen, then those seen after it. */
  lemma SeenCons(cmd: Byte, used: seq<ReadOutcome>)
    requires used != []
    ensures Seen(cmd, used) == [Effective(cmd, used[0])] + Seen(Effective(cmd, used[0]), used[1..])
  {
  }

  /**
   * Soundness of the loop: a served session read no -1, saw exactly start (unless already
   * started), one fds per send, then end, and every send succeeded.
   */
  lemma ServedShape(started: bool, cmd: Byte, input: seq<ReadOutcome>, sendRvs: seq<int>)
    requires Serve(started, cmd, input, sendRvs).status == Served
    ensures var r := Serve(started, cmd, input, sendRvs);
      (forall j :: 0 <= j < r.readsUsed ==> !input[j].ReadError?) &&
      Seen(cmd, input[..r.readsUsed]) == (if started then [] else [CmdStart]) + Repeat(CmdFds, r.sendCalls) + [CmdEnd] &&
      SendsSucceed(sendRvs, r.sendCalls)
  {
    ServedNoReadError(started, cmd, input, sendRvs);
    ServedCommands(started, cmd, input, sendRvs);
    ServedSendsSucceed(started, cmd, input, sendRvs);
  }
}
