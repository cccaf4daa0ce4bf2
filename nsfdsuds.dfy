/**
 * The program record and the operations that change it in place: the slot initialisation
 * in main, close_nsfds, the holder's open loop, send_fds, recv_fds, serve_client, the
 * holder's run with its unwinding clean-up, and the receiver's run. Every system call is
 * replaced by the value it returned, taken from an input.
 */
module Nsfdsuds {
  import opened Wire
  import opened Namespaces
  import opened Codec
  import opened Protocol
  import opened Server
  import T = Teardown

  /** The values the receiver's system calls return. */
  datatype ClientEnv = ClientEnv(socketRv: int, connectRv: int, writeRv: int, delivery: Delivery, closeRv: int)

  /** The receiver gets as far as recvmsg: socket, connect and the write of all three commands succeeded. */
  predicate ReachesRecv(env: ClientEnv)
  {
    env.socketRv != -1 && env.connectRv == 0 && env.writeRv >= |ReceiverScript|
  }

  /** The program record; nsfds is the descriptor array, one slot per namespace kind. */
  class Program {
    const nsfds: array<int>

    predicate Valid()
    {
      nsfds.Length == NsCount
    }

    /** main: every slot starts absent. */
    constructor ()
      ensures Valid() && fresh(nsfds)
      ensures AllAbsent(nsfds[..])
    {
      var slots := new int[NsCount];
      var nsi := 0;
      while nsi < NsCount
        invariant 0 <= nsi <= NsCount
        invariant forall j :: 0 <= j < nsi ==> slots[j] == Absent
      {
        slots[nsi] := Absent;
        nsi := nsi + 1;
      }
      nsfds := slots;
    }

    /**
     * close_nsfds, where closeRvs[i] is what close returns for slot i: every non-absent slot
     * is attempted, in slot order; a slot becomes absent exactly when its close returns 0;
     * the result is success exactly when no attempted close failed.
     */
    method CloseNsFds(closeRvs: seq<int>) returns (ok: bool, attempted: seq<nat>)
      requires Valid() && |closeRvs| == NsCount
      modifies nsfds
      ensures nsfds[..] == AfterClose(old(nsfds[..]), closeRvs)
      ensures attempted == Attempted(old(nsfds[..]), NsCount)
      ensures ok <==> AllClosed(old(nsfds[..]), closeRvs)
    {
      ok := true;
      attempted := [];
      ghost var slots := nsfds[..];
      var nsi := 0;
      while nsi < NsCount
        invariant 0 <= nsi <= NsCount
        invariant forall j :: 0 <= j < nsi ==> nsfds[j] == AfterClose(slots, closeRvs)[j]
        invariant forall j :: nsi <= j < NsCount ==> nsfds[j] == slots[j]
        invariant attempted == Attempted(slots, nsi)
        invariant ok <==> forall j :: 0 <= j < nsi && slots[j] != Absent ==> closeRvs[j] == 0
      {
        if nsfds[nsi] != Absent {
          attempted := attempted + [nsi];
          if closeRvs[nsi] != 0 {
            ok := false;
          } else {
            nsfds[nsi] := Absent;
          }
        }
        nsi := nsi + 1;
      }
    }

    /**
     * The holder's open loop, where openRvs[i] is what open returns for slot i: slots are
     * opened in order, each storing open's result, and the loop stops at the first -1.
     * paths are the paths handed to open.
     */
    method OpenNsFds(openRvs: seq<int>) returns (count: nat, ok: bool, paths: seq<string>)
      requires Valid() && |openRvs| == NsCount
      modifies nsfds
      ensures count == FirstFailure(openRvs)
      ensures ok <==> count == NsCount
      ensures nsfds[..] == AfterOpen(old(nsfds[..]), openRvs)
      ensures |paths| == (if ok then NsCount else count + 1)
      ensures forall i :: 0 <= i < |paths| ==> i < NsCount && paths[i] == NsPath(i)
    {
      paths := [];
      var nsi := 0;
      while nsi < NsCount
        invariant 0 <= nsi <= NsCount
        invariant nsi <= FirstFailure(openRvs)
        invariant forall j :: 0 <= j < nsi ==> nsfds[j] == openRvs[j]
        invariant forall j :: nsi <= j < NsCount ==> nsfds[j] == old(nsfds[j])
        invariant |paths| == nsi && forall j :: 0 <= j < nsi ==> paths[j] == NsPath(j)
      {
        var path := NsPathPrefix + NsTypes[nsi];
        paths := paths + [path];
        nsfds[nsi] := openRvs[nsi];
        if nsfds[nsi] == Absent {
          count, ok := nsi, false;
          return;
        }
        nsi := nsi + 1;
      }
      count, ok := NsCount, true;
    }

    /**
     * send_fds: builds the fds message from the current slots and reports success exactly
     * when sendmsg (returning sendRv) sent at least the in-band byte.
     */
    method SendFds(sendRv: int) returns (ok: bool, m: Message)
      requires Valid()
      ensures m == Encode(nsfds[..])
      ensures ok <==> sendRv >= 1
    {
      var data: Slots := nsfds[..];
      var control := ControlRecord(SolSocket, ScmRights, FdsRecordLen, data);
      m := Message(CmdFds, control, control.len);
      ok := sendRv >= 1;
    }

    /**
     * recv_fds on what recvmsg delivered: the slots change only when every check passes,
     * and then hold the record's data; with argc >= 4 it goes on to execv, which fails
     * if it returns.
     */
    method RecvFds(d: Delivery, argc: int) returns (ok: bool, execAttempted: bool)
      requires Valid() && HeaderPresent(d)
      modifies nsfds
      ensures nsfds[..] == (if Validate(d).Ok? then Validate(d).value else old(nsfds[..]))
      ensures ok <==> Validate(d).Ok? && argc < 4
      ensures execAttempted <==> Validate(d).Ok? && argc >= 4
    {
      ok, execAttempted := false, false;
      if d.count < 1 {
        return;
      }
      var hdr := d.first.value;
      if hdr.level != SolSocket || hdr.kind != ScmRights {
        return;
      }
      if hdr.len != FdsRecordLen {
        return;
      }
      var nsi := 0;
      while nsi < NsCount
        invariant 0 <= nsi <= NsCount
        invariant forall j :: 0 <= j < nsi ==> nsfds[j] == hdr.data[j]
      {
        nsfds[nsi] := hdr.data[nsi];
        nsi := nsi + 1;
      }
      if argc < 4 {
        ok := true;
        return;
      }
      execAttempted := true;
    }

    /**
     * One pass of serve_client's switch on the outcome of one read, where pending are the
     * values sendmsg will return: what the loop does next, and the message handed to sendmsg
     * when the command was fds after start.
     */
    method Dispatch(started: bool, cmd: Byte, o: ReadOutcome, pending: seq<int>) returns (next: Next, m: Option<Message>)
      requires Valid()
      ensures next == Step(started, cmd, o, pending)
      ensures m.Some? <==> next.sendCalled
      ensures m.Some? ==> m.value == Encode(nsfds[..])
    {
      m := None;
      if o.ReadError? {
        return Stop(Failed(ReadFailed), false), None;
      }
      var c := if o.ReadByte? then o.b else cmd;
      if c == CmdStart {
        if started {
          return Stop(Failed(DuplicateStart), false), None;
        }
        next := Continue(true, c, false);
      } else if c == CmdEnd {
        if !started {
          return Stop(Failed(EndBeforeStart), false), None;
        }
        next := Stop(Served, false);
      } else if c == CmdFds {
        if !started {
          return Stop(Failed(FdsBeforeStart), false), None;
        }
        if pending == [] {
          return Stop(Unfinished, false), None;
        }
        var ok, msg := SendFds(pending[0]);
        m := Some(msg);
        next := if ok then Continue(true, c, true) else Stop(Failed(SendFailed), true);
      } else if c == CmdError {
        next := Stop(Failed(ClientError), false);
      } else {
        next := Stop(Failed(InvalidCommand(c)), false);
      }
    }

    /**
     * serve_client: reads one command byte at a time (initialCmd is what the uninitialised
     * cmd holds) and runs the switch on it until the switch returns; ends as Serve says.
     * sent are the messages handed to sendmsg.
     */
    method ServeClient(initialCmd: Byte, cmdReads: seq<ReadOutcome>, sendRvs: seq<int>)
      returns (r: ServeResult, sent: seq<Message>)
      requires Valid()
      ensures r == ServeFromStart(initialCmd, cmdReads, sendRvs)
      ensures |sent| == r.sendCalls
      ensures forall j :: 0 <= j < |sent| ==> sent[j] == Encode(nsfds[..])
    {
      var started := false;
      var cmd := initialCmd;
      var i, sends := 0, 0;
      sent := [];
      while i < |cmdReads|
        invariant 0 <= i <= |cmdReads| && 0 <= sends <= |sendRvs|
        invariant Shift(Serve(started, cmd, cmdReads[i..], sendRvs[sends..]), i, sends) == ServeFromStart(initialCmd, cmdReads, sendRvs)
        invariant |sent| == sends
        invariant forall j :: 0 <= j < sends ==> sent[j] == Encode(nsfds[..])
        decreases |cmdReads| - i
      {
        var o := cmdReads[i];
        ServeByStep(started, cmd, cmdReads[i..], sendRvs[sends..]);
        assert cmdReads[i..][0] == o && cmdReads[i..][1..] == cmdReads[i + 1..];
        var next, m := Dispatch(started, cmd, o, sendRvs[sends..]);
        i := i + 1;
        if m.Some? {
          assert sendRvs[sends..][1..] == sendRvs[sends + 1..];
          sent := sent + [m.value];
          sends := sends + 1;
        }
        if next.Stop? {
          r := ServeResult(next.status, sends, i);
          return;
        }
        started, cmd := next.started, next.cmd;
      }
      r := ServeResult(Unfinished, sends, i);
    }

    /** accept, then serve_client and the close of the connection, whose result is not checked. */
    method AcceptAndServe(env: ServerEnv) returns (exit: Exit, steps: seq<T.Step>)
      requires Valid() && WellFormed(env)
      ensures Outcome(exit, steps) == ConnectionRun(Observe(env, nsfds[..]))
    {
      if env.acceptRv == -1 {
        return ExitFailure, [T.Accept(false)];
      }
      var r, sent := ServeClient(env.initialCmd, env.cmdReads, env.sendRvs);
      steps := [T.Accept(true), T.Session(r.status)];
      if r.status == Unfinished {
        return Blocked, steps;
      }
      exit := if r.status == Served then ExitSuccess else ExitFailure;
      var closeConnOk := env.closeConnRv == 0;
      steps := steps + [T.CloseConnection(closeConnOk)];
    }

    /**
     * The open loop, then listen and the connection; from err_fds on, close_nsfds over
     * whatever the loop opened.
     */
    method WithNamespaces(env: ServerEnv) returns (exit: Exit, steps: seq<T.Step>)
      requires Valid() && WellFormed(env)
      modifies nsfds
      ensures Outcome(exit, steps) == NamespacesRun(Observe(env, old(nsfds[..])))
      ensures nsfds[..] ==
        if exit == Blocked then AfterOpen(old(nsfds[..]), env.openRvs)
        else AfterClose(AfterOpen(old(nsfds[..]), env.openRvs), env.closeNsRvs)
    {
      var count, allOpen, paths := OpenNsFds(env.openRvs);
      var inner: seq<T.Step> := [];
      exit := ExitFailure;
      if allOpen {
        var listenOk := env.listenRv == 0;
        inner := [T.Listen(listenOk)];
        if listenOk {
          var connSteps;
          exit, connSteps := AcceptAndServe(env);
          inner := inner + connSteps;
        }
      }
      steps := [T.OpenNamespaces(count, allOpen)] + inner;
      if exit == Blocked {
        return;
      }
      var closedOk, attempted := CloseNsFds(env.closeNsRvs);
      steps := steps + [T.CloseNamespaces(closedOk)];
    }

    /**
     * socket and bind, then the namespace bracket; from err_bind on, the close of the
     * listening socket, whose failure turns the exit into a failure.
     */
    method WithSocket(env: ServerEnv) returns (exit: Exit, steps: seq<T.Step>)
      requires Valid() && WellFormed(env)
      modifies nsfds
      ensures Outcome(exit, steps) == SocketRun(Observe(env, old(nsfds[..])))
      ensures nsfds[..] ==
        if env.socketRv == -1 || env.bindRv != 0 then old(nsfds[..])
        else if exit == Blocked then AfterOpen(old(nsfds[..]), env.openRvs)
        else AfterClose(AfterOpen(old(nsfds[..]), env.openRvs), env.closeNsRvs)
    {
      if env.socketRv == -1 {
        return ExitFailure, [T.OpenSocket(false)];
      }
      var bindOk := env.bindRv == 0;
      var inner: seq<T.Step> := [];
      exit := ExitFailure;
      if bindOk {
        exit, inner := WithNamespaces(env);
      }
      steps := [T.OpenSocket(true), T.BindSocket(bindOk)] + inner;
      if exit == Blocked {
        return;
      }
      var closeSockOk := env.closeSockRv == 0;
      steps := steps + [T.CloseSocket(closeSockOk)];
      if !closeSockOk {
        exit := ExitFailure;
      }
    }

    /**
     * server_mode: removes a stale path, runs the socket bracket and, from err_sock on,
     * unlinks the path, whose result is not checked. The steps and the exit are those of
     * ServerRun; the slots end as the open loop and close_nsfds leave them.
     */
    method ServerMode(env: ServerEnv) returns (exit: Exit, trace: seq<T.Step>)
      requires Valid() && WellFormed(env)
      modifies nsfds
      ensures Outcome(exit, trace) == ServerRun(Observe(env, old(nsfds[..])))
      ensures var c := Observe(env, old(nsfds[..]));
        nsfds[..] ==
          if !(c.staleRemoved && c.socketOk && c.bound) then old(nsfds[..])
          else if exit == Blocked then AfterOpen(old(nsfds[..]), env.openRvs)
          else AfterClose(AfterOpen(old(nsfds[..]), env.openRvs), env.closeNsRvs)
    {
      if UnlinkSocketRv(env.staleUnlink) != 0 {
        return ExitFailure, [T.UnlinkStale(false)];
      }
      var inner;
      exit, inner := WithSocket(env);
      trace := [T.UnlinkStale(true)] + inner;
      if exit == Blocked {
        return;
      }
      var unlinked := UnlinkSocketRv(env.finalUnlink) == 0;
      trace := trace + [T.UnlinkSocket(unlinked)];
    }

    /**
     * client_of_server: writes the three commands in one call (a short write fails), then
     * receives the descriptors.
     */
    method ClientOfServer(writeRv: int, d: Delivery, argc: int) returns (ok: bool, execAttempted: bool)
      requires Valid()
      requires writeRv >= |ReceiverScript| ==> HeaderPresent(d)
      modifies nsfds
      ensures ok <==> writeRv >= |ReceiverScript| && Validate(d).Ok? && argc < 4
      ensures execAttempted <==> writeRv >= |ReceiverScript| && Validate(d).Ok? && argc >= 4
      ensures nsfds[..] == if writeRv >= |ReceiverScript| && Validate(d).Ok? then Validate(d).value else old(nsfds[..])
    {
      if writeRv < |ReceiverScript| {
        return false, false;
      }
      ok, execAttempted := RecvFds(d, argc);
    }

    /**
     * client_mode: socket, connect, the exchange, then close of the socket; a failed close
     * turns success into failure.
     */
    method ClientMode(env: ClientEnv, argc: int) returns (ok: bool, execAttempted: bool)
      requires Valid()
      requires ReachesRecv(env) ==> HeaderPresent(env.delivery)
      modifies nsfds
      ensures ok <==> ReachesRecv(env) && Validate(env.delivery).Ok? && argc < 4 && env.closeRv == 0
      ensures execAttempted <==> ReachesRecv(env) && Validate(env.delivery).Ok? && argc >= 4
      ensures nsfds[..] == if ReachesRecv(env) && Validate(env.delivery).Ok? then Validate(env.delivery).value else old(nsfds[..])
    {
      ok, execAttempted := false, false;
      if env.socketRv == -1 {
        return;
      }
      if env.connectRv == 0 {
        ok, execAttempted := ClientOfServer(env.writeRv, env.delivery, argc);
      }
      if env.closeRv != 0 {
        ok := false;
      }
    }
  }

  /**
   * The two parties end to end: a holder serving the receiver's script with one successful
   * send hands over one message, and a receiver given that message ends up with the
   * holder's descriptors, slot for slot.
   */
  method Handoff(holder: Program, receiver: Program, initialCmd: Byte, rest: seq<ReadOutcome>, sendRvs: seq<int>)
    returns (served: bool, received: bool)
    requires holder.Valid() && receiver.Valid() && holder.nsfds != receiver.nsfds
    requires SendsSucceed(sendRvs, 1)
    modifies receiver.nsfds
    ensures served && received
    ensures receiver.nsfds[..] == holder.nsfds[..]
  {
    var r, sent := holder.ServeClient(initialCmd, AsReads(ReceiverScript) + rest, sendRvs);
    ReceiverScriptServed(initialCmd, rest, sendRvs);
    served := r.status == Served;
    RoundTrip(holder.nsfds[..]);
    var execAttempted;
    received, execAttempted := receiver.RecvFds(Deliver(sent[0]), 3);
  }
}
