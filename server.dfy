/**
 * server_mode as a function of what its system calls return: the steps it takes and how it
 * exits. The run is three nested brackets, as the labels of its clean-up code lay it out: the
 * listening socket (closed at err_bind), the namespace descriptors (closed at err_fds) and the
 * connection (closed after serve_client), all inside the claim on the rendezvous path
 * (unlinked at err_sock).
 */
module Server {
  import opened Wire
  import opened Namespaces
  import opened Protocol
  import T = Teardown

  /** What unlink returned and the errno it left. */
  datatype UnlinkOutcome = UnlinkOutcome(rv: int, errno: int)

  /** unlink_socket: 0 when the path was removed or did not exist, otherwise the errno. */
  function UnlinkSocketRv(o: UnlinkOutcome): (e: int)
    ensures o.rv != -1 || o.errno == Enoent ==> e == 0
    ensures o.rv == -1 && o.errno != Enoent ==> e == o.errno
  {
    if o.rv == -1 && o.errno != Enoent then o.errno else 0
  }

  /** How the holder's run ended. Blocked: the given outcomes ran out while serving the client. */
  datatype Exit = ExitSuccess | ExitFailure | Blocked

  /** The values the holder's system calls return, in the order server_mode makes them. */
  datatype ServerEnv = ServerEnv(
    staleUnlink: UnlinkOutcome,
    socketRv: int,
    bindRv: int,
    openRvs: seq<int>,
    listenRv: int,
    acceptRv: int,
    initialCmd: Byte,
    cmdReads: seq<ReadOutcome>,
    sendRvs: seq<int>,
    closeConnRv: int,
    closeNsRvs: seq<int>,
    closeSockRv: int,
    finalUnlink: UnlinkOutcome)

  /** One open result and one close result per slot. */
  predicate WellFormed(env: ServerEnv)
  {
    |env.openRvs| == NsCount && |env.closeNsRvs| == NsCount
  }

  /**
   * What server_mode learns from each call, in the order it makes them: whether the stale
   * removal, socket, bind, listen and accept succeeded, how many namespaces the open loop
   * opened, how serve_client ended, and whether each release succeeded.
   */
  datatype Calls = Calls(
    staleRemoved: bool,
    socketOk: bool,
    bound: bool,
    count: nat,
    listening: bool,
    accepted: bool,
    status: Status,
    connClosed: bool,
    nsClosed: bool,
    sockClosed: bool,
    unlinked: bool)

  /** What each call tells server_mode, given what it returned; slots is the array before the run. */
  function Observe(env: ServerEnv, slots: seq<int>): (c: Calls)
    requires WellFormed(env) && |slots| == NsCount
    ensures c.staleRemoved <==> env.staleUnlink.rv != -1 || env.staleUnlink.errno == Enoent || env.staleUnlink.errno == 0
    ensures c.count <= NsCount && (c.count < NsCount ==> env.openRvs[c.count] == Absent)
    ensures c.nsClosed <==> forall i :: 0 <= i < NsCount && AfterOpen(slots, env.openRvs)[i] != Absent ==> env.closeNsRvs[i] == 0
  {
    Calls(
      UnlinkSocketRv(env.staleUnlink) == 0,
      env.socketRv != -1,
      env.bindRv == 0,
      FirstFailure(env.openRvs),
      env.listenRv == 0,
      env.acceptRv != -1,
      ServeFromStart(env.initialCmd, env.cmdReads, env.sendRvs).status,
      env.closeConnRv == 0,
      AllClosed(AfterOpen(slots, env.openRvs), env.closeNsRvs),
      env.closeSockRv == 0,
      UnlinkSocketRv(env.finalUnlink) == 0)
  }

  /** A step of the holder's run records what the call it stands for told server_mode. */
  predicate Reports(c: Calls, s: T.Step)
  {
    match s
    case UnlinkStale(ok) => ok == c.staleRemoved
    case OpenSocket(ok) => ok == c.socketOk
    case BindSocket(ok) => ok == c.bound
    case OpenNamespaces(n, ok) => n == c.count && ok == (n == NsCount)
    case Listen(ok) => ok == c.listening
    case Accept(ok) => ok == c.accepted
    case Session(st) => st == c.status
    case CloseConnection(ok) => ok == c.connClosed
    case CloseNamespaces(ok) => ok == c.nsClosed
    case CloseSocket(ok) => ok == c.sockClosed
    case UnlinkSocket(ok) => ok == c.unlinked
  }

  /** Every step records what its call told server_mode. */
  predicate AllReport(c: Calls, steps: seq<T.Step>)
  {
    forall i :: 0 <= i < |steps| ==> Reports(c, steps[i])
  }

  /** How a bracket ended and the steps it took. */
  datatype Outcome = Outcome(exit: Exit, steps: seq<T.Step>)

  /** accept, then serve_client and the close of the connection, whose result is not checked. */
  function ConnectionRun(c: Calls): Outcome
  {
    if !c.accepted then Outcome(ExitFailure, [T.Accept(false)])
    else if c.status == Unfinished then Outcome(Blocked, [T.Accept(true), T.Session(c.status)])
    else
      Outcome(if c.status == Served then ExitSuccess else ExitFailure,
              [T.Accept(true), T.Session(c.status), T.CloseConnection(c.connClosed)])
  }

  /**
   * The open loop, then listen and the connection bracket, then close_nsfds over whatever
   * the loop opened, whose result is not checked.
   */
  function NamespacesAround(c: Calls, conn: Outcome): Outcome
  {
    var inner :=
      if c.count != NsCount then Outcome(ExitFailure, [])
      else if !c.listening then Outcome(ExitFailure, [T.Listen(false)])
      else Outcome(conn.exit, [T.Listen(true)] + conn.steps);
    var steps := [T.OpenNamespaces(c.count, c.count == NsCount)] + inner.steps;
    if inner.exit == Blocked then Outcome(Blocked, steps)
    else Outcome(inner.exit, steps + [T.CloseNamespaces(c.nsClosed)])
  }

  /** The namespace bracket around the connection bracket. */
  function NamespacesRun(c: Calls): Outcome
  {
    NamespacesAround(c, ConnectionRun(c))
  }

  /**
   * socket, bind and, when bind succeeded, the namespace bracket ns, then the close of the
   * listening socket, whose failure turns the exit into a failure.
   */
  function SocketAround(c: Calls, ns: Outcome): Outcome
  {
    if !c.socketOk then Outcome(ExitFailure, [T.OpenSocket(false)])
    else
      var inner := if c.bound then ns else Outcome(ExitFailure, []);
      var steps := [T.OpenSocket(true), T.BindSocket(c.bound)] + inner.steps;
      if inner.exit == Blocked then Outcome(Blocked, steps)
      else Outcome(if c.sockClosed then inner.exit else ExitFailure, steps + [T.CloseSocket(c.sockClosed)])
  }

  /** The socket bracket around the namespace bracket. */
  function SocketRun(c: Calls): Outcome
  {
    SocketAround(c, NamespacesRun(c))
  }

  /**
   * server_mode: the removal of a stale path, the socket bracket, then unlink_socket, whose
   * result is not checked. A failed stale removal ends the run at once.
   */
  function ServerRun(c: Calls): Outcome
  {
    if !c.staleRemoved then Outcome(ExitFailure, [T.UnlinkStale(false)])
    else
      var inner := SocketRun(c);
      var steps := [T.UnlinkStale(true)] + inner.steps;
      if inner.exit == Blocked then Outcome(Blocked, steps)
      else Outcome(inner.exit, steps + [T.UnlinkSocket(c.unlinked)])
  }

  /** The connection bracket runs accept and then the session, and the session ends set-up. */
  lemma ConnectionRunChained(c: Calls)
    ensures var r := ConnectionRun(c);
      T.ChainedFrom(6, r.steps) && T.EndPhase(6, r.steps) == 0
  {
    var r := ConnectionRun(c);
    if c.accepted {
      T.ChainStep(7, T.Session(c.status), []);
      T.ChainStep(6, T.Accept(true), [T.Session(c.status)]);
      if r.exit != Blocked {
        T.ChainClose(6, [T.Accept(true), T.Session(c.status)], T.CloseConnection(c.connClosed));
      }
    } else {
      T.ChainStep(6, T.Accept(false), []);
    }
  }

  /** The namespace bracket runs the open loop, listen and the connection bracket, each only after the one before succeeded. */
  lemma NamespacesRunChained(c: Calls)
    ensures var r := NamespacesRun(c);
      T.ChainedFrom(4, r.steps) && T.EndPhase(4, r.steps) == 0
  {
    var r := NamespacesRun(c);
    var open := T.OpenNamespaces(c.count, c.count == NsCount);
    var inner := if r.exit == Blocked then r.steps[1..] else r.steps[1..|r.steps| - 1];
    if c.count == NsCount {
      if c.listening {
        ConnectionRunChained(c);
        T.ChainStep(5, T.Listen(true), ConnectionRun(c).steps);
      } else {
        T.ChainStep(5, T.Listen(false), []);
      }
    }
    T.ChainStep(4, open, inner);
    if r.exit == Blocked {
      assert r.steps == [open] + inner;
    } else {
      assert r.steps == [open] + inner + [T.CloseNamespaces(c.nsClosed)];
      T.ChainClose(4, [open] + inner, T.CloseNamespaces(c.nsClosed));
    }
  }

  /** The socket bracket runs socket, bind and the namespace bracket, each only after the one before succeeded. */
  lemma SocketRunChained(c: Calls)
    ensures var r := SocketRun(c);
      T.ChainedFrom(2, r.steps) && T.EndPhase(2, r.steps) == 0
  {
    NamespacesRunChained(c);
    SocketAroundChained(c, NamespacesRun(c));
  }

  /** SocketRunChained for any inner bracket that is chained from the open loop and ends set-up. */
  lemma SocketAroundChained(c: Calls, ns: Outcome)
    requires T.ChainedFrom(4, ns.steps) && T.EndPhase(4, ns.steps) == 0
    ensures var r := SocketAround(c, ns);
      T.ChainedFrom(2, r.steps) && T.EndPhase(2, r.steps) == 0
  {
    var r := SocketAround(c, ns);
    if c.socketOk {
      var inner := if c.bound then ns else Outcome(ExitFailure, []);
      var steps := [T.BindSocket(c.bound)] + inner.steps;
      T.ChainStep(3, T.BindSocket(c.bound), inner.steps);
      T.ChainStep(2, T.OpenSocket(true), steps);
      assert [T.OpenSocket(true), T.BindSocket(c.bound)] + inner.steps == [T.OpenSocket(true)] + steps;
      if r.exit != Blocked {
        T.ChainClose(2, [T.OpenSocket(true)] + steps, T.CloseSocket(c.sockClosed));
      }
    } else {
      T.ChainStep(2, T.OpenSocket(false), []);
    }
  }

  /** The connection bracket releases the connection it acquired, unless the session blocked. */
  lemma ConnectionRunBrackets(c: Calls, held: seq<T.Resource>)
    ensures var r := ConnectionRun(c);
      T.Run(held, r.steps) == Some(if r.exit == Blocked then held + [T.Connection] else held)
  {
    var r := ConnectionRun(c);
    if !c.accepted {
      T.RunOne(held, T.Accept(false));
    } else {
      var h := held + [T.Connection];
      T.RunOne(h, T.Session(c.status));
      if r.exit == Blocked {
        T.Enter(held, T.Accept(true), T.Connection, [T.Session(c.status)]);
      } else {
        T.Bracket(held, T.Accept(true), T.Connection, [T.Session(c.status)], T.CloseConnection(c.connClosed));
      }
    }
  }

  /** The namespace bracket releases the descriptor set after the connection bracket, unless that blocked. */
  lemma NamespacesRunBrackets(c: Calls, held: seq<T.Resource>)
    ensures var r := NamespacesRun(c);
      T.Run(held, r.steps) == Some(if r.exit == Blocked then held + [T.NamespaceSet, T.Connection] else held)
  {
    ConnectionRunBrackets(c, held + [T.NamespaceSet]);
    NamespacesAroundBrackets(c, ConnectionRun(c), held);
  }

  /** NamespacesRunBrackets for any inner bracket that releases what it acquires unless it blocked. */
  lemma NamespacesAroundBrackets(c: Calls, conn: Outcome, held: seq<T.Resource>)
    requires T.Run(held + [T.NamespaceSet], conn.steps) ==
      Some(if conn.exit == Blocked then held + [T.NamespaceSet] + [T.Connection] else held + [T.NamespaceSet])
    ensures var r := NamespacesAround(c, conn);
      T.Run(held, r.steps) == Some(if r.exit == Blocked then held + [T.NamespaceSet, T.Connection] else held)
  {
    var r := NamespacesAround(c, conn);
    var blocked := r.exit == Blocked;
    var open := T.OpenNamespaces(c.count, c.count == NsCount);
    var h := held + [T.NamespaceSet];
    var inner := if c.count != NsCount then [] else if !c.listening then [T.Listen(false)]
      else [T.Listen(true)] + conn.steps;
    if c.count == NsCount {
      if !c.listening {
        T.RunOne(h, T.Listen(false));
      } else {
        T.Pass(h, T.Listen(true), conn.steps);
      }
    }
    assert T.Run(h, inner) == Some(if blocked then h + [T.Connection] else h);
    T.Nest(held, open, T.NamespaceSet, inner, T.CloseNamespaces(c.nsClosed), blocked, [T.Connection]);
    if blocked {
      assert r.steps == [open] + inner;
      assert held + ([T.NamespaceSet] + [T.Connection]) == held + [T.NamespaceSet, T.Connection];
    } else {
      assert r.steps == [open] + inner + [T.CloseNamespaces(c.nsClosed)];
    }
  }

  /** The socket bracket releases the listening socket after the namespace bracket, unless that blocked. */
  lemma SocketRunBrackets(c: Calls, held: seq<T.Resource>)
    ensures var r := SocketRun(c);
      T.Run(held, r.steps) ==
        Some(if r.exit == Blocked then held + [T.ListeningSocket, T.NamespaceSet, T.Connection] else held)
  {
    NamespacesRunBrackets(c, held + [T.ListeningSocket]);
    SocketAroundBrackets(c, NamespacesRun(c), held);
  }

  /** SocketRunBrackets for any inner bracket that releases what it acquires unless it blocked. */
  lemma SocketAroundBrackets(c: Calls, ns: Outcome, held: seq<T.Resource>)
    requires T.Run(held + [T.ListeningSocket], ns.steps) ==
      Some(if ns.exit == Blocked then held + [T.ListeningSocket] + [T.NamespaceSet, T.Connection] else held + [T.ListeningSocket])
    ensures var r := SocketAround(c, ns);
      T.Run(held, r.steps) ==
        Some(if r.exit == Blocked then held + [T.ListeningSocket, T.NamespaceSet, T.Connection] else held)
  {
    if !c.socketOk {
      T.RunOne(held, T.OpenSocket(false));
    } else {
      var inner := if c.bound then ns else Outcome(ExitFailure, []);
      var blocked := inner.exit == Blocked;
      var h := held + [T.ListeningSocket];
      var steps := [T.BindSocket(c.bound)] + inner.steps;
      T.Pass(h, T.BindSocket(c.bound), inner.steps);
      T.Nest(held, T.OpenSocket(true), T.ListeningSocket, steps, T.CloseSocket(c.sockClosed), blocked,
        [T.NamespaceSet, T.Connection]);
      assert [T.OpenSocket(true), T.BindSocket(c.bound)] + inner.steps == [T.OpenSocket(true)] + steps;
      assert held + ([T.ListeningSocket] + [T.NamespaceSet, T.Connection]) ==
        held + [T.ListeningSocket, T.NamespaceSet, T.Connection];
    }
  }

  /**
   * The connection bracket's steps record their calls; it blocks only in the session and
   * succeeds exactly when the session did.
   */
  lemma ConnectionRunOutcome(c: Calls)
    ensures var r := ConnectionRun(c);
      AllReport(c, r.steps) &&
      (r.exit == Blocked ==> r.steps[|r.steps| - 1] == T.Session(Unfinished)) &&
      (r.exit == ExitSuccess <==> T.Session(Served) in r.steps)
  {
  }

  /**
   * The namespace bracket's steps record their calls; it blocks only in the session and
   * succeeds exactly when the session did, whatever close_nsfds returns.
   */
  lemma NamespacesRunOutcome(c: Calls)
    ensures var r := NamespacesRun(c);
      AllReport(c, r.steps) &&
      (r.exit == Blocked ==> r.steps[|r.steps| - 1] == T.Session(Unfinished)) &&
      (r.exit == ExitSuccess <==> T.Session(Served) in r.steps)
  {
    if c.count == NsCount && c.listening {
      ConnectionRunOutcome(c);
    }
  }

  /**
   * The socket bracket's steps record their calls; unless it blocked it ends with the close
   * of the listening socket, and it succeeds exactly when the session did and that close
   * succeeded.
   */
  lemma SocketRunOutcome(c: Calls)
    ensures var r := SocketRun(c);
      AllReport(c, r.steps) &&
      (r.exit == Blocked ==> r.steps[|r.steps| - 1] == T.Session(Unfinished)) &&
      (r.exit != Blocked && c.socketOk ==> r.steps[|r.steps| - 1] == T.CloseSocket(c.sockClosed)) &&
      (r.exit == ExitSuccess <==> T.Session(Served) in r.steps && T.CloseSocket(true) in r.steps)
  {
    NamespacesRunOutcome(c);
    SocketAroundOutcome(c, NamespacesRun(c));
  }

  /** Two pieces of steps record their calls exactly when their concatenation does. */
  lemma AllReportConcat(c: Calls, a: seq<T.Step>, b: seq<T.Step>)
    ensures AllReport(c, a + b) <==> AllReport(c, a) && AllReport(c, b)
  {
    if AllReport(c, a) && AllReport(c, b) {
      forall i | 0 <= i < |a + b|
        ensures Reports(c, (a + b)[i])
      {
        if i >= |a| {
          assert (a + b)[i] == b[i - |a|];
        }
      }
    }
    if AllReport(c, a + b) {
      forall i | 0 <= i < |a|
        ensures Reports(c, a[i])
      {
        assert (a + b)[i] == a[i];
      }
      forall i | 0 <= i < |b|
        ensures Reports(c, b[i])
      {
        assert (a + b)[i + |a|] == b[i];
      }
    }
  }

  /** Steps that record their calls hold a successful socket close only when the close succeeded. */
  lemma ReportedSocketClose(c: Calls, steps: seq<T.Step>)
    requires AllReport(c, steps) && T.CloseSocket(true) in steps
    ensures c.sockClosed
  {
    var i :| 0 <= i < |steps| && steps[i] == T.CloseSocket(true);
    assert Reports(c, steps[i]);
  }

  /** The socket bracket keeps every step recording its call, and ends with the session when blocked and with the socket close otherwise. */
  lemma SocketAroundReports(c: Calls, ns: Outcome)
    requires AllReport(c, ns.steps)
    requires ns.exit == Blocked ==> ns.steps != [] && ns.steps[|ns.steps| - 1] == T.Session(Unfinished)
    ensures var r := SocketAround(c, ns);
      AllReport(c, r.steps) &&
      (r.exit == Blocked ==> r.steps[|r.steps| - 1] == T.Session(Unfinished)) &&
      (r.exit != Blocked && c.socketOk ==> r.steps[|r.steps| - 1] == T.CloseSocket(c.sockClosed))
  {
    var r := SocketAround(c, ns);
    if c.socketOk {
      var inner := if c.bound then ns else Outcome(ExitFailure, []);
      var head := [T.OpenSocket(true), T.BindSocket(c.bound)];
      var steps := head + inner.steps;
      assert AllReport(c, steps) by {
        AllReportConcat(c, head, inner.steps);
      }
      if inner.exit == Blocked {
        assert r == Outcome(Blocked, steps);
        assert steps[|steps| - 1] == inner.steps[|inner.steps| - 1];
      } else {
        var all := steps + [T.CloseSocket(c.sockClosed)];
        assert r == Outcome(if c.sockClosed then inner.exit else ExitFailure, all);
        assert AllReport(c, all) by {
          AllReportConcat(c, steps, [T.CloseSocket(c.sockClosed)]);
        }
      }
    } else {
      assert r == Outcome(ExitFailure, [T.OpenSocket(false)]);
    }
  }

  /** SocketRunOutcome for any inner bracket whose steps record their calls and that succeeds exactly when the session did. */
  lemma SocketAroundOutcome(c: Calls, ns: Outcome)
    requires AllReport(c, ns.steps)
    requires ns.exit == Blocked ==> ns.steps != [] && ns.steps[|ns.steps| - 1] == T.Session(Unfinished)
    requires ns.exit == ExitSuccess <==> T.Session(Served) in ns.steps
    ensures var r := SocketAround(c, ns);
      AllReport(c, r.steps) &&
      (r.exit == Blocked ==> r.steps[|r.steps| - 1] == T.Session(Unfinished)) &&
      (r.exit != Blocked && c.socketOk ==> r.steps[|r.steps| - 1] == T.CloseSocket(c.sockClosed)) &&
      (r.exit == ExitSuccess <==> T.Session(Served) in r.steps && T.CloseSocket(true) in r.steps)
  {
    SocketAroundReports(c, ns);
    var r := SocketAround(c, ns);
    if c.socketOk {
      var inner := if c.bound then ns else Outcome(ExitFailure, []);
      var steps := [T.OpenSocket(true), T.BindSocket(c.bound)] + inner.steps;
      assert T.Session(Served) in steps <==> T.Session(Served) in inner.steps;
      if inner.exit != Blocked {
        assert r == Outcome(if c.sockClosed then inner.exit else ExitFailure, steps + [T.CloseSocket(c.sockClosed)]);
        if T.CloseSocket(true) in r.steps {
          ReportedSocketClose(c, r.steps);
        }
      }
    }
  }

  /** The set-up steps of server_mode run in order and each only after the one before it succeeded. */
  lemma ServerRunChained(c: Calls)
    ensures T.Chained(ServerRun(c).steps)
  {
    var r := ServerRun(c);
    if c.staleRemoved {
      var inner := SocketRun(c).steps;
      SocketRunChained(c);
      T.ChainStep(1, T.UnlinkStale(true), inner);
      if r.exit != Blocked {
        T.ChainClose(1, [T.UnlinkStale(true)] + inner, T.UnlinkSocket(c.unlinked));
      }
    } else {
      T.ChainStep(1, T.UnlinkStale(false), []);
    }
  }

  /** Every step of server_mode records what its call told server_mode. */
  lemma ServerRunReports(c: Calls)
    ensures AllReport(c, ServerRun(c).steps)
  {
    if c.staleRemoved {
      SocketRunOutcome(c);
    }
  }

  /**
   * Every resource server_mode acquires is released, in reverse order of acquisition;
   * a run that blocked in the session still holds all four, most recent last.
   */
  lemma ServerRunBrackets(c: Calls)
    ensures var r := ServerRun(c);
      (r.exit != Blocked ==> T.WellBracketed(r.steps)) &&
      (r.exit == Blocked ==>
        T.Run([], r.steps) == Some([T.SocketPath, T.ListeningSocket, T.NamespaceSet, T.Connection]))
  {
    if !c.staleRemoved {
      T.RunOne([], T.UnlinkStale(false));
    } else {
      var inner := SocketRun(c).steps;
      var blocked := SocketRun(c).exit == Blocked;
      SocketRunBrackets(c, [T.SocketPath]);
      assert [] + [T.SocketPath] == [T.SocketPath];
      T.Nest([], T.UnlinkStale(true), T.SocketPath, inner, T.UnlinkSocket(c.unlinked), blocked,
        [T.ListeningSocket, T.NamespaceSet, T.Connection]);
      assert [] + ([T.SocketPath] + [T.ListeningSocket, T.NamespaceSet, T.Connection]) ==
        [T.SocketPath, T.ListeningSocket, T.NamespaceSet, T.Connection];
    }
  }

  /** server_mode blocks only inside serve_client, and then the session is its last step. */
  lemma ServerRunBlocked(c: Calls)
    ensures var r := ServerRun(c);
      r.exit == Blocked ==> r.steps[|r.steps| - 1] == T.Session(Unfinished)
  {
    if c.staleRemoved {
      SocketRunOutcome(c);
    }
  }

  /**
   * server_mode succeeds exactly when serve_client succeeded and the listening socket
   * closed; the connection close, the namespace close and the final unlink do not count.
   */
  lemma ServerRunExit(c: Calls)
    ensures var r := ServerRun(c);
      r.exit == ExitSuccess <==> T.Session(Served) in r.steps && T.CloseSocket(true) in r.steps
  {
    if c.staleRemoved {
      SocketRunOutcome(c);
    }
  }

  /**
   * Once the stale path is gone, a run that did not block ends with unlink_socket, right
   * after the close of the listening socket when the socket was created.
   */
  lemma UnlinkAfterSocketClose(c: Calls)
    ensures var r := ServerRun(c);
      r.exit != Blocked && c.staleRemoved ==>
        r.steps[|r.steps| - 1] == T.UnlinkSocket(c.unlinked) &&
        (c.socketOk ==> r.steps[|r.steps| - 2] == T.CloseSocket(c.sockClosed))
  {
    if c.staleRemoved {
      SocketRunOutcome(c);
    }
  }
}
