/**
 * The holder's run as a trace of steps, the resources the steps acquire and release,
 * and what it means for a trace to release everything in reverse order of acquisition.
 */
module Teardown {
  import opened Wire
  import Protocol

  /** One step of server_mode, with whether it succeeded. */
  datatype Step =
    | UnlinkStale(ok: bool)
    | OpenSocket(ok: bool)
    | BindSocket(ok: bool)
    | OpenNamespaces(count: nat, ok: bool)
    | Listen(ok: bool)
    | Accept(ok: bool)
    | Session(status: Protocol.Status)
    | CloseConnection(ok: bool)
    | CloseNamespaces(ok: bool)
    | CloseSocket(ok: bool)
    | UnlinkSocket(ok: bool)

  /**
   * What the holder owns while it runs: the rendezvous path (claimed once any stale
   * entry is removed), the listening socket, the namespace descriptor set and the connection.
   */
  datatype Resource = SocketPath | ListeningSocket | NamespaceSet | Connection

  /** The resource a step acquires, if any. */
  function Acquires(s: Step): Option<Resource>
  {
    match s
    case UnlinkStale(ok) => if ok then Some(SocketPath) else None
    case OpenSocket(ok) => if ok then Some(ListeningSocket) else None
    case OpenNamespaces(_, _) => Some(NamespaceSet)
    case Accept(ok) => if ok then Some(Connection) else None
    case _ => None
  }

  /** The resource a step releases, if any; a release counts whether or not the call succeeded. */
  function Releases(s: Step): Option<Resource>
  {
    match s
    case UnlinkSocket(_) => Some(SocketPath)
    case CloseSocket(_) => Some(ListeningSocket)
    case CloseNamespaces(_) => Some(NamespaceSet)
    case CloseConnection(_) => Some(Connection)
    case _ => None
  }

  /** The held resources after one more step, or None when the step releases something other than the most recent acquisition. */
  function Apply(held: seq<Resource>, s: Step): Option<seq<Resource>>
  {
    if Acquires(s).Some? then Some(held + [Acquires(s).value])
    else if Releases(s).Some? then
      if held != [] && held[|held| - 1] == Releases(s).value then Some(held[..|held| - 1]) else None
    else Some(held)
  }

  /** The stack of held resources after running steps from the stack held, most recent last. */
  function Run(held: seq<Resource>, steps: seq<Step>): Option<seq<Resource>>
    decreases |steps|
  {
    if steps == [] then Some(held)
    else
      var after := Apply(held, steps[0]);
      if after.None? then None else Run(after.value, steps[1..])
  }

  /** Running a single step is applying it. */
  lemma RunOne(held: seq<Resource>, s: Step)
    ensures Run(held, [s]) == Apply(held, s)
  {
    assert [s][1..] == [];
  }

  /** Running two pieces of a trace one after the other. */
  lemma {:induction false} RunConcat(held: seq<Resource>, a: seq<Step>, b: seq<Step>)
    ensures Run(held, a + b) == if Run(held, a).None? then None else Run(Run(held, a).value, b)
    decreases |a|
  {
    if a == [] {
      assert a + b == b;
    } else {
      assert (a + b)[0] == a[0] && (a + b)[1..] == a[1..] + b;
      var after := Apply(held, a[0]);
      if after.Some? {
        RunConcat(after.value, a[1..], b);
      }
    }
  }

  /** A step that neither acquires nor releases leaves the held stack as it is. */
  lemma Pass(held: seq<Resource>, s: Step, rest: seq<Step>)
    requires Acquires(s).None? && Releases(s).None?
    ensures Run(held, [s] + rest) == Run(held, rest)
  {
    assert ([s] + rest)[1..] == rest;
  }

  /** A step that acquires x runs the rest with x on top of the stack. */
  lemma Enter(held: seq<Resource>, a: Step, x: Resource, rest: seq<Step>)
    requires Acquires(a) == Some(x)
    ensures Run(held, [a] + rest) == Run(held + [x], rest)
  {
    assert ([a] + rest)[1..] == rest;
  }

  /**
   * An acquisition of x, steps that end with x on top again, and a release of x leave the
   * stack as it was before the acquisition.
   */
  lemma Bracket(held: seq<Resource>, a: Step, x: Resource, inner: seq<Step>, z: Step)
    requires Acquires(a) == Some(x) && Releases(z) == Some(x)
    requires Run(held + [x], inner) == Some(held + [x])
    ensures Run(held, [a] + inner + [z]) == Some(held)
  {
    Enter(held, a, x, inner + [z]);
    assert [a] + inner + [z] == [a] + (inner + [z]);
    RunConcat(held + [x], inner, [z]);
    RunOne(held + [x], z);
    assert (held + [x])[..|held|] == held;
  }

  /**
   * An acquisition of x followed by inner steps that either stop with more resources
   * above x (blocked) or end with x on top again, which z then releases.
   */
  lemma Nest(held: seq<Resource>, a: Step, x: Resource, inner: seq<Step>, z: Step, blocked: bool, above: seq<Resource>)
    requires Acquires(a) == Some(x) && Releases(z) == Some(x)
    requires Run(held + [x], inner) == Some(if blocked then held + [x] + above else held + [x])
    ensures blocked ==> Run(held, [a] + inner) == Some(held + ([x] + above))
    ensures !blocked ==> Run(held, [a] + inner + [z]) == Some(held)
  {
    if blocked {
      Enter(held, a, x, inner);
      assert held + [x] + above == held + ([x] + above);
    } else {
      Bracket(held, a, x, inner, z);
    }
  }

  /** Every acquired resource is released exactly once, in reverse order of acquisition, and nothing else is released. */
  predicate WellBracketed(trace: seq<Step>)
  {
    Run([], trace) == Some([])
  }

  /** The position of a set-up step in the order server_mode attempts them. */
  function Phase(s: Step): nat
  {
    match s
    case UnlinkStale(_) => 1
    case OpenSocket(_) => 2
    case BindSocket(_) => 3
    case OpenNamespaces(_, _) => 4
    case Listen(_) => 5
    case Accept(_) => 6
    case Session(_) => 7
    case _ => 0
  }

  /** A set-up step that succeeded and so lets the next set-up step run. */
  predicate Proceeds(s: Step)
  {
    match s
    case UnlinkStale(ok) => ok
    case OpenSocket(ok) => ok
    case BindSocket(ok) => ok
    case OpenNamespaces(_, ok) => ok
    case Listen(ok) => ok
    case Accept(ok) => ok
    case _ => false
  }

  /**
   * The phase of the step that must follow s: the next set-up step after a set-up step
   * that succeeded, and a step outside set-up (phase 0) after anything else.
   */
  function NextPhase(s: Step): nat
  {
    if Proceeds(s) then Phase(s) + 1 else 0
  }

  /**
   * Two neighbouring steps: a set-up step runs only straight after the previous set-up
   * step succeeded, and a successful set-up step is straight followed by the next one.
   */
  predicate Adjacent(a: Step, b: Step)
  {
    Phase(b) == NextPhase(a)
  }

  /** The steps follow one another as Adjacent says, the first being of phase p. */
  predicate ChainedFrom(p: nat, steps: seq<Step>)
    decreases |steps|
  {
    steps == [] || (Phase(steps[0]) == p && ChainedFrom(NextPhase(steps[0]), steps[1..]))
  }

  /** The phase that must come after steps when they start at phase p. */
  function EndPhase(p: nat, steps: seq<Step>): nat
  {
    if steps == [] then p else NextPhase(steps[|steps| - 1])
  }

  /** A chain splits into a chain and a chain that starts where the first one ends. */
  lemma {:induction false} ChainedConcat(p: nat, a: seq<Step>, b: seq<Step>)
    ensures ChainedFrom(p, a + b) <==> ChainedFrom(p, a) && ChainedFrom(EndPhase(p, a), b)
    ensures EndPhase(p, a + b) == EndPhase(EndPhase(p, a), b)
    decreases |a|
  {
    if a == [] {
      assert a + b == b;
    } else {
      assert (a + b)[0] == a[0] && (a + b)[1..] == a[1..] + b;
      ChainedConcat(NextPhase(a[0]), a[1..], b);
      if a[1..] == [] {
        assert EndPhase(NextPhase(a[0]), a[1..]) == EndPhase(p, a);
      } else {
        assert a[1..][|a[1..]| - 1] == a[|a| - 1];
      }
      if b != [] {
        assert (a + b)[|a + b| - 1] == b[|b| - 1];
      }
    }
  }

  /** A step of phase p followed by a chain from the phase it leads to. */
  lemma ChainStep(p: nat, s: Step, rest: seq<Step>)
    requires Phase(s) == p && ChainedFrom(NextPhase(s), rest)
    ensures ChainedFrom(p, [s] + rest) && EndPhase(p, [s] + rest) == EndPhase(NextPhase(s), rest)
  {
    assert ([s] + rest)[1..] == rest;
    if rest != [] {
      assert ([s] + rest)[|rest|] == rest[|rest| - 1];
    }
  }

  /** A chain that ends outside set-up may be followed by a step outside set-up. */
  lemma ChainClose(p: nat, steps: seq<Step>, z: Step)
    requires ChainedFrom(p, steps) && EndPhase(p, steps) == 0 && Phase(z) == 0
    ensures ChainedFrom(p, steps + [z]) && EndPhase(p, steps + [z]) == NextPhase(z)
  {
    ChainedConcat(p, steps, [z]);
    assert [z][1..] == [];
  }

  /** Chained, stated over every pair of neighbouring steps. */
  lemma {:induction false} ChainedNeighbours(p: nat, steps: seq<Step>, i: nat)
    requires ChainedFrom(p, steps) && i + 1 < |steps|
    ensures Phase(steps[0]) == p && Adjacent(steps[i], steps[i + 1])
    decreases i
  {
    if i > 0 {
      ChainedNeighbours(NextPhase(steps[0]), steps[1..], i - 1);
    }
  }

  /** The set-up steps run in order from the stale-path removal and stop at the first failure. */
  predicate Chained(trace: seq<Step>)
  {
    trace != [] && ChainedFrom(1, trace)
  }
}
