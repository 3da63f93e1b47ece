/**
 * The supervisor side of the watcher: it tracks the pid of the last child
 * it started, kills that child before starting the next one, and keeps the
 * shell command that every child runs.
 *
 * kill, fork and waitpid are the operating system's: each reload is given
 * their outcomes as an `Outcome`, and the calls the supervisor makes are
 * recorded, in order, as `Action`s.
 */
module ProcessUtils {
  import opened Wrappers
  import opened CStrings

  /** The value of prev_child_pid when no child is tracked. */
  const NO_PID: int := -1

  /** WEXITSTATUS: the low byte a child passed to exit. */
  type ExitCode = x: int | 0 <= x < 256

  /** What fork returned to the parent: -1, or the pid of the new child. */
  datatype ForkOutcome = ForkFailed | Forked(child: int)

  /** What waitpid reported: a normal exit with its status, or anything else (a signal). */
  datatype ChildStatus = ExitedWith(code: ExitCode) | Signalled

  /** The operating system's answers during one reload_process call. */
  datatype Outcome = Outcome(killDelivered: bool, fork: ForkOutcome, status: ChildStatus)

  /** The calls the supervisor makes, in the order it makes them. */
  datatype Action =
    | KillSent(pid: int, delivered: bool)  // kill(pid, SIGKILL) and whether it returned something other than -1
    | PidSet(pid: int)                     // safe_update_pid(pid)
    | ForkCalled(result: ForkOutcome)      // fork()
    | Exit                                 // exit(EXIT_FAILURE)
    | Waited(pid: int)                     // waitpid(pid, &status, 0)
    | StatusReported(code: int)            // the "exited with status" message

  /** A parent never gets pid 0 or a negative pid back from a successful fork. */
  predicate ForkOk(f: ForkOutcome) {
    f.Forked? ==> f.child > 0
  }

  /** The supervisor's state: prev_child_pid and the calls made so far. */
  datatype Sup = Sup(pid: int, trace: seq<Action>)

  // ---------------------------------------------------------------- the transitions

  /** safe_update_pid: the tracked pid becomes `pid`. */
  function UpdatePid(s: Sup, pid: int): Sup {
    Sup(pid, s.trace + [PidSet(pid)])
  }

  /**
   * kill_previous_process(prev): no call when `prev` is NO_PID; otherwise
   * a kill, and the tracked pid is cleared only when the kill was delivered.
   */
  function KillStep(s: Sup, prev: int, delivered: bool): Sup {
    if prev == NO_PID then s
    else
      var k := s.(trace := s.trace + [KillSent(prev, delivered)]);
      if delivered then UpdatePid(k, NO_PID) else k
  }

  /** The report after the wait: only a normal exit with a non-zero status is reported. */
  function Report(st: ChildStatus): seq<Action> {
    if st.ExitedWith? && st.code != 0 then [StatusReported(st.code)] else []
  }

  /**
   * reload_process, seen from the parent: kill the tracked child, fork,
   * then either exit (fork failed) or track the new child, wait for it and
   * report its status.
   */
  function ReloadStep(s: Sup, o: Outcome): Sup {
    var k := KillStep(s, s.pid, o.killDelivered);
    var f := k.(trace := k.trace + [ForkCalled(o.fork)]);
    match o.fork
    case ForkFailed => f.(trace := f.trace + [Exit])
    case Forked(c) =>
      var t := UpdatePid(f, c);
      t.(trace := t.trace + [Waited(c)] + Report(o.status))
  }

  /** Successive reloads from `s`; a failed fork ends the process, and with it the run. */
  function Run(s: Sup, outs: seq<Outcome>): Sup
    decreases |outs|
  {
    if outs == [] then s
    else if outs[0].fork.ForkFailed? then ReloadStep(s, outs[0])
    else Run(ReloadStep(s, outs[0]), outs[1..])
  }

  // ---------------------------------------------------------------- views of the trace

  /** The pids the supervisor tried to kill, in order. */
  function Kills(t: seq<Action>): seq<int> {
    if t == [] then []
    else Kills(t[..|t| - 1]) + (if t[|t| - 1].KillSent? then [t[|t| - 1].pid] else [])
  }

  /** The children fork created, in order. */
  function Spawns(t: seq<Action>): seq<int> {
    if t == [] then []
    else
      var a := t[|t| - 1];
      Spawns(t[..|t| - 1]) + (if a.ForkCalled? && a.result.Forked? then [a.result.child] else [])
  }

  /** The pid the last safe_update_pid call set, or NO_PID before any. */
  function TrackedPid(t: seq<Action>): int {
    if t == [] then NO_PID
    else if t[|t| - 1].PidSet? then t[|t| - 1].pid
    else TrackedPid(t[..|t| - 1])
  }

  /** Appending calls adds their kills. */
  lemma {:induction false} KillsAppend(t: seq<Action>, u: seq<Action>)
    ensures Kills(t + u) == Kills(t) + Kills(u)
    decreases |u|
  {
    if u == [] {
      assert t + u == t;
    } else {
      var u' := u[..|u| - 1];
      assert (t + u)[..|t + u| - 1] == t + u';
      KillsAppend(t, u');
    }
  }

  /** Appending calls adds their spawns. */
  lemma {:induction false} SpawnsAppend(t: seq<Action>, u: seq<Action>)
    ensures Spawns(t + u) == Spawns(t) + Spawns(u)
    decreases |u|
  {
    if u == [] {
      assert t + u == t;
    } else {
      var u' := u[..|u| - 1];
      assert (t + u)[..|t + u| - 1] == t + u';
      SpawnsAppend(t, u');
    }
  }

  /** Appending calls that set no pid leaves the tracked pid as it was. */
  lemma {:induction false} TrackedPidAppend(t: seq<Action>, u: seq<Action>)
    requires forall i :: 0 <= i < |u| ==> !u[i].PidSet?
    ensures TrackedPid(t + u) == TrackedPid(t)
    decreases |u|
  {
    if u == [] {
      assert t + u == t;
    } else {
      var u' := u[..|u| - 1];
      assert (t + u)[..|t + u| - 1] == t + u';
      TrackedPidAppend(t, u');
    }
  }

  /** The calls kill_previous_process(pid) makes. */
  function KillCalls(pid: int, delivered: bool): seq<Action> {
    if pid == NO_PID then []
    else [KillSent(pid, delivered)] + (if delivered then [PidSet(NO_PID)] else [])
  }

  /** The calls from fork on: the exit, or tracking, waiting for and reporting on the new child. */
  function ForkCalls(o: Outcome): seq<Action> {
    [ForkCalled(o.fork)] +
      match o.fork
      case ForkFailed => [Exit]
      case Forked(c) => [PidSet(c), Waited(c)] + Report(o.status)
  }

  /** A reload from tracked pid `pid` makes exactly these calls, in this order, and only appends them. */
  lemma ReloadAppends(s: Sup, o: Outcome)
    ensures ReloadStep(s, o).trace == s.trace + (KillCalls(s.pid, o.killDelivered) + ForkCalls(o))
    ensures ReloadStep(s, o).pid
      == if o.fork.Forked? then o.fork.child else KillStep(s, s.pid, o.killDelivered).pid
  {
    var k := KillCalls(s.pid, o.killDelivered);
    assert KillStep(s, s.pid, o.killDelivered).trace == s.trace + k;
  }

  /** The kills and spawns among kill_previous_process's calls. */
  lemma KillCallsCount(pid: int, delivered: bool)
    ensures Kills(KillCalls(pid, delivered)) == if pid == NO_PID then [] else [pid]
    ensures Spawns(KillCalls(pid, delivered)) == []
  {
    var u := KillCalls(pid, delivered);
    SpawnsNone(u);
    if pid != NO_PID {
      assert u[..1] == [KillSent(pid, delivered)] && [KillSent(pid, delivered)][..0] == [];
      if delivered {
        assert Kills(u) == Kills(u[..1]);
      }
    }
  }

  /** The kills and spawns among the calls from fork on. */
  lemma ForkCallsCount(o: Outcome)
    ensures Kills(ForkCalls(o)) == []
    ensures Spawns(ForkCalls(o)) == if o.fork.Forked? then [o.fork.child] else []
  {
    var u := ForkCalls(o);
    KillsNone(u);
    var tail := u[1..];
    SpawnsNone(tail);
    assert u == [ForkCalled(o.fork)] + tail;
    SpawnsAppend([ForkCalled(o.fork)], tail);
    assert [ForkCalled(o.fork)][..0] == [];
  }

  /** The kills and spawns among all the calls of one reload. */
  lemma ReloadCallsCount(pid: int, o: Outcome)
    ensures Kills(KillCalls(pid, o.killDelivered) + ForkCalls(o)) == if pid == NO_PID then [] else [pid]
    ensures Spawns(KillCalls(pid, o.killDelivered) + ForkCalls(o))
      == if o.fork.Forked? then [o.fork.child] else []
  {
    KillsAppend(KillCalls(pid, o.killDelivered), ForkCalls(o));
    SpawnsAppend(KillCalls(pid, o.killDelivered), ForkCalls(o));
    KillCallsCount(pid, o.killDelivered);
    ForkCallsCount(o);
  }

  /** The kills and spawns a reload adds. */
  lemma ReloadCounts(s: Sup, o: Outcome)
    ensures Kills(ReloadStep(s, o).trace) == Kills(s.trace) + (if s.pid == NO_PID then [] else [s.pid])
    ensures Spawns(ReloadStep(s, o).trace) == Spawns(s.trace) + (if o.fork.Forked? then [o.fork.child] else [])
  {
    var u := KillCalls(s.pid, o.killDelivered) + ForkCalls(o);
    ReloadAppends(s, o);
    KillsAppend(s.trace, u);
    SpawnsAppend(s.trace, u);
    ReloadCallsCount(s.pid, o);
  }

  /** A trace without kill calls has no kills. */
  lemma {:induction false} KillsNone(u: seq<Action>)
    requires forall i :: 0 <= i < |u| ==> !u[i].KillSent?
    ensures Kills(u) == []
    decreases |u|
  {
    if u != [] {
      KillsNone(u[..|u| - 1]);
    }
  }

  /** A trace without a successful fork has no spawns. */
  lemma {:induction false} SpawnsNone(u: seq<Action>)
    requires forall i :: 0 <= i < |u| ==> !(u[i].ForkCalled? && u[i].result.Forked?)
    ensures Spawns(u) == []
    decreases |u|
  {
    if u != [] {
      SpawnsNone(u[..|u| - 1]);
    }
  }

  // ---------------------------------------------------------------- one reload

  /** kill_previous_process makes no kill call when no child is tracked. */
  lemma NoKillWithoutChild(s: Sup, o: Outcome)
    requires s.pid == NO_PID
    ensures Kills(ReloadStep(s, o).trace) == Kills(s.trace)
  {
    ReloadCounts(s, o);
  }

  /** The kill of the tracked child comes before the fork, and a reload forks exactly once. */
  lemma KillBeforeFork(pid: int, o: Outcome)
    ensures var u := KillCalls(pid, o.killDelivered) + ForkCalls(o);
      && (exists j :: 0 <= j < |u| && u[j] == ForkCalled(o.fork))
      && (forall j :: 0 <= j < |u| && u[j].ForkCalled? ==> j == |KillCalls(pid, o.killDelivered)|)
      && forall i, j :: 0 <= i < |u| && 0 <= j < |u| && u[i].KillSent? && u[j].ForkCalled? ==> i < j
  {
    var k := KillCalls(pid, o.killDelivered);
    var u := k + ForkCalls(o);
    assert u[|k|] == ForkCalled(o.fork);
    assert forall j :: 0 <= j < |u| && u[j].ForkCalled? ==> j == |k|;
    assert forall i :: 0 <= i < |u| && u[i].KillSent? ==> i == 0 && |k| > 0;
  }

  /** The tracked pid is cleared exactly when a kill is attempted and delivered; a failed kill keeps it. */
  lemma KillClearsOnlyOnDelivery(s: Sup, prev: int, delivered: bool)
    ensures var k := KillStep(s, prev, delivered);
      && Kills(k.trace) == Kills(s.trace) + (if prev == NO_PID then [] else [prev])
      && (k.pid == NO_PID <==> (prev != NO_PID && delivered) || s.pid == NO_PID)
      && (prev == NO_PID || !delivered ==> k.pid == s.pid)
  {
    var k := KillStep(s, prev, delivered);
    assert k.trace == s.trace + KillCalls(prev, delivered);
    KillsAppend(s.trace, KillCalls(prev, delivered));
    KillCallsCount(prev, delivered);
  }

  /** A successful fork makes the new child the tracked pid before the wait for it, and nothing sets it after. */
  lemma ChildTrackedBeforeWait(s: Sup, o: Outcome)
    requires o.fork.Forked?
    ensures var u := KillCalls(s.pid, o.killDelivered) + ForkCalls(o);
      var c := o.fork.child;
      && ReloadStep(s, o).pid == c
      && exists i, j :: (0 <= i < j < |u| && u[i] == PidSet(c) && u[j] == Waited(c) &&
                         forall m :: i < m < |u| ==> !u[m].PidSet?)
  {
    ReloadAppends(s, o);
    var k := KillCalls(s.pid, o.killDelivered);
    var u := k + ForkCalls(o);
    var c := o.fork.child;
    var n := |k|;
    assert u[n + 1] == PidSet(c) && u[n + 2] == Waited(c);
    assert forall m :: n + 1 < m < |u| ==> u[m].Waited? || u[m].StatusReported?;
  }

  /** A failed fork ends in the exit, creates no child and leaves the pid where the kill left it. */
  lemma ForkFailureKeepsPid(s: Sup, o: Outcome)
    requires o.fork.ForkFailed?
    ensures var r := ReloadStep(s, o);
      && r.pid == KillStep(s, s.pid, o.killDelivered).pid
      && r.trace[|r.trace| - 1] == Exit
      && Spawns(r.trace) == Spawns(s.trace)
  {
    ReloadAppends(s, o);
    ReloadCounts(s, o);
  }

  /** The child's exit status only adds a report: the pid and every other call are the same whatever it is. */
  lemma StatusOnlyReported(s: Sup, o: Outcome, st: ChildStatus)
    ensures var r1 := ReloadStep(s, o);
      var r2 := ReloadStep(s, o.(status := st));
      && r1.pid == r2.pid
      && (o.fork.Forked? ==> r1.trace == r2.trace[..|r2.trace| - |Report(st)|] + Report(o.status))
      && (o.fork.ForkFailed? ==> r1.trace == r2.trace)
  {
    var r2 := ReloadStep(s, o.(status := st));
    if o.fork.Forked? {
      var k := KillStep(s, s.pid, o.killDelivered);
      var base := k.trace + [ForkCalled(o.fork), PidSet(o.fork.child), Waited(o.fork.child)];
      assert r2.trace == base + Report(st);
      assert r2.trace[..|r2.trace| - |Report(st)|] == base;
    }
  }

  // ---------------------------------------------------------------- the invariant and the run

  /** prev_child_pid is the pid the last safe_update_pid call set. */
  predicate Tracks(s: Sup) {
    s.pid == TrackedPid(s.trace)
  }

  /** Every reload keeps prev_child_pid equal to the last pid it set. */
  lemma ReloadKeepsTracking(s: Sup, o: Outcome)
    requires Tracks(s)
    ensures Tracks(ReloadStep(s, o))
  {
    var k := KillStep(s, s.pid, o.killDelivered);
    assert Tracks(k) by {
      if s.pid != NO_PID {
        var k0 := s.trace + [KillSent(s.pid, o.killDelivered)];
        assert k0[..|k0| - 1] == s.trace;
      }
    }
    match o.fork
    case ForkFailed =>
      TrackedPidAppend(k.trace, [ForkCalled(o.fork), Exit]);
      assert ReloadStep(s, o).trace == k.trace + [ForkCalled(o.fork), Exit];
    case Forked(c) =>
      var t := k.trace + [ForkCalled(o.fork), PidSet(c)];
      assert t[..|t| - 1][..|t| - 2] == k.trace;
      assert TrackedPid(t) == c;
      TrackedPidAppend(t, [Waited(c)] + Report(o.status));
      assert ReloadStep(s, o).trace == t + ([Waited(c)] + Report(o.status));
  }

  /** The last element of a non-empty sequence. */
  function Last(xs: seq<int>): int
    requires xs != []
  {
    xs[|xs| - 1]
  }

  /** All but the last element of a sequence; nothing for the empty one. */
  function DropLast(xs: seq<int>): (r: seq<int>)
    ensures xs != [] ==> xs == r + [Last(xs)]
  {
    if xs == [] then [] else xs[..|xs| - 1]
  }

  /**
   * The supervisor's bookkeeping between reloads: it tracks the newest
   * child (or none before the first), a real process id, and it has tried
   * to kill every older child exactly once and in order.
   */
  predicate Orderly(s: Sup) {
    && s.pid == (if Spawns(s.trace) == [] then NO_PID else Last(Spawns(s.trace)))
    && (Spawns(s.trace) != [] ==> s.pid > 0)
    && Kills(s.trace) == DropLast(Spawns(s.trace))
  }

  /** A reload with a successful fork keeps the supervisor orderly. */
  lemma ReloadKeepsOrderly(s: Sup, o: Outcome)
    requires Orderly(s) && o.fork.Forked? && ForkOk(o.fork)
    ensures Orderly(ReloadStep(s, o))
  {
    ReloadAppends(s, o);
    ReloadCounts(s, o);
    var sp := Spawns(s.trace);
    assert DropLast(sp + [o.fork.child]) == sp;
    if sp != [] {
      assert Kills(s.trace) + [s.pid] == sp;
    }
  }

  /**
   * Over any run of reloads from an orderly state (the start is one), each
   * child but the newest has been the target of exactly one kill attempt,
   * in the order the children were created, and the newest one is tracked;
   * after a failed fork ends the run, the newest one has had its kill
   * attempt too.
   */
  lemma {:induction false} RunKillsEveryOlderChild(s: Sup, outs: seq<Outcome>)
    requires Orderly(s)
    requires forall i :: 0 <= i < |outs| ==> ForkOk(outs[i].fork)
    ensures var r := Run(s, outs);
      Orderly(r) || (r.trace != [] && r.trace[|r.trace| - 1] == Exit && Kills(r.trace) == Spawns(r.trace))
    decreases |outs|
  {
    if outs != [] {
      var o := outs[0];
      if o.fork.ForkFailed? {
        ForkFailureKeepsPid(s, o);
        ReloadCounts(s, o);
        var sp := Spawns(s.trace);
        if sp != [] {
          assert Kills(s.trace) + [s.pid] == sp;
        }
      } else {
        ReloadKeepsOrderly(s, o);
        RunKillsEveryOlderChild(ReloadStep(s, o), outs[1..]);
      }
    }
  }

  /** The state before the first reload: no child is tracked and nothing has been called. */
  lemma StartIsOrderly()
    ensures Orderly(Sup(NO_PID, [])) && Tracks(Sup(NO_PID, []))
  {
  }

  // ---------------------------------------------------------------- register_command

  /**
   * The command buffer after register_command(cmdLen, cmd): None when the
   * process exits because the command does not fit (a negative length
   * becomes a huge size_t and does not fit either); otherwise the first
   * `cmdLen` cells as strncpy writes them, a NUL at `cmdLen`, and the rest
   * as it was.
   */
  function Registered(buf: seq<char>, cmdLen: int, cmd: string): (r: Option<seq<char>>)
    ensures r.Some? <==> 0 <= cmdLen < |buf|
  {
    if cmdLen < 0 || cmdLen >= |buf| then None
    else Some(StrNCpy(cmd, cmdLen) + ['\0'] + buf[cmdLen + 1..])
  }

  /** A registered command reads back as its first `cmdLen` characters, in a buffer of the same size. */
  lemma RegisteredReadsBack(buf: seq<char>, cmdLen: int, cmd: string)
    requires NoNul(cmd) && 0 <= cmdLen < |buf|
    ensures var r := Registered(buf, cmdLen, cmd).value;
      |r| == |buf| && CStr(r) == Prefix(cmd, cmdLen)
  {
    StrNCpyReadBack(cmd, cmdLen, buf[cmdLen + 1..]);
  }

  // ---------------------------------------------------------------- the supervisor

  class Supervisor {
    /** prev_child_pid */
    var prevChildPid: int
    /** The calls made so far. */
    var trace: seq<Action>
    /** The global `command` buffer. */
    const command: array<char>

    function State(): Sup
      reads this
    {
      Sup(prevChildPid, trace)
    }

    /** Program start: no child tracked, no calls made, a zeroed command buffer of the given size. */
    constructor (capacity: nat)
      ensures State() == Sup(NO_PID, []) && fresh(command)
      ensures command.Length == capacity && forall i :: 0 <= i < capacity ==> command[i] == '\0'
    {
      prevChildPid := NO_PID;
      trace := [];
      command := new char[capacity](_ => '\0');
    }

    /** safe_update_pid(pid). */
    method SafeUpdatePid(pid: int)
      modifies this
      ensures State() == UpdatePid(old(State()), pid)
    {
      prevChildPid := pid;
      trace := trace + [PidSet(pid)];
    }

    /**
     * kill_previous_process(prev): `delivered` is whether kill(prev, SIGKILL)
     * returned something other than -1.
     */
    method KillPreviousProcess(prev: int, delivered: bool)
      modifies this
      ensures State() == KillStep(old(State()), prev, delivered)
    {
      if prev != NO_PID {
        trace := trace + [KillSent(prev, delivered)];
        if delivered {
          SafeUpdatePid(NO_PID);
        }
      }
    }

    /** reload_process, with the operating system's answers in `o`; `exited` is the exit on a failed fork. */
    method ReloadProcess(o: Outcome) returns (exited: bool)
      requires ForkOk(o.fork)
      modifies this
      ensures State() == ReloadStep(old(State()), o)
      ensures exited <==> o.fork.ForkFailed?
    {
      KillPreviousProcess(prevChildPid, o.killDelivered);
      trace := trace + [ForkCalled(o.fork)];
      if o.fork.ForkFailed? {
        trace := trace + [Exit];
        return true;
      }
      var child := o.fork.child;
      SafeUpdatePid(child);
      trace := trace + [Waited(child)];
      if o.status.ExitedWith? && o.status.code != 0 {
        trace := trace + [StatusReported(o.status.code)];
      }
      return false;
    }

    /**
     * register_command(cmdLen, cmd): `exited` is the exit when the command
     * does not fit; otherwise strncpy, then the terminator at `cmdLen`.
     */
    method RegisterCommand(cmdLen: int, cmd: string) returns (exited: bool)
      requires NoNul(cmd)
      modifies command
      ensures exited <==> Registered(old(command[..]), cmdLen, cmd).None?
      ensures exited ==> command[..] == old(command[..])
      ensures !exited ==> command[..] == Registered(old(command[..]), cmdLen, cmd).value
    {
      if cmdLen < 0 || cmdLen >= command.Length {
        return true;
      }
      StrNCopy(command, cmd, cmdLen);
      command[cmdLen] := '\0';
      assert command[..] == command[..cmdLen] + ['\0'] + command[cmdLen + 1..];
      return false;
    }
  }
}
