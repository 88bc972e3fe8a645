/**
 The parent's side of the multi-process mode. What the operating system
 decides (the processor count, whether each fork succeeds, and the status
 each successive wait() call returns) is taken as input; the model is the
 bookkeeping the parent does with it: the admission counter that bounds the
 number of live children, and the fold over reaped exit statuses.
 */
module ProcessManager {
  import opened Types

  /** What wait() reports for a terminated child: a normal exit with its code, or death by a signal. */
  datatype WaitStatus = Exited(code: int) | Signaled(signal: int)

  /** A child that exited normally with status 0. */
  predicate ExitedCleanly(w: WaitStatus) {
    w.Exited? && w.code == 0
  }

  predicate AllClean(ws: seq<WaitStatus>) {
    forall i :: 0 <= i < |ws| ==> ExitedCleanly(ws[i])
  }

  /**
   Reaps children until none is left. Any non-zero exit status or any
   signal turns the result false, but reaping goes on to the last child; with
   no child at all the result is true.
   */
  method WaitForChildProcesses(reaped: seq<WaitStatus>) returns (success: bool)
    ensures success <==> forall i :: 0 <= i < |reaped| ==> reaped[i] == Exited(0)
  {
    success := true;
    var k := 0;
    while k < |reaped|
      invariant 0 <= k <= |reaped|
      invariant success <==> forall i :: 0 <= i < k ==> reaped[i] == Exited(0)
    {
      match reaped[k] {
        case Exited(code) =>
          if code != 0 {
            success := false;
          }
        case Signaled(_) =>
          success := false;
      }
      k := k + 1;
    }
  }

  /** The admission bound: the online processor count, or 1 when that count is not positive. */
  function GetMaxProcesses(processors: int): (n: int)
    ensures n >= 1
    ensures processors > 0 ==> n == processors
    ensures processors <= 0 ==> n == 1
  {
    if processors > 0 then processors else 1
  }

  function Min(a: int, b: int): int {
    if a <= b then a else b
  }

  function Max(a: int, b: int): int {
    if a >= b then a else b
  }

  /**
   The operating system's side of a multi-process run with n species: the
   processor count, whether the fork for species i succeeds, and the
   statuses returned by the successive wait() calls (one per child).
   */
  datatype ProcessEnv = ProcessEnv(processors: int, forkOk: seq<bool>, reaped: seq<WaitStatus>)

  predicate EnvCovers(env: ProcessEnv, n: nat) {
    |env.forkOk| == n && |env.reaped| == n
  }

  /**
   The parent's counters: live children, children reaped so far, the most
   children ever live at once, and the statuses the throttling wait threw away.
   */
  datatype Parent = Parent(active: nat, waited: nat, peak: nat, discarded: seq<WaitStatus>)

  function Start(): Parent {
    Parent(0, 0, 0, [])
  }

  /** When `maxProcs` children are live, one wait reaps the earliest unreaped child and its status is dropped. */
  function Throttle(st: Parent, maxProcs: nat, reaped: seq<WaitStatus>): (r: Parent)
    requires 1 <= maxProcs && (st.active >= maxProcs ==> st.waited < |reaped|)
    ensures st.active >= maxProcs ==> r.active == st.active - 1 && r.waited == st.waited + 1
                                      && r.discarded == st.discarded + [reaped[st.waited]]
    ensures st.active < maxProcs ==> r == st
    ensures r.peak == st.peak
  {
    if st.active >= maxProcs
    then Parent(st.active - 1, st.waited + 1, st.peak, st.discarded + [reaped[st.waited]])
    else st
  }

  /** A successful fork: one more live child, and the peak raised if need be. */
  function Spawn(st: Parent): (r: Parent)
    ensures r.active == st.active + 1 && r.waited == st.waited && r.discarded == st.discarded
    ensures r.peak == Max(st.peak, st.active + 1) && r.peak >= r.active
  {
    st.(active := st.active + 1, peak := Max(st.peak, st.active + 1))
  }

  /**
   Admission of species i onwards: when `maxProcs` children are live, one
   wait reaps some child and drops its status; then the fork either fails,
   which ends the run, or adds a live child.
   */
  function AdmitFrom(i: nat, st: Parent, maxProcs: nat, forkOk: seq<bool>, reaped: seq<WaitStatus>): (r: Option<Parent>)
    requires 1 <= maxProcs && |forkOk| == |reaped| && i <= |forkOk|
    requires st.waited + st.active == i && st.active <= maxProcs && st.peak <= maxProcs
    ensures r.Some? <==> forall k :: i <= k < |forkOk| ==> forkOk[k]
    ensures r.Some? ==> r.value.waited + r.value.active == |forkOk|
    ensures r.Some? ==> r.value.active <= maxProcs && st.peak <= r.value.peak <= maxProcs
    ensures r.Some? ==> st.waited <= r.value.waited && r.value.discarded == st.discarded + reaped[st.waited..r.value.waited]
    decreases |forkOk| - i
  {
    if i == |forkOk| then
      assert reaped[st.waited..st.waited] == [];
      Some(st)
    else
      var throttled := Throttle(st, maxProcs, reaped);
      if !forkOk[i] then None
      else
        var r := AdmitFrom(i + 1, Spawn(throttled), maxProcs, forkOk, reaped);
        assert r.Some? && st.active >= maxProcs ==>
                 reaped[st.waited..r.value.waited] == [reaped[st.waited]] + reaped[st.waited + 1..r.value.waited];
        r
  }

  /** One admission step with a successful fork. */
  lemma AdmitStep(i: nat, st: Parent, maxProcs: nat, forkOk: seq<bool>, reaped: seq<WaitStatus>)
    requires 1 <= maxProcs && |forkOk| == |reaped| && i < |forkOk| && forkOk[i]
    requires st.waited + st.active == i && st.active <= maxProcs && st.peak <= maxProcs
    ensures var next := Spawn(Throttle(st, maxProcs, reaped));
            && next.waited + next.active == i + 1 && next.active <= maxProcs && next.peak <= maxProcs
            && AdmitFrom(i, st, maxProcs, forkOk, reaped) == AdmitFrom(i + 1, next, maxProcs, forkOk, reaped)
  {
  }

  /** Status the parent returns: fork failure, or the verdict over the children still live after admission. */
  function ParentStatus(env: ProcessEnv): StatusCode
    requires EnvCovers(env, |env.forkOk|)
  {
    match AdmitFrom(0, Start(), GetMaxProcesses(env.processors), env.forkOk, env.reaped)
    case None => ErrorMemoryAllocation
    case Some(st) => if AllClean(env.reaped[st.waited..]) then Success else ErrorDirectoryCreation
  }

  /**
   The parent's loop over species as the program runs it: throttle with a
   status-discarding wait when the bound is reached, fork, and after the last
   species reap the remaining children.
   */
  method DispatchChildren(env: ProcessEnv) returns (status: StatusCode)
    requires EnvCovers(env, |env.forkOk|)
    ensures status == ParentStatus(env)
  {
    var maxProcs := GetMaxProcesses(env.processors);
    var st := Start();
    var i := 0;
    while i < |env.forkOk|
      invariant 0 <= i <= |env.forkOk|
      invariant st.waited + st.active == i && st.active <= maxProcs && st.peak <= maxProcs
      invariant AdmitFrom(0, Start(), maxProcs, env.forkOk, env.reaped)
             == AdmitFrom(i, st, maxProcs, env.forkOk, env.reaped)
    {
      // wait(NULL) when the bound is reached: some child is reaped and its status is not looked at
      var throttled := Throttle(st, maxProcs, env.reaped);
      if !env.forkOk[i] {
        return ErrorMemoryAllocation;
      }
      AdmitStep(i, st, maxProcs, env.forkOk, env.reaped);
      st := Spawn(throttled);
      i := i + 1;
    }
    var ok := WaitForChildProcesses(env.reaped[st.waited..]);
    status := if ok then Success else ErrorDirectoryCreation;
  }

  /**
   The parent's counters after admitting i children with every fork
   succeeding: min(i, m) live, the rest reaped, their statuses discarded.
   */
  function Settled(i: nat, maxProcs: nat, reaped: seq<WaitStatus>): Parent
    requires i - Min(i, maxProcs) <= |reaped|
  {
    Parent(Min(i, maxProcs), i - Min(i, maxProcs), Min(i, maxProcs), reaped[..i - Min(i, maxProcs)])
  }

  /** One successful admission takes the settled counters for i to those for i + 1. */
  lemma SettledStep(i: nat, maxProcs: nat, reaped: seq<WaitStatus>)
    requires 1 <= maxProcs && i < |reaped|
    ensures Spawn(Throttle(Settled(i, maxProcs, reaped), maxProcs, reaped)) == Settled(i + 1, maxProcs, reaped)
  {
    var m := Min(i, maxProcs);
    if i >= maxProcs {
      assert reaped[..i - m] + [reaped[i - m]] == reaped[..i + 1 - m];
    }
  }

  /** From a state reached by admitting i children with every fork succeeding, the counters are in closed form. */
  lemma {:induction false} AdmitClosedForm(i: nat, maxProcs: nat, forkOk: seq<bool>, reaped: seq<WaitStatus>)
    requires 1 <= maxProcs && |forkOk| == |reaped| && i <= |forkOk|
    requires forall k :: 0 <= k < |forkOk| ==> forkOk[k]
    ensures AdmitFrom(i, Settled(i, maxProcs, reaped), maxProcs, forkOk, reaped) == Some(Settled(|forkOk|, maxProcs, reaped))
    decreases |forkOk| - i
  {
    if i < |forkOk| {
      hide AdmitFrom, Settled, Spawn, Throttle;
      AdmitStep(i, Settled(i, maxProcs, reaped), maxProcs, forkOk, reaped);
      SettledStep(i, maxProcs, reaped);
      AdmitClosedForm(i + 1, maxProcs, forkOk, reaped);
    }
  }

  /**
   The multi-process parent as written, with n species and bound m: a fork
   failure gives ErrorMemoryAllocation; otherwise never more than m children
   are live, the first n - m reaped statuses (those of the throttling waits)
   are discarded, and the result is Success exactly when the remaining
   statuses are clean exits, ErrorDirectoryCreation otherwise.
   */
  lemma ParentStatusAsWritten(env: ProcessEnv)
    requires EnvCovers(env, |env.forkOk|)
    ensures var n := |env.forkOk|;
            var m := GetMaxProcesses(env.processors);
            var throttled := n - Min(n, m);
            && ((exists k :: 0 <= k < n && !env.forkOk[k]) ==> ParentStatus(env) == ErrorMemoryAllocation)
            && ((forall k :: 0 <= k < n ==> env.forkOk[k]) ==>
                  && AdmitFrom(0, Start(), m, env.forkOk, env.reaped).Some?
                  && AdmitFrom(0, Start(), m, env.forkOk, env.reaped).value.peak <= m
                  && AdmitFrom(0, Start(), m, env.forkOk, env.reaped).value.discarded == env.reaped[..throttled]
                  && (ParentStatus(env) == Success <==> AllClean(env.reaped[throttled..]))
                  && (ParentStatus(env) != Success ==> ParentStatus(env) == ErrorDirectoryCreation))
  {
    var m := GetMaxProcesses(env.processors);
    if forall k :: 0 <= k < |env.forkOk| ==> env.forkOk[k] {
      AdmitClosedForm(0, m, env.forkOk, env.reaped);
      assert Settled(0, m, env.reaped) == Start();
    }
  }

  /**
   With one processor and two species whose first child fails, the failing
   status is consumed by the throttling wait and the run reports Success.
   */
  lemma ThrottledFailureIsLost()
    ensures var env := ProcessEnv(1, [true, true], [Exited(Code(ErrorDirectoryCreation)), Exited(0)]);
            EnvCovers(env, 2) && !AllClean(env.reaped) && ParentStatus(env) == Success
  {
    var env := ProcessEnv(1, [true, true], [Exited(Code(ErrorDirectoryCreation)), Exited(0)]);
    ParentStatusAsWritten(env);
    assert env.reaped[1..] == [Exited(0)];
    assert !ExitedCleanly(env.reaped[0]);
  }

  /**
   Intended aggregation: the statuses of children reaped by the throttling
   wait are kept and folded with the final ones.
   */
  function ParentStatusCollecting(env: ProcessEnv): StatusCode
    requires EnvCovers(env, |env.forkOk|)
  {
    match AdmitFrom(0, Start(), GetMaxProcesses(env.processors), env.forkOk, env.reaped)
    case None => ErrorMemoryAllocation
    case Some(st) =>
      if AllClean(st.discarded) && AllClean(env.reaped[st.waited..]) then Success else ErrorDirectoryCreation
  }

  /** With every fork succeeding, the collecting parent succeeds exactly when every child exited cleanly. */
  lemma ParentStatusCollectingSeesEveryChild(env: ProcessEnv)
    requires EnvCovers(env, |env.forkOk|)
    requires forall k :: 0 <= k < |env.forkOk| ==> env.forkOk[k]
    ensures ParentStatusCollecting(env) == Success <==> AllClean(env.reaped)
  {
    var n := |env.forkOk|;
    var m := GetMaxProcesses(env.processors);
    AdmitClosedForm(0, m, env.forkOk, env.reaped);
    assert Settled(0, m, env.reaped) == Start();
    var w := n - Min(n, m);
    assert env.reaped == env.reaped[..w] + env.reaped[w..];
    if AllClean(env.reaped[..w]) && AllClean(env.reaped[w..]) {
      forall i | 0 <= i < |env.reaped|
        ensures ExitedCleanly(env.reaped[i])
      {
        if i < w {
          assert env.reaped[i] == env.reaped[..w][i];
        } else {
          assert env.reaped[i] == env.reaped[w..][i - w];
        }
      }
    }
  }
}
