/** `execCrystal`: at most one compiler process at a time, guarded by the
    `executingCrystal` flag. The process is a record of what was spawned,
    the output collected from it and the state of the promise returned for
    it; its `data`, `error` and `exit` events are method calls. */
module Runner {
  import opened Common

  /** One spawned process: working directory, command and arguments, the
      stdout and stderr data in arrival order, the promise returned for it,
      and whether it has reported `error` or `exit`. */
  datatype Proc = Proc(cwd: string, command: string, args: seq<string>, output: string,
                       result: Settlement<string>, ended: bool)

  /** The decimal digits of a non-negative number. */
  function Digits(n: nat): (r: string)
    ensures |r| >= 1 && forall k :: 0 <= k < |r| ==> '0' <= r[k] <= '9'
    decreases n
  {
    var d := ['0' + (n % 10) as char];
    if n < 10 then d else Digits(n / 10) + d
  }

  /** The digits read back as a number. */
  function Value(s: string): int
    decreases |s|
  {
    if s == [] then 0 else Value(s[..|s| - 1]) * 10 + (s[|s| - 1] as int - '0' as int)
  }

  lemma {:induction false} DigitsValue(n: nat)
    ensures Value(Digits(n)) == n
    decreases n
  {
    var d := ['0' + (n % 10) as char];
    if n >= 10 {
      DigitsValue(n / 10);
      var s := Digits(n / 10) + d;
      assert s[..|s| - 1] == Digits(n / 10);
    }
  }

  /** The promise's outcome for an `error` event. */
  function ErrorResult(message: string, output: string): Settlement<string> {
    Rejected("Error executing crystal command: " + message + "\n" + output)
  }

  /** The promise's outcome for an `exit` event: an exit code above 1 rejects
      with the code and the output, any other code (or none, after a signal)
      resolves with the output. */
  function ExitResult(code: Option<int>, output: string): (r: Settlement<string>)
    ensures r.Rejected? <==> code.Some? && code.value > 1
    ensures r.Resolved? ==> r.value == output
    ensures r.Rejected? ==> exists digits ::
      r.reason == "Exited with error code " + digits + ": " + output && Value(digits) == code.value
    ensures !r.Pending?
  {
    if code.Some? && code.value > 1 then
      DigitsValue(code.value);
      Rejected("Exited with error code " + Digits(code.value) + ": " + output)
    else Resolved(output)
  }

  /** A promise settles once: later outcomes are ignored. */
  function Settle(current: Settlement<string>, outcome: Settlement<string>): Settlement<string> {
    if current.Pending? then outcome else current
  }

  /** A settled promise stays as it is whatever comes later, and an outcome
      that settles settles a pending promise. */
  lemma SettleOnce(current: Settlement<string>, first: Settlement<string>, later: Settlement<string>)
    ensures !Settle(current, first).Pending? ==> Settle(Settle(current, first), later) == Settle(current, first)
    ensures !first.Pending? ==> !Settle(current, first).Pending?
  {
  }

  /** The number of processes that have reported neither `error` nor `exit`. */
  function Running(procs: seq<Proc>): (r: nat)
    ensures r <= |procs|
  {
    if procs == [] then 0 else Running(procs[..|procs| - 1]) + (if procs[|procs| - 1].ended then 0 else 1)
  }

  /** When every process but the last has ended, at most one runs, and one
      runs exactly when the last has not ended. */
  lemma {:induction false} RunningAtMostOne(procs: seq<Proc>)
    requires forall i :: 0 <= i < |procs| - 1 ==> procs[i].ended
    ensures Running(procs) <= 1
    ensures Running(procs) == 1 <==> |procs| > 0 && !procs[|procs| - 1].ended
  {
    if procs != [] {
      AllEnded(procs[..|procs| - 1]);
    }
  }

  lemma {:induction false} AllEnded(procs: seq<Proc>)
    requires forall i :: 0 <= i < |procs| ==> procs[i].ended
    ensures Running(procs) == 0
    decreases |procs|
  {
    if procs != [] {
      AllEnded(procs[..|procs| - 1]);
    }
  }

  /** The state of `CrystalTestingProvider` that `execCrystal` uses, as the
      source writes it: both the `error` and the `exit` listener clear the
      flag, whichever process they belong to. */
  class CrystalRunner {
    var executingCrystal: bool
    var procs: seq<Proc>

    /** One process at most runs, and the flag says whether it does. */
    ghost predicate SingleFlight()
      reads this
    {
      (forall i :: 0 <= i < |procs| - 1 ==> procs[i].ended) &&
      (executingCrystal <==> |procs| > 0 && !procs[|procs| - 1].ended)
    }

    constructor()
      ensures !executingCrystal && procs == []
      ensures SingleFlight()
    {
      executingCrystal := false;
      procs := [];
    }

    /** `execCrystal(workspace, command, args)`: while the flag is set
        nothing is spawned and the returned promise never settles (no
        handle); otherwise the flag is set and a process is spawned.
        `thrown` is the error `spawn` throws synchronously, if it does (an
        undefined or empty `compiler` setting, for one): the promise then
        rejects with it, no listener is attached, and the flag stays set. */
    method ExecCrystal(cwd: string, command: string, args: seq<string>, thrown: Option<string>) returns (handle: Option<nat>)
      modifies this
      ensures old(executingCrystal) ==> handle.None? && executingCrystal && procs == old(procs)
      ensures !old(executingCrystal) && thrown.None? ==>
        && executingCrystal
        && procs == old(procs) + [Proc(cwd, command, args, "", Pending, false)]
        && handle == Some(|old(procs)|)
      ensures !old(executingCrystal) && thrown.Some? ==>
        && executingCrystal
        && procs == old(procs) + [Proc(cwd, command, args, "", Rejected(thrown.value), true)]
        && handle.None?
      ensures old(SingleFlight()) && thrown.None? ==> SingleFlight()
    {
      if executingCrystal {
        return None;
      }
      executingCrystal := true;
      if thrown.Some? {
        procs := procs + [Proc(cwd, command, args, "", Rejected(thrown.value), true)];
        return None;
      }
      procs := procs + [Proc(cwd, command, args, "", Pending, false)];
      handle := Some(|procs| - 1);
    }

    /** A `data` event on stdout or stderr: appended to the output. */
    method OnData(handle: nat, data: string)
      requires handle < |procs|
      modifies this
      ensures executingCrystal == old(executingCrystal)
      ensures procs == old(procs)[handle := old(procs)[handle].(output := old(procs)[handle].output + data)]
      ensures old(SingleFlight()) ==> SingleFlight()
    {
      procs := procs[handle := procs[handle].(output := procs[handle].output + data)];
    }

    /** The `error` event: clears the flag and rejects. */
    method OnError(handle: nat, message: string)
      requires handle < |procs|
      modifies this
      ensures !executingCrystal
      ensures var p := old(procs)[handle];
        procs == old(procs)[handle := p.(result := Settle(p.result, ErrorResult(message, p.output)), ended := true)]
      ensures old(SingleFlight()) && !old(procs)[handle].ended ==> SingleFlight()
    {
      executingCrystal := false;
      var p := procs[handle];
      procs := procs[handle := p.(result := Settle(p.result, ErrorResult(message, p.output)), ended := true)];
    }

    /** The `exit` event: clears the flag, then rejects for an exit code
        above 1 and resolves with the output otherwise. */
    method OnExit(handle: nat, code: Option<int>)
      requires handle < |procs|
      modifies this
      ensures !executingCrystal
      ensures var p := old(procs)[handle];
        procs == old(procs)[handle := p.(result := Settle(p.result, ExitResult(code, p.output)), ended := true)]
      ensures old(SingleFlight()) && !old(procs)[handle].ended ==> SingleFlight()
    {
      executingCrystal := false;
      var p := procs[handle];
      procs := procs[handle := p.(result := Settle(p.result, ExitResult(code, p.output)), ended := true)];
    }
  }

  /** A process may report `exit` after `error`. The late `exit` of the first
      process clears the flag while the second runs, so a third call spawns
      a second concurrent process. The listeners allow this sequence; that
      this program's own processes produce it is not shown. */
  method LateExitScenario() returns (running: nat, third: Option<nat>)
    ensures third.Some? && running == 2
  {
    var r := new CrystalRunner();
    var first := r.ExecCrystal("/w", "crystal", ["spec"], None);
    r.OnError(0, "process error");
    var second := r.ExecCrystal("/w", "crystal", ["spec"], None);
    r.OnExit(0, Some(1));
    third := r.ExecCrystal("/w", "crystal", ["spec"], None);
    var ps := r.procs;
    assert |ps| == 3 && ps[0].ended && !ps[1].ended && !ps[2].ended;
    assert ps[..2][..1] == ps[..1];
    assert Running(ps[..1]) == 0 by {
      assert ps[..1][..0] == [];
    }
    assert Running(ps[..2]) == 1;
    running := Running(ps);
  }

  /** `execCrystal` with each process's listeners guarded so that only the
      first of its `error` and `exit` events acts: the flag then always
      says whether the one running process is running. */
  class GuardedRunner {
    var executingCrystal: bool
    var procs: seq<Proc>

    ghost predicate SingleFlight()
      reads this
    {
      (forall i :: 0 <= i < |procs| - 1 ==> procs[i].ended) &&
      (executingCrystal <==> |procs| > 0 && !procs[|procs| - 1].ended) &&
      (forall i :: 0 <= i < |procs| ==> (procs[i].ended <==> !procs[i].result.Pending?))
    }

    constructor()
      ensures !executingCrystal && procs == []
      ensures SingleFlight()
    {
      executingCrystal := false;
      procs := [];
    }

    /** A `spawn` that throws clears the flag again before the promise
        rejects. */
    method ExecCrystal(cwd: string, command: string, args: seq<string>, thrown: Option<string>) returns (handle: Option<nat>)
      requires SingleFlight()
      modifies this
      ensures SingleFlight() && Running(procs) <= 1
      ensures old(executingCrystal) ==> handle.None? && executingCrystal && procs == old(procs)
      ensures !old(executingCrystal) && thrown.None? ==>
        && Running(old(procs)) == 0
        && executingCrystal
        && procs == old(procs) + [Proc(cwd, command, args, "", Pending, false)]
        && handle == Some(|old(procs)|)
      ensures !old(executingCrystal) && thrown.Some? ==>
        && !executingCrystal
        && procs == old(procs) + [Proc(cwd, command, args, "", Rejected(thrown.value), true)]
        && handle.None?
    {
      RunningAtMostOne(procs);
      if executingCrystal {
        return None;
      }
      if thrown.Some? {
        procs := procs + [Proc(cwd, command, args, "", Rejected(thrown.value), true)];
        RunningAtMostOne(procs);
        return None;
      }
      executingCrystal := true;
      procs := procs + [Proc(cwd, command, args, "", Pending, false)];
      handle := Some(|procs| - 1);
      RunningAtMostOne(procs);
    }

    method OnData(handle: nat, data: string)
      requires handle < |procs| && SingleFlight()
      modifies this
      ensures SingleFlight()
      ensures executingCrystal == old(executingCrystal)
      ensures procs == old(procs)[handle := old(procs)[handle].(output := old(procs)[handle].output + data)]
    {
      procs := procs[handle := procs[handle].(output := procs[handle].output + data)];
    }

    method OnError(handle: nat, message: string)
      requires handle < |procs| && SingleFlight()
      modifies this
      ensures SingleFlight() && Running(procs) <= 1
      ensures old(procs)[handle].ended ==> executingCrystal == old(executingCrystal) && procs == old(procs)
      ensures !old(procs)[handle].ended ==>
        && !executingCrystal
        && procs == old(procs)[handle := old(procs)[handle].(result := ErrorResult(message, old(procs)[handle].output), ended := true)]
    {
      var p := procs[handle];
      if !p.ended {
        executingCrystal := false;
        procs := procs[handle := p.(result := ErrorResult(message, p.output), ended := true)];
      }
      RunningAtMostOne(procs);
    }

    method OnExit(handle: nat, code: Option<int>)
      requires handle < |procs| && SingleFlight()
      modifies this
      ensures SingleFlight() && Running(procs) <= 1
      ensures old(procs)[handle].ended ==> executingCrystal == old(executingCrystal) && procs == old(procs)
      ensures !old(procs)[handle].ended ==>
        && !executingCrystal
        && procs == old(procs)[handle := old(procs)[handle].(result := ExitResult(code, old(procs)[handle].output), ended := true)]
    {
      var p := procs[handle];
      if !p.ended {
        executingCrystal := false;
        procs := procs[handle := p.(result := ExitResult(code, p.output), ended := true)];
      }
      RunningAtMostOne(procs);
    }
  }

  /** The same events with guarded listeners: the third call is refused. */
  method GuardedScenario() returns (running: nat, third: Option<nat>)
    ensures third.None? && running == 1
  {
    var r := new GuardedRunner();
    var first := r.ExecCrystal("/w", "crystal", ["spec"], None);
    r.OnError(0, "process error");
    var second := r.ExecCrystal("/w", "crystal", ["spec"], None);
    r.OnExit(0, Some(1));
    third := r.ExecCrystal("/w", "crystal", ["spec"], None);
    RunningAtMostOne(r.procs);
    running := Running(r.procs);
  }

  /** `spawn` throws for the first call (an empty `compiler` setting): no
      process runs, yet the flag stays set, so the next call spawns nothing
      and its promise never settles. */
  method SpawnThrowScenario() returns (running: nat, second: Option<nat>)
    ensures second.None? && running == 0
  {
    var r := new CrystalRunner();
    var first := r.ExecCrystal("/w", "", ["spec"], Some("The argument 'file' cannot be empty. Received ''"));
    second := r.ExecCrystal("/w", "crystal", ["spec"], None);
    AllEnded(r.procs);
    running := Running(r.procs);
  }

  /** The same calls with the flag cleared when `spawn` throws: the next call
      spawns its process. */
  method GuardedSpawnThrowScenario() returns (running: nat, second: Option<nat>)
    ensures second.Some? && running == 1
  {
    var r := new GuardedRunner();
    var first := r.ExecCrystal("/w", "", ["spec"], Some("The argument 'file' cannot be empty. Received ''"));
    second := r.ExecCrystal("/w", "crystal", ["spec"], None);
    RunningAtMostOne(r.procs);
    running := Running(r.procs);
  }
}
