/** The foreground-group bookkeeping and the two signal handlers of
    src/signals.c, as sequential steps over the shell state. Sending a
    signal is reported as the group it is sent to. */
module Signals {
  import opened Wrappers
  import opened CStrings
  import opened Jobs

  /** The longest command fg_cmd[256] keeps. */
  const FgCmdBytes: nat := 255

  /** fg_pgid and fg_cmd. */
  class Foreground {
    var pgid: int
    var cmd: seq<char>

    /** With no foreground job fg_pgid is -1; fg_cmd starts empty. */
    constructor ()
      ensures pgid == -1 && cmd == []
    {
      pgid := -1;
      cmd := [];
    }

    /** signals_set_fg_pgid with a command. */
    method Set(group: int, command: seq<char>)
      modifies this
      ensures pgid == group && cmd == Trunc(command, FgCmdBytes)
    {
      pgid := group;
      cmd := Trunc(command, FgCmdBytes);
    }

    /** The clearing call signals_set_fg_pgid(-1, NULL): the group is
        forgotten and fg_cmd is left as it was. */
    method Clear()
      modifies this
      ensures pgid == -1 && cmd == old(cmd)
    {
      pgid := -1;
    }
  }

  /** on_sigint: the group SIGINT is forwarded to, if any; nothing in the
      shell state changes. */
  function OnSigint(pgid: int): (target: Option<int>)
    ensures target.Some? <==> pgid > 0
    ensures target.Some? ==> target.value == pgid
  {
    if pgid > 0 then Some(pgid) else None
  }

  /** The "[id] Stopped cmd with pid pg" notice. */
  datatype StopNotice = StopNotice(id: int, cmd: seq<char>, pid: int)

  datatype TstpResult = TstpResult(jobs: seq<Job>, next: int, signalled: Option<int>, notice: Option<StopNotice>)

  /** on_sigtstp: forward SIGTSTP to the foreground group, register it as a
      job, and mark the slot holding the new id STOPPED with the group as
      its pid. */
  function OnSigtstp(jobs: seq<Job>, next: int, pg: int, cmd: seq<char>): (r: TstpResult)
    ensures pg <= 0 ==> r == TstpResult(jobs, next, None, None)
    ensures pg > 0 ==> r.signalled == Some(pg)
    ensures r.notice.Some? <==> pg > 0 && AddSpec(jobs, next, pg, cmd).id > 0
  {
    if pg <= 0 then TstpResult(jobs, next, None, None)
    else
      var a := AddSpec(jobs, next, pg, cmd);
      if a.id > 0 then
        var jobs' := match FirstWhere(a.jobs, WithId(a.id), 0)
          case None => a.jobs
          case Some(k) => a.jobs[k := a.jobs[k].(state := Stopped, pid := pg)];
        TstpResult(jobs', a.next, Some(pg), Some(StopNotice(a.id, cmd, pg)))
      else TstpResult(a.jobs, a.next, Some(pg), None)
  }

  predicate ActiveStopped(j: Job) { j.active && j.state == Stopped }

  function CountWhere(jobs: seq<Job>, p: Job -> bool): nat
  {
    if jobs == [] then 0 else (if p(jobs[0]) then 1 else 0) + CountWhere(jobs[1..], p)
  }

  lemma {:induction false} CountUpdate(jobs: seq<Job>, k: nat, x: Job, p: Job -> bool)
    requires k < |jobs| && !p(jobs[k]) && p(x)
    ensures CountWhere(jobs[k := x], p) == CountWhere(jobs, p) + 1
  {
    if k > 0 {
      CountUpdate(jobs[1..], k - 1, x, p);
      assert jobs[k := x][1..] == jobs[1..][k - 1 := x];
    } else {
      assert jobs[k := x][1..] == jobs[1..];
    }
  }

  /** The slot a successful stop fills: the lowest free one, now STOPPED
      with the group as pid. */
  lemma StopSlot(jobs: seq<Job>, next: int, pg: int, cmd: seq<char>) returns (k: nat)
    requires Inv(jobs, next) && pg > 0
    requires OnSigtstp(jobs, next, pg, cmd).notice.Some?
    ensures k < |jobs| && !jobs[k].active && (forall j :: 0 <= j < k ==> jobs[j].active)
    ensures var r := OnSigtstp(jobs, next, pg, cmd);
      r.next == next + 1 && r.notice == Some(StopNotice(next, cmd, pg)) &&
      r.jobs == jobs[k := Job(pg, jobs[k].pgid, next, Trunc(cmd, CmdBytes), true, Stopped)]
  {
    var a := AddSpec(jobs, next, pg, cmd);
    k :| 0 <= k < |jobs| && !jobs[k].active && (forall j :: 0 <= j < k ==> jobs[j].active) &&
      a.jobs == jobs[k := Job(pg, jobs[k].pgid, next, Trunc(cmd, CmdBytes), true, Running)];
    assert WithId(next)(a.jobs[k]);
    assert forall j :: 0 <= j < |a.jobs| && j != k ==> !WithId(next)(a.jobs[j]);
    assert FirstWhere(a.jobs, WithId(a.id), 0) == Some(k);
  }

  /** Under the table invariant, a successful stop registers exactly one
      job: one more active slot, and it is STOPPED, holds the new id, the
      group as pid and the command; nothing else changes; the invariant
      is kept. */
  lemma StopRegistersOne(jobs: seq<Job>, next: int, pg: int, cmd: seq<char>)
    requires Inv(jobs, next) && pg > 0
    requires OnSigtstp(jobs, next, pg, cmd).notice.Some?
    ensures var r := OnSigtstp(jobs, next, pg, cmd);
      Inv(r.jobs, r.next) && r.next == next + 1 && r.notice == Some(StopNotice(next, cmd, pg)) &&
      CountWhere(r.jobs, ActiveStopped) == CountWhere(jobs, ActiveStopped) + 1 &&
      CountWhere(r.jobs, IsFree) + 1 == CountWhere(jobs, IsFree) &&
      exists k :: 0 <= k < |jobs| && !jobs[k].active &&
        r.jobs == jobs[k := Job(pg, jobs[k].pgid, next, Trunc(cmd, CmdBytes), true, Stopped)]
  {
    var k := StopSlot(jobs, next, pg, cmd);
    var x := Job(pg, jobs[k].pgid, next, Trunc(cmd, CmdBytes), true, Stopped);
    assert !ActiveStopped(jobs[k]) && ActiveStopped(x);
    CountUpdate(jobs, k, x, ActiveStopped);
    CountComplement(jobs, k, x);
  }

  lemma {:induction false} CountComplement(jobs: seq<Job>, k: nat, x: Job)
    requires k < |jobs| && !jobs[k].active && x.active
    ensures CountWhere(jobs[k := x], IsFree) + 1 == CountWhere(jobs, IsFree)
  {
    if k > 0 {
      CountComplement(jobs[1..], k - 1, x);
      assert jobs[k := x][1..] == jobs[1..][k - 1 := x];
    } else {
      assert jobs[k := x][1..] == jobs[1..];
    }
  }

  /** When registration is refused, the table is untouched and no notice
      is printed. */
  lemma RefusedStopChangesNothing(jobs: seq<Job>, next: int, pg: int, cmd: seq<char>)
    requires next >= MaxJobs
    ensures OnSigtstp(jobs, next, pg, cmd).jobs == jobs
    ensures OnSigtstp(jobs, next, pg, cmd).notice.None?
  {
  }

  /** on_sigtstp over the job table. */
  method HandleSigtstp(fg: Foreground, table: JobTable) returns (signalled: Option<int>, notice: Option<StopNotice>)
    requires table.Valid()
    modifies table, table.slots
    ensures table.Valid()
    ensures OnSigtstp(old(table.slots[..]), old(table.nextId), fg.pgid, fg.cmd) ==
      TstpResult(table.slots[..], table.nextId, signalled, notice)
  {
    var pg := fg.pgid;
    signalled, notice := None, None;
    if pg > 0 {
      signalled := Some(pg);
      var id := table.Add(pg, fg.cmd);
      if id > 0 {
        var k := table.Find(WithId(id));
        if k != -1 {
          table.slots[k] := table.slots[k].(state := Stopped, pid := pg);
        }
        notice := Some(StopNotice(id, fg.cmd, pg));
      }
    }
  }
}
