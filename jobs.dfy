/** The background-job table of src/jobs.c: 128 fixed slots and a
    registration counter. The reap loop's `waitpid` results are given as a
    sequence of events. */
module Jobs {
  import opened Wrappers
  import opened CStrings

  /** MAX_JOBS. */
  const MaxJobs: nat := 128

  /** The longest command text a 1024-byte slot keeps. */
  const CmdBytes: nat := 1023

  datatype JobState = NoState | Running | Stopped

  /** bg_job. */
  datatype Job = Job(pid: int, pgid: int, id: int, cmd: seq<char>, active: bool, state: JobState)

  /** What `waitpid` reports for a child. */
  datatype Status = Exited(code: nat) | Signaled | StoppedNow | Continued

  /** One result of the reap loop: the child's pid and status. */
  datatype Event = Event(pid: int, status: Status)

  /** The notices jobs_check prints, with the slot's command and pid. */
  datatype Notice = ExitedNormally(cmd: seq<char>, pid: int)
                  | ExitedAbnormally(cmd: seq<char>, pid: int)
                  | KilledBySignal(cmd: seq<char>, pid: int)

  /** The first slot at or after `i` that satisfies `p`: the shape of every
      search loop over the table. */
  function FirstWhere(jobs: seq<Job>, p: Job -> bool, i: nat): (k: Option<nat>)
    requires i <= |jobs|
    ensures k.None? <==> forall j :: i <= j < |jobs| ==> !p(jobs[j])
    ensures k.Some? ==>
      i <= k.value < |jobs| && p(jobs[k.value]) && forall j :: i <= j < k.value ==> !p(jobs[j])
    decreases |jobs| - i
  {
    if i == |jobs| then None
    else if p(jobs[i]) then Some(i)
    else FirstWhere(jobs, p, i + 1)
  }

  predicate IsFree(j: Job) { !j.active }

  predicate Tracks(j: Job, pid: int) { j.active && j.pid == pid }

  predicate HasId(j: Job, id: int) { j.active && j.id == id }

  /** The search predicates, as values for FirstWhere. */
  function TracksPid(pid: int): Job -> bool { j => Tracks(j, pid) }

  function WithId(id: int): Job -> bool { j => HasId(j, id) }

  // ---------------------------------------------------------- invariants

  /** What the table keeps across its operations: the counter stays in
      1..128, and the active slots hold distinct ids below it. */
  predicate Inv(jobs: seq<Job>, next: int)
  {
    |jobs| == MaxJobs && 1 <= next <= MaxJobs &&
    (forall k :: 0 <= k < |jobs| && jobs[k].active ==> 1 <= jobs[k].id < next) &&
    (forall k, l :: 0 <= k < l < |jobs| && jobs[k].active && jobs[l].active ==> jobs[k].id != jobs[l].id)
  }

  /** jobs_init's effect on a slot: only `active` is cleared. */
  function Cleared(j: Job): Job { j.(active := false) }

  lemma InitEstablishes(jobs: seq<Job>)
    requires |jobs| == MaxJobs
    ensures Inv(seq(|jobs|, k requires 0 <= k < |jobs| => Cleared(jobs[k])), 1)
  {
  }

  // -------------------------------------------------------------- adding

  datatype AddResult = AddResult(jobs: seq<Job>, next: int, id: int)

  /** jobs_add: refused (-1) once the counter reaches 128, whatever slots are
      free, or when every slot is active; otherwise the lowest free slot
      becomes an active RUNNING job with the counter's value as its id. */
  function AddSpec(jobs: seq<Job>, next: int, pid: int, cmd: seq<char>): (r: AddResult)
    ensures next >= MaxJobs || (forall j :: 0 <= j < |jobs| ==> jobs[j].active) ==>
      r == AddResult(jobs, next, -1)
    ensures next < MaxJobs && (exists j :: 0 <= j < |jobs| && !jobs[j].active) ==>
      r.id == next && r.next == next + 1 &&
      exists k :: 0 <= k < |jobs| && !jobs[k].active && (forall j :: 0 <= j < k ==> jobs[j].active) &&
        r.jobs == jobs[k := Job(pid, jobs[k].pgid, next, Trunc(cmd, CmdBytes), true, Running)]
  {
    if next >= MaxJobs then AddResult(jobs, next, -1)
    else match FirstWhere(jobs, IsFree, 0)
      case None => AddResult(jobs, next, -1)
      case Some(k) =>
        AddResult(jobs[k := Job(pid, jobs[k].pgid, next, Trunc(cmd, CmdBytes), true, Running)], next + 1, next)
  }

  lemma AddPreservesInv(jobs: seq<Job>, next: int, pid: int, cmd: seq<char>)
    requires Inv(jobs, next)
    ensures Inv(AddSpec(jobs, next, pid, cmd).jobs, AddSpec(jobs, next, pid, cmd).next)
  {
  }

  /** A registration request: the pid and the command text. */
  datatype Request = Request(pid: int, cmd: seq<char>)

  /** A run of registrations: the final result and every id returned. */
  function AddAll(jobs: seq<Job>, next: int, reqs: seq<Request>): (r: (AddResult, seq<int>))
    ensures |r.1| == |reqs|
    decreases |reqs|
  {
    if reqs == [] then (AddResult(jobs, next, 0), [])
    else
      var a := AddSpec(jobs, next, reqs[0].pid, reqs[0].cmd);
      var rest := AddAll(a.jobs, a.next, reqs[1..]);
      (rest.0, [a.id] + rest.1)
  }

  /** The ids that were granted, in order. */
  function Granted(ids: seq<int>): seq<int>
  {
    if ids == [] then [] else (if ids[0] != -1 then [ids[0]] else []) + Granted(ids[1..])
  }

  /** The consecutive ids from `a` up to (not including) `b`. */
  function Range(a: int, b: int): (r: seq<int>)
    requires a <= b
    ensures |r| == b - a && forall k :: 0 <= k < |r| ==> r[k] == a + k
    decreases b - a
  {
    if a == b then [] else [a] + Range(a + 1, b)
  }

  /** Any run of registrations grants the ids next, next+1, ... in order,
      one per success, ending with the counter just past the last id:
      ids are strictly increasing and never reused. */
  lemma {:induction false} GrantedIdsConsecutive(jobs: seq<Job>, next: int, reqs: seq<Request>)
    requires next >= 0
    ensures next <= AddAll(jobs, next, reqs).0.next
    ensures Granted(AddAll(jobs, next, reqs).1) == Range(next, AddAll(jobs, next, reqs).0.next)
    decreases |reqs|
  {
    if reqs != [] {
      var a := AddSpec(jobs, next, reqs[0].pid, reqs[0].cmd);
      GrantedIdsConsecutive(a.jobs, a.next, reqs[1..]);
      var ids := AddAll(jobs, next, reqs).1;
      assert ids[1..] == AddAll(a.jobs, a.next, reqs[1..]).1;
    }
  }

  /** From jobs_init, at most 127 registrations ever succeed, however
      slots are freed in between. */
  lemma AtMost127Granted(jobs: seq<Job>, reqs: seq<Request>)
    ensures AddAll(jobs, 1, reqs).0.next <= MaxJobs
    ensures |Granted(AddAll(jobs, 1, reqs).1)| <= MaxJobs - 1
  {
    CounterBounded(jobs, 1, reqs);
    GrantedIdsConsecutive(jobs, 1, reqs);
  }

  lemma {:induction false} CounterBounded(jobs: seq<Job>, next: int, reqs: seq<Request>)
    requires next <= MaxJobs
    ensures AddAll(jobs, next, reqs).0.next <= MaxJobs
    decreases |reqs|
  {
    if reqs != [] {
      var a := AddSpec(jobs, next, reqs[0].pid, reqs[0].cmd);
      CounterBounded(a.jobs, a.next, reqs[1..]);
    }
  }

  // ------------------------------------------------------------- reaping

  /** One reap event: only the first active slot with the event's pid is
      touched; an untracked pid is dropped. */
  function Apply(jobs: seq<Job>, ev: Event): (r: (seq<Job>, Option<Notice>))
    ensures |r.0| == |jobs|
  {
    match FirstWhere(jobs, TracksPid(ev.pid), 0)
    case None => (jobs, None)
    case Some(k) =>
      var j := jobs[k];
      match ev.status
      case StoppedNow => (jobs[k := j.(state := Stopped)], None)
      case Continued => (jobs[k := j.(state := Running)], None)
      case Exited(code) =>
        (jobs[k := j.(active := false)],
         Some(if code == 0 then ExitedNormally(j.cmd, j.pid) else ExitedAbnormally(j.cmd, j.pid)))
      case Signaled => (jobs[k := j.(active := false)], Some(KilledBySignal(j.cmd, j.pid)))
  }

  /** jobs_check over the reap loop's events, with the notices in order. */
  function Poll(jobs: seq<Job>, events: seq<Event>): (r: (seq<Job>, seq<Notice>))
    ensures |r.0| == |jobs|
    decreases |events|
  {
    if events == [] then (jobs, [])
    else
      var (jobs', n) := Apply(jobs, events[0]);
      var rest := Poll(jobs', events[1..]);
      (rest.0, (if n.Some? then [n.value] else []) + rest.1)
  }

  /** One event of the reap loop: the rest of the poll after it picks up
      where it left the slots, behind its notice. */
  lemma PollStep(before: seq<Job>, events: seq<Event>, e: nat, after: seq<Job>, n: Option<Notice>, notices: seq<Notice>)
    requires e < |events| && Apply(before, events[e]) == (after, n)
    ensures var nseq := if n.Some? then [n.value] else [];
      Poll(before, events[e..]).0 == Poll(after, events[e + 1..]).0 &&
      notices + Poll(before, events[e..]).1 == (notices + nseq) + Poll(after, events[e + 1..]).1
  {
    assert events[e..][1..] == events[e + 1..];
  }

  /** A reap event changes only the matched slot: a stop or continue
      changes its state and keeps it active, a termination deactivates it
      with exactly one notice, and an untracked pid changes nothing. */
  lemma ApplyEffect(jobs: seq<Job>, ev: Event)
    ensures var (jobs', n) := Apply(jobs, ev);
      ((forall k :: 0 <= k < |jobs| ==> !Tracks(jobs[k], ev.pid)) ==> jobs' == jobs && n.None?) &&
      (forall k :: 0 <= k < |jobs| && Tracks(jobs[k], ev.pid) && (forall i :: 0 <= i < k ==> !Tracks(jobs[i], ev.pid)) ==>
        (forall i :: 0 <= i < |jobs| && i != k ==> jobs'[i] == jobs[i]) &&
        jobs'[k].pid == jobs[k].pid && jobs'[k].id == jobs[k].id && jobs'[k].cmd == jobs[k].cmd &&
        match ev.status
        case StoppedNow => jobs'[k] == jobs[k].(state := Stopped) && n.None?
        case Continued => jobs'[k] == jobs[k].(state := Running) && n.None?
        case Exited(code) => !jobs'[k].active && jobs'[k].state == jobs[k].state &&
          n == Some(if code == 0 then ExitedNormally(jobs[k].cmd, jobs[k].pid) else ExitedAbnormally(jobs[k].cmd, jobs[k].pid))
        case Signaled => !jobs'[k].active && jobs'[k].state == jobs[k].state && n == Some(KilledBySignal(jobs[k].cmd, jobs[k].pid)))
  {
    var f := FirstWhere(jobs, TracksPid(ev.pid), 0);
    assert forall j :: TracksPid(ev.pid)(j) == Tracks(j, ev.pid);
  }

  lemma ApplyPreservesInv(jobs: seq<Job>, next: int, ev: Event)
    requires Inv(jobs, next)
    ensures Inv(Apply(jobs, ev).0, next)
  {
  }

  lemma {:induction false} PollPreservesInv(jobs: seq<Job>, next: int, events: seq<Event>)
    requires Inv(jobs, next)
    ensures Inv(Poll(jobs, events).0, next)
    decreases |events|
  {
    if events != [] {
      ApplyPreservesInv(jobs, next, events[0]);
      PollPreservesInv(Apply(jobs, events[0]).0, next, events[1..]);
    }
  }

  /** The pgid field: no operation on the table writes it. */
  function Pgids(jobs: seq<Job>): (r: seq<int>)
    ensures |r| == |jobs| && forall k :: 0 <= k < |jobs| ==> r[k] == jobs[k].pgid
  {
    seq(|jobs|, k requires 0 <= k < |jobs| => jobs[k].pgid)
  }

  lemma {:induction false} PollKeepsPgids(jobs: seq<Job>, events: seq<Event>)
    ensures Pgids(Poll(jobs, events).0) == Pgids(jobs)
    decreases |events|
  {
    if events != [] {
      var jobs' := Apply(jobs, events[0]).0;
      assert Pgids(jobs') == Pgids(jobs);
      PollKeepsPgids(jobs', events[1..]);
    }
  }

  lemma AddKeepsPgids(jobs: seq<Job>, next: int, pid: int, cmd: seq<char>)
    ensures Pgids(AddSpec(jobs, next, pid, cmd).jobs) == Pgids(jobs)
  {
  }

  // ------------------------------------------------------------ the table

  /** The job part of the shell state: `jobs[]` and `next_job_id`. */
  class JobTable {
    const slots: array<Job>
    var nextId: int

    predicate Valid()
      reads this
    {
      slots.Length == MaxJobs
    }

    constructor ()
      ensures Valid() && fresh(slots) && nextId == 0
      ensures forall k :: 0 <= k < MaxJobs ==> slots[k] == Job(0, 0, 0, [], false, NoState)
    {
      slots := new Job[MaxJobs](_ => Job(0, 0, 0, [], false, NoState));
      nextId := 0;
    }

    /** jobs_init. */
    method Init()
      requires Valid()
      modifies this, slots
      ensures Valid() && nextId == 1
      ensures forall k :: 0 <= k < MaxJobs ==> slots[k] == Cleared(old(slots[k]))
    {
      for i := 0 to MaxJobs
        invariant forall k :: 0 <= k < i ==> slots[k] == Cleared(old(slots[k]))
        invariant forall k :: i <= k < MaxJobs ==> slots[k] == old(slots[k])
      {
        slots[i] := slots[i].(active := false);
      }
      nextId := 1;
    }

    /** The search loop: the index of the first slot satisfying `p`, or
        -1. */
    method Find(p: Job -> bool) returns (idx: int)
      requires Valid()
      ensures -1 <= idx < MaxJobs
      ensures idx == -1 <==> FirstWhere(slots[..], p, 0).None?
      ensures idx != -1 ==> FirstWhere(slots[..], p, 0) == Some(idx as nat)
    {
      var i := 0;
      while i < MaxJobs
        invariant 0 <= i <= MaxJobs
        invariant FirstWhere(slots[..], p, 0) == FirstWhere(slots[..], p, i)
      {
        if p(slots[i]) {
          return i;
        }
        i := i + 1;
      }
      return -1;
    }

    /** jobs_add. */
    method Add(pid: int, cmd: seq<char>) returns (id: int)
      requires Valid()
      modifies this, slots
      ensures Valid()
      ensures AddSpec(old(slots[..]), old(nextId), pid, cmd) == AddResult(slots[..], nextId, id)
    {
      if nextId >= MaxJobs {
        return -1;
      }
      var k := Find(IsFree);
      if k == -1 {
        return -1;
      }
      slots[k] := Job(pid, slots[k].pgid, nextId, Trunc(cmd, CmdBytes), true, Running);
      id := nextId;
      nextId := nextId + 1;
    }

    /** The body of the reap loop for one event. */
    method ApplyEvent(ev: Event) returns (n: Option<Notice>)
      requires Valid()
      modifies slots
      ensures Apply(old(slots[..]), ev) == (slots[..], n)
    {
      n := None;
      var idx := Find(TracksPid(ev.pid));
      if idx != -1 {
        var j := slots[idx];
        match ev.status {
          case StoppedNow =>
            slots[idx] := j.(state := Stopped);
          case Continued =>
            slots[idx] := j.(state := Running);
          case Exited(code) =>
            n := Some(if code == 0 then ExitedNormally(j.cmd, j.pid) else ExitedAbnormally(j.cmd, j.pid));
            slots[idx] := j.(active := false);
          case Signaled =>
            n := Some(KilledBySignal(j.cmd, j.pid));
            slots[idx] := j.(active := false);
        }
      }
    }

    /** jobs_check: applies each reap event in turn. */
    method Check(events: seq<Event>) returns (notices: seq<Notice>)
      requires Valid()
      modifies slots
      ensures Poll(old(slots[..]), events) == (slots[..], notices)
    {
      notices := [];
      var e := 0;
      assert events[0..] == events;
      assert [] + Poll(slots[..], events).1 == Poll(slots[..], events).1;
      while e < |events|
        invariant 0 <= e <= |events|
        invariant Poll(old(slots[..]), events).0 == Poll(slots[..], events[e..]).0
        invariant Poll(old(slots[..]), events).1 == notices + Poll(slots[..], events[e..]).1
      {
        ghost var before := slots[..];
        var n := ApplyEvent(events[e]);
        var nseq := if n.Some? then [n.value] else [];
        PollStep(before, events, e, slots[..], n, notices);
        notices := notices + nseq;
        e := e + 1;
      }
      assert events[e..] == [];
      assert notices + [] == notices;
    }
  }
}
