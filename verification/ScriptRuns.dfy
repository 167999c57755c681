/** Runs of the script scheduler, and the scheduler in place. */
module ScriptRuns {
  import opened Scripts

  /** What happens to the scheduler. A child that has ended is looked up by its own number if `own`, and by
      the number one otherwise: the code assigns the outcome of a comparison to the number it looks up. */
  datatype Event =
    | Schedule(script: string)
    | RunPending(now: nat, forks: seq<int>)
    | Terminated(e: Ended, now: nat)

  function LookedUp(e: Ended, own: bool): Ended { if own then e else e.(pid := 1) }

  ghost predicate Enabled(s: Scheduler, e: Event) {
    match e
    case Schedule(_) => true
    case RunPending(now, forks) => ForksRight(s, 0, now, forks) && forall i :: 0 <= i < |forks| ==> forks[i] != 1
    case Terminated(ended, _) => ended.pid > 0
  }

  function Next(s: Scheduler, e: Event, own: bool): Scheduler {
    match e
    case Schedule(script) => s.Schedule(script)
    case RunPending(now, forks) => s.RunFrom(0, now, forks)
    case Terminated(ended, now) => s.Collect(LookedUp(ended, own), now)
  }

  ghost predicate RunOf(states: seq<Scheduler>, events: seq<Event>, own: bool) {
    && |states| == |events| + 1 && states[0] == EMPTY
    && forall i :: 0 <= i < |events| ==> StepsTo(states[i], events[i], states[i + 1], own)
  }

  ghost predicate StepsTo(s: Scheduler, e: Event, t: Scheduler, own: bool) { Enabled(s, e) && t == Next(s, e, own) }

  lemma NextKeeps(s: Scheduler, e: Event, own: bool)
    requires s.Valid() && Enabled(s, e)
    ensures Next(s, e, own).Valid()
  {
    hide Running, Scheduler.Valid;
    match e
    case Schedule(script) => ScheduleKeeps(s, script);
    case RunPending(now, forks) => RunKeeps(s, 0, now, forks);
    case Terminated(ended, now) => CollectKeeps(s, LookedUp(ended, own), now);
  }

  lemma {:induction false} AlwaysValid(states: seq<Scheduler>, events: seq<Event>, own: bool, i: nat)
    requires RunOf(states, events, own) && i < |states|
    ensures states[i].Valid()
    decreases i
  {
    hide Running, Scheduler.Valid, Next, Enabled;
    if i == 0 {
      assert EMPTY.Valid() by { EmptyValid(); }
    } else {
      AlwaysValid(states, events, own, i - 1);
      assert StepsTo(states[i - 1], events[i - 1], states[i], own);
      NextKeeps(states[i - 1], events[i - 1], own);
    }
  }

  lemma EmptyValid()
    ensures EMPTY.Valid()
  {
  }

  /** In every state of every run: the queue has at most 256 jobs, at most 16 run, no job was started more
      than ten times, and the count of running scripts is right exactly as long as no retry was arranged. */
  lemma SchedulerBounds(states: seq<Scheduler>, events: seq<Event>, own: bool, i: nat)
    requires RunOf(states, events, own) && i < |states|
    ensures var s := states[i];
            && |s.queue| <= MAX_QUEUE && Running(s.queue) <= s.runningScripts <= MAX_RUNNING
            && (forall j :: 0 <= j < |s.queue| ==> s.queue[j].starts <= MAX_RETRY)
            && (s.runningScripts == Running(s.queue) <==> s.rescheduled == 0)
            && s.rescheduled <= MAX_RUNNING
  {
    hide Running;
    AlwaysValid(states, events, own, i);
    forall j | 0 <= j < |states[i].queue| ensures states[i].queue[j].starts <= MAX_RETRY {
      assert JobRight(states[i].queue[j]);
    }
  }

  // --- where it stops --------------------------------------------------------------------------------------------

  /** A job that could be started. */
  predicate Due(s: Scheduler, j: nat, now: nat) { j < |s.queue| && !s.queue[j].running && s.queue[j].startTime <= now }

  /** Attempts only ever add up. */
  lemma {:induction false} AttemptsStay(s: Scheduler, i: nat, now: nat, forks: seq<int>, j: nat)
    requires i <= |s.queue| && j < |s.queue|
    ensures s.RunFrom(i, now, forks).queue[j].retryCount >= s.queue[j].retryCount
    decreases |s.queue| - i
  {
    if i == |s.queue| || s.runningScripts >= MAX_RUNNING {
    } else if s.queue[i].running || s.queue[i].startTime > now {
      AttemptsStay(s, i + 1, now, forks, j);
    } else {
      var fork := if forks == [] then -1 else forks[0];
      AttemptsStay(s.Attempt(i, now, fork), i + 1, now, if forks == [] then [] else forks[1..], j);
    }
  }

  /** While there is a place, the first due job is attempted. */
  lemma {:induction false} DueAttempted(s: Scheduler, i: nat, now: nat, forks: seq<int>, j: nat)
    requires i <= j && Due(s, j, now) && s.runningScripts < MAX_RUNNING
    ensures exists k :: i <= k <= j && s.RunFrom(i, now, forks).queue[k] != s.queue[k]
    decreases |s.queue| - i
  {
    if s.queue[i].running || s.queue[i].startTime > now {
      DueAttempted(s, i + 1, now, forks, j);
    } else {
      var fork := if forks == [] then -1 else forks[0];
      var t := s.Attempt(i, now, fork);
      AttemptsStay(t, i + 1, now, if forks == [] then [] else forks[1..], i);
      assert s.RunFrom(i, now, forks).queue[i].retryCount > s.queue[i].retryCount;
    }
  }

  /** With a job due, a run through the queue attempts something exactly when the running jobs and the retries
      arranged so far are fewer than sixteen. */
  lemma AttemptedExactly(s: Scheduler, now: nat, forks: seq<int>, j: nat)
    requires s.Valid() && Due(s, j, now)
    ensures s.RunFrom(0, now, forks).queue != s.queue <==> Running(s.queue) + s.rescheduled < MAX_RUNNING
  {
    hide Running, Due;
    if s.runningScripts < MAX_RUNNING { DueAttempted(s, 0, now, forks, j); }
  }

  /** Every retry that is arranged uses up a place for good. After sixteen of them no script runs, and the next
      step starts none ... */
  lemma SixteenRetriesStop(s: Scheduler, e: Event, own: bool)
    requires s.Valid() && Enabled(s, e) && s.rescheduled == MAX_RUNNING
    ensures Running(s.queue) == 0
    ensures var t := Next(s, e, own); t.rescheduled == MAX_RUNNING && t.started == s.started
  {
    NextKeeps(s, e, own);
    if e.Terminated? { NoneToCollect(s, LookedUp(e.e, own)); }
  }

  /** ... nor does any later one: once sixteen retries were arranged, no script is ever started again. */
  lemma {:induction false} StoppedForGood(states: seq<Scheduler>, events: seq<Event>, own: bool, i: nat, j: nat)
    requires RunOf(states, events, own) && i <= j < |states| && states[i].rescheduled == MAX_RUNNING
    ensures states[j].rescheduled == MAX_RUNNING
    ensures Running(states[j].queue) == 0 && states[j].started == states[i].started
    decreases j - i
  {
    hide Running, Next, Enabled, Scheduler.Valid;
    AlwaysValid(states, events, own, j);
    if i < j {
      StoppedForGood(states, events, own, i, j - 1);
      AlwaysValid(states, events, own, j - 1);
      assert StepsTo(states[j - 1], events[j - 1], states[j], own);
      SixteenRetriesStop(states[j - 1], events[j - 1], own);
    }
    NoneRuns(states[j]);
  }

  lemma NoneRuns(s: Scheduler)
    requires s.Valid() && s.rescheduled == MAX_RUNNING
    ensures Running(s.queue) == 0
  {
  }

  lemma NoneToCollect(s: Scheduler, e: Ended)
    requires Running(s.queue) == 0
    ensures ByPid(s.queue, e.pid, 0) == |s.queue|
  {
    var i := ByPid(s.queue, e.pid, 0);
    if i < |s.queue| { RunningAt(s.queue, i, s.queue[i].(running := false)); }
  }

  /** Nothing that was started has the number one. */
  ghost predicate NoOne(s: Scheduler) { forall i :: 0 <= i < |s.queue| ==> s.queue[i].pid != 1 }

  lemma {:induction false} RunNoOne(s: Scheduler, i: nat, now: nat, forks: seq<int>)
    requires NoOne(s) && i <= |s.queue| && s.started == s.runningScripts
    requires forall j :: 0 <= j < |forks| ==> forks[j] != 1
    ensures var t := s.RunFrom(i, now, forks); NoOne(t) && t.started == t.runningScripts
    decreases |s.queue| - i
  {
    if i == |s.queue| || s.runningScripts >= MAX_RUNNING {
    } else if s.queue[i].running || s.queue[i].startTime > now {
      RunNoOne(s, i + 1, now, forks);
    } else {
      var fork := if forks == [] then -1 else forks[0];
      RunNoOne(s.Attempt(i, now, fork), i + 1, now, if forks == [] then [] else forks[1..]);
    }
  }

  lemma NextNoOne(s: Scheduler, e: Event)
    requires s.Valid() && NoOne(s) && Enabled(s, e) && s.started == s.runningScripts
    ensures var t := Next(s, e, false); NoOne(t) && t.started == t.runningScripts
    ensures e.Terminated? ==> Next(s, e, false) == s
  {
    hide Running, Scheduler.Valid;
    match e
    case Schedule(script) =>
      var q := s.queue + [Fresh(script)];
      var i := FirstIdle(q, 0);
      assert forall j :: 0 <= j < |q| ==> q[j].pid != 1;
    case RunPending(now, forks) => RunNoOne(s, 0, now, forks);
    case Terminated(ended, now) => assert ByPid(s.queue, 1, 0) == |s.queue|;
  }

  /** What holds as long as nothing is collected. */
  ghost predicate Uncollected(s: Scheduler) { NoOne(s) && s.started == s.runningScripts && s.rescheduled == 0 }

  lemma NextUncollected(s: Scheduler, e: Event)
    requires s.Valid() && Enabled(s, e) && Uncollected(s)
    ensures Uncollected(Next(s, e, false))
  {
    hide Running, Next, Enabled, Scheduler.Valid, NoOne;
    NextNoOne(s, e);
    if !e.Terminated? { RetriesOnlyCollected(s, e); }
  }

  /** As the code is written, a child that has ended is never found: its job stays in the queue as running, no
      retry is ever arranged, and no more than sixteen scripts are started in all. */
  lemma {:induction false} WrittenStopsAtSixteen(states: seq<Scheduler>, events: seq<Event>, i: nat)
    requires RunOf(states, events, false) && i < |states|
    ensures Uncollected(states[i]) && states[i].started <= MAX_RUNNING
    decreases i
  {
    hide Running, Next, Enabled, Uncollected, Scheduler.Valid;
    AlwaysValid(states, events, false, i);
    if i == 0 {
      EmptyUncollected();
    } else {
      AlwaysValid(states, events, false, i - 1);
      WrittenStopsAtSixteen(states, events, i - 1);
      assert StepsTo(states[i - 1], events[i - 1], states[i], false);
      NextUncollected(states[i - 1], events[i - 1]);
    }
    FewStarted(states[i]);
  }

  lemma EmptyUncollected()
    ensures Uncollected(EMPTY)
  {
  }

  lemma FewStarted(s: Scheduler)
    requires s.Valid() && Uncollected(s)
    ensures s.started <= MAX_RUNNING
  {
  }

  lemma RetriesOnlyCollected(s: Scheduler, e: Event)
    requires !e.Terminated?
    ensures Next(s, e, false).rescheduled == s.rescheduled
  {
    if e.RunPending? { RunSameRetries(s, 0, e.now, e.forks); }
  }

  lemma {:induction false} RunSameRetries(s: Scheduler, i: nat, now: nat, forks: seq<int>)
    requires i <= |s.queue|
    ensures s.RunFrom(i, now, forks).rescheduled == s.rescheduled
    decreases |s.queue| - i
  {
    if i == |s.queue| || s.runningScripts >= MAX_RUNNING {
    } else if s.queue[i].running || s.queue[i].startTime > now {
      RunSameRetries(s, i + 1, now, forks);
    } else {
      var fork := if forks == [] then -1 else forks[0];
      RunSameRetries(s.Attempt(i, now, fork), i + 1, now, if forks == [] then [] else forks[1..]);
    }
  }

  // --- in place --------------------------------------------------------------------------------------------------

  class ScriptQueue {
    var scriptsQueue: seq<Job>
    var runningScripts: int
    ghost var started: nat
    ghost var rescheduled: nat

    ghost function State(): Scheduler
      reads this
    {
      Scheduler(scriptsQueue, runningScripts, started, rescheduled)
    }

    constructor ()
      ensures State() == EMPTY && State().Valid()
    {
      scriptsQueue, runningScripts, started, rescheduled := [], 0, 0, 0;
    }

    method ScheduleScriptExecution(script: string)
      requires State().Valid()
      modifies this
      ensures State() == old(State()).Schedule(script) && State().Valid()
    {
      hide Running, FirstIdle, Scheduler.Valid;
      ScheduleKeeps(State(), script);
      scriptsQueue := scriptsQueue + [Fresh(script)];
      if |scriptsQueue| > MAX_QUEUE {
        for i := 0 to |scriptsQueue|
          invariant forall j :: 0 <= j < i ==> scriptsQueue[j].running
          invariant scriptsQueue == old(scriptsQueue) + [Fresh(script)]
          invariant State() == old(State()).(queue := scriptsQueue)
        {
          if scriptsQueue[i].running {
            continue;
          }
          assert i == FirstIdle(scriptsQueue, 0);
          scriptsQueue := scriptsQueue[..i] + scriptsQueue[i + 1..];
          return;
        }
      }
    }

    method GetScriptListNodeByPid(pid: int) returns (i: nat)
      ensures i == ByPid(scriptsQueue, pid, 0)
    {
      i := 0;
      while i < |scriptsQueue|
        invariant i <= |scriptsQueue| && ByPid(scriptsQueue, pid, 0) == ByPid(scriptsQueue, pid, i)
      {
        if scriptsQueue[i].running && scriptsQueue[i].pid == pid {
          return;
        }
        i := i + 1;
      }
    }

    method RunPendingScripts(now: nat, forks: seq<int>)
      requires State().Valid() && ForksRight(State(), 0, now, forks)
      modifies this
      ensures State() == old(State()).RunFrom(0, now, forks) && State().Valid()
    {
      hide Running, Scheduler.Valid;
      RunKeeps(State(), 0, now, forks);
      var left := forks;
      for i := 0 to |scriptsQueue|
        invariant |scriptsQueue| == old(|scriptsQueue|)
        invariant State().RunFrom(i, now, left) == old(State()).RunFrom(0, now, forks)
      {
        if runningScripts >= MAX_RUNNING {
          return;
        }
        if scriptsQueue[i].running {
          continue;
        }
        if scriptsQueue[i].startTime > now {
          continue;
        }
        var fork := if left == [] then -1 else left[0];
        left := if left == [] then [] else left[1..];
        StartScript(i, now, fork);
      }
    }

    method StartScript(i: nat, now: nat, fork: int)
      requires i < |scriptsQueue| && !scriptsQueue[i].running
      modifies this
      ensures State() == old(State()).Attempt(i, now, fork)
    {
      ghost var job := scriptsQueue[i];
      var item := scriptsQueue[i].(running := true);
      item := item.(startTime := now);
      item := item.(retryCount := item.retryCount + 1);
      if fork == -1 {
        item := item.(running := false);
        item := item.(pid := 0);
      } else {
        runningScripts := runningScripts + 1;
        item := item.(pid := fork, starts := item.starts + 1);
        started := started + 1;
      }
      scriptsQueue := scriptsQueue[i := item];
    }

    method DeleteScriptJob(pid: int)
      modifies `scriptsQueue, `runningScripts
      ensures State() == old(State()).DeleteJob(pid)
    {
      hide FirstPid;
      ghost var q := scriptsQueue;
      for i := 0 to |scriptsQueue|
        invariant scriptsQueue == q && forall j :: 0 <= j < i ==> q[j].pid != pid
      {
        if scriptsQueue[i].pid == pid {
          assert i == FirstPid(q, pid, 0);
          scriptsQueue := scriptsQueue[..i] + scriptsQueue[i + 1..];
          break;
        }
      }
      runningScripts := runningScripts - 1;
    }

    /** One child that has ended. */
    method CollectTerminated(e: Ended, now: nat)
      requires State().Valid() && e.pid > 0
      modifies this
      ensures State() == old(State()).Collect(e, now) && State().Valid()
    {
      hide Running, Scheduler.Valid, Scheduler.DeleteJob, ByPid;
      CollectKeeps(State(), e, now);
      var i := GetScriptListNodeByPid(e.pid);
      if i == |scriptsQueue| {
        return;
      }
      var job := scriptsQueue[i];
      if (e.bysignal != 0 || e.exitcode == 1) && job.retryCount < MAX_RETRY {
        var delay := RetryDelayLoop(job.retryCount);
        scriptsQueue := scriptsQueue[i := job.(running := false, pid := 0, startTime := now + delay)];
        rescheduled := rescheduled + 1;
      } else {
        DeleteScriptJob(e.pid);
      }
    }
  }
}
