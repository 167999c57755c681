/** The script scheduler: a bounded queue of jobs, a bounded number of running ones, and retries. */
module Scripts {
  import Words

  const MAX_QUEUE: nat := 256
  const MAX_RUNNING: nat := 16
  const MAX_RETRY: nat := 10
  const RETRY_DELAY: nat := 30000

  /** `starts` is the number of times a process was made for the job. */
  datatype Job = Job(script: string, running: bool, retryCount: nat, startTime: nat, pid: int, starts: nat)

  function Fresh(script: string): Job { Job(script, false, 0, 0, 0, 0) }

  /** The delay doubles with every attempt after the first. */
  function RetryDelay(retryCount: nat): nat { RETRY_DELAY * Words.Pow2(if retryCount > 1 then retryCount - 1 else 0) }

  method RetryDelayLoop(retryCount: nat) returns (delay: nat)
    ensures delay == RetryDelay(retryCount)
  {
    delay := RETRY_DELAY;
    var count: int := retryCount - 1;
    while count > 0
      invariant delay * Words.Pow2(if count > 0 then count else 0) == RetryDelay(retryCount)
      invariant count <= 0 ==> delay == RetryDelay(retryCount)
    {
      delay := delay * 2;
      count := count - 1;
    }
  }

  /** No retry waits longer than 128 minutes. */
  lemma DelayBound(retryCount: nat)
    requires retryCount < MAX_RETRY
    ensures RETRY_DELAY <= RetryDelay(retryCount) <= 7680000
  {
    Pow2Rises(if retryCount > 1 then retryCount - 1 else 0, 8);
    assert Words.Pow2(8) == 256;
  }

  lemma {:induction false} Pow2Rises(m: nat, n: nat)
    requires m <= n
    ensures Words.Pow2(m) <= Words.Pow2(n)
  {
    if m < n { Pow2Rises(m, n - 1); }
  }

  function Running(queue: seq<Job>): (n: nat)
    ensures n <= |queue|
  {
    if queue == [] then 0 else (if queue[0].running then 1 else 0) + Running(queue[1..])
  }

  lemma {:induction false} RunningSplits(a: seq<Job>, b: seq<Job>)
    ensures Running(a + b) == Running(a) + Running(b)
  {
    if a == [] {
      assert a + b == b;
    } else {
      assert (a + b)[1..] == a[1..] + b;
      RunningSplits(a[1..], b);
    }
  }

  lemma RunningAt(queue: seq<Job>, i: nat, job: Job)
    requires i < |queue|
    ensures Running(queue[i := job]) ==
            Running(queue) - (if queue[i].running then 1 else 0) + (if job.running then 1 else 0)
    ensures Running(queue[..i] + queue[i + 1..]) == Running(queue) - if queue[i].running then 1 else 0
  {
    assert queue == queue[..i] + ([queue[i]] + queue[i + 1..]);
    assert queue[i := job] == queue[..i] + ([job] + queue[i + 1..]);
    RunningSplits(queue[..i], [queue[i]] + queue[i + 1..]);
    RunningSplits([queue[i]], queue[i + 1..]);
    RunningSplits(queue[..i], [job] + queue[i + 1..]);
    RunningSplits([job], queue[i + 1..]);
    RunningSplits(queue[..i], queue[i + 1..]);
    assert Running([job]) == if job.running then 1 else 0;
    assert Running([queue[i]]) == if queue[i].running then 1 else 0;
  }

  /** The first job that is not running; the length of the queue if all are. */
  function FirstIdle(queue: seq<Job>, i: nat): (r: nat)
    requires i <= |queue|
    ensures i <= r <= |queue| && (r < |queue| ==> !queue[r].running) && forall j :: i <= j < r ==> queue[j].running
    decreases |queue| - i
  {
    if i == |queue| || !queue[i].running then i else FirstIdle(queue, i + 1)
  }

  lemma {:induction false} AllRunning(queue: seq<Job>)
    requires forall j :: 0 <= j < |queue| ==> queue[j].running
    ensures Running(queue) == |queue|
  {
    if queue != [] { AllRunning(queue[1..]); }
  }

  /** The running job of a process, and the first job with a process number. */
  function ByPid(queue: seq<Job>, pid: int, i: nat): (r: nat)
    requires i <= |queue|
    ensures i <= r <= |queue| && (r < |queue| ==> queue[r].running && queue[r].pid == pid)
    ensures forall j :: i <= j < r ==> !(queue[j].running && queue[j].pid == pid)
    decreases |queue| - i
  {
    if i == |queue| || (queue[i].running && queue[i].pid == pid) then i else ByPid(queue, pid, i + 1)
  }

  function FirstPid(queue: seq<Job>, pid: int, i: nat): (r: nat)
    requires i <= |queue|
    ensures i <= r <= |queue| && (r < |queue| ==> queue[r].pid == pid) && forall j :: i <= j < r ==> queue[j].pid != pid
    decreases |queue| - i
  {
    if i == |queue| || queue[i].pid == pid then i else FirstPid(queue, pid, i + 1)
  }

  /** A child that has ended: its process number, the signal that ended it, and its exit code. */
  datatype Ended = Ended(pid: int, bysignal: int, exitcode: int)

  predicate JobRight(job: Job) {
    && job.starts <= job.retryCount
    && (if job.running then job.pid > 0 && 0 < job.starts <= MAX_RETRY else job.pid == 0 && job.starts < MAX_RETRY)
  }

  /** `rescheduled` counts the retries that were arranged, `started` the processes that were made. */
  datatype Scheduler = Scheduler(queue: seq<Job>, runningScripts: int, started: nat, rescheduled: nat) {

    /** A new job; when the queue is too long the first one that is not running goes. */
    function Schedule(script: string): Scheduler {
      var q := queue + [Fresh(script)];
      var i := FirstIdle(q, 0);
      this.(queue := if |q| > MAX_QUEUE && i < |q| then q[..i] + q[i + 1..] else q)
    }

    /** One attempt to start the job at a place. */
    function Attempt(i: nat, now: nat, fork: int): Scheduler
      requires i < |queue|
    {
      var job := queue[i].(startTime := now, retryCount := queue[i].retryCount + 1);
      if fork == -1 then this.(queue := queue[i := job.(running := false, pid := 0)])
      else this.(queue := queue[i := job.(running := true, pid := fork, starts := job.starts + 1)],
                 runningScripts := runningScripts + 1, started := started + 1)
    }

    /** The jobs from a place on; `forks` says what each attempt gets. */
    function RunFrom(i: nat, now: nat, forks: seq<int>): (s: Scheduler)
      requires i <= |queue|
      ensures |s.queue| == |queue|
      decreases |queue| - i
    {
      if i == |queue| || runningScripts >= MAX_RUNNING then this
      else if queue[i].running || queue[i].startTime > now then RunFrom(i + 1, now, forks)
      else
        var fork := if forks == [] then -1 else forks[0];
        Attempt(i, now, fork).RunFrom(i + 1, now, if forks == [] then [] else forks[1..])
    }

    /** Take the first job with a process number out, and one off the count of running scripts. */
    function DeleteJob(pid: int): Scheduler {
      var i := FirstPid(queue, pid, 0);
      this.(queue := if i < |queue| then queue[..i] + queue[i + 1..] else queue, runningScripts := runningScripts - 1)
    }

    /** A job whose script was killed or asked to be run again is arranged for later, up to a limit; any other
        goes. */
    function Collect(e: Ended, now: nat): Scheduler {
      var i := ByPid(queue, e.pid, 0);
      if i == |queue| then this
      else if (e.bysignal != 0 || e.exitcode == 1) && queue[i].retryCount < MAX_RETRY then
        var job := queue[i].(running := false, pid := 0, startTime := now + RetryDelay(queue[i].retryCount));
        this.(queue := queue[i := job], rescheduled := rescheduled + 1)
      else DeleteJob(e.pid)
    }

    // --- what always holds ---------------------------------------------------------------------------------------

    ghost predicate PidsDistinct() {
      forall i, j :: 0 <= i < j < |queue| && queue[i].running && queue[j].running ==> queue[i].pid != queue[j].pid
    }

    /** The count of running scripts is ahead of the jobs that run by one for every retry arranged. */
    ghost predicate Valid() {
      && |queue| <= MAX_QUEUE
      && Running(queue) + rescheduled == runningScripts <= MAX_RUNNING
      && (forall i :: 0 <= i < |queue| ==> JobRight(queue[i]))
      && PidsDistinct()
    }
  }

  const EMPTY: Scheduler := Scheduler([], 0, 0, 0)

  lemma SomeIdle(s: Scheduler, script: string)
    requires s.Valid() && |s.queue| == MAX_QUEUE
    ensures FirstIdle(s.queue + [Fresh(script)], 0) < |s.queue|
  {
    hide Running;
    var q := s.queue + [Fresh(script)];
    if FirstIdle(q, 0) >= |s.queue| {
      forall j | 0 <= j < |s.queue| ensures s.queue[j].running { assert q[j].running; }
      AllRunning(s.queue);
    }
  }

  /** One more job at the end. */
  lemma PushKeeps(s: Scheduler, job: Job)
    requires s.Valid() && !job.running && JobRight(job)
    ensures var q := s.queue + [job];
            && Running(q) == Running(s.queue) && (forall i :: 0 <= i < |q| ==> JobRight(q[i]))
               && s.(queue := q).PidsDistinct()
  {
    hide Running;
    RunningSplits(s.queue, [job]);
    NoneRuns(job);
  }

  /** One job less. */
  lemma EraseKeeps(s: Scheduler, i: nat)
    requires i < |s.queue| && (forall j :: 0 <= j < |s.queue| ==> JobRight(s.queue[j])) && s.PidsDistinct()
    ensures var q := s.queue[..i] + s.queue[i + 1..];
            && Running(q) == Running(s.queue) - (if s.queue[i].running then 1 else 0)
            && (forall j :: 0 <= j < |q| ==> JobRight(q[j])) && s.(queue := q).PidsDistinct()
  {
    hide Running, JobRight;
    RunningAt(s.queue, i, s.queue[i]);
  }

  /** A queue that is full makes room by dropping a job that is not running; there always is one, and the new
      job stays. */
  lemma ScheduleKeeps(s: Scheduler, script: string)
    requires s.Valid()
    ensures s.Schedule(script).Valid()
    ensures |s.queue| == MAX_QUEUE ==>
            |s.Schedule(script).queue| == MAX_QUEUE && Fresh(script) in s.Schedule(script).queue
    ensures |s.queue| < MAX_QUEUE ==> s.Schedule(script).queue == s.queue + [Fresh(script)]
  {
    hide Running, FirstIdle, JobRight, Scheduler.PidsDistinct;
    var q := s.queue + [Fresh(script)];
    assert JobRight(Fresh(script)) by { FreshRight(script); }
    PushKeeps(s, Fresh(script));
    if |q| > MAX_QUEUE {
      SomeIdle(s, script);
      var i := FirstIdle(q, 0);
      EraseKeeps(s.(queue := q), i);
      assert (q[..i] + q[i + 1..])[|q| - 2] == Fresh(script);
    }
  }

  lemma FreshRight(script: string)
    ensures JobRight(Fresh(script))
  {
  }

  lemma NoneRuns(job: Job)
    requires !job.running
    ensures Running([job]) == 0
  {
  }

  /** The operating system gives a process number that no unfinished child has. */
  predicate NewPid(s: Scheduler, fork: int) {
    fork > 0 && forall i :: 0 <= i < |s.queue| && s.queue[i].running ==> s.queue[i].pid != fork
  }

  lemma AttemptKeeps(s: Scheduler, i: nat, now: nat, fork: int)
    requires s.Valid() && i < |s.queue| && !s.queue[i].running && s.runningScripts < MAX_RUNNING
    requires fork == -1 || NewPid(s, fork)
    ensures s.Attempt(i, now, fork).Valid()
  {
    hide Running;
    RunningAt(s.queue, i, s.Attempt(i, now, fork).queue[i]);
  }

  /** The answers of `fork` over a run through the queue, each new at its time. */
  ghost predicate ForksRight(s: Scheduler, i: nat, now: nat, forks: seq<int>)
    requires i <= |s.queue|
    decreases |s.queue| - i
  {
    if i == |s.queue| || s.runningScripts >= MAX_RUNNING then true
    else if s.queue[i].running || s.queue[i].startTime > now then ForksRight(s, i + 1, now, forks)
    else
      var fork := if forks == [] then -1 else forks[0];
      (fork == -1 || NewPid(s, fork)) &&
      ForksRight(s.Attempt(i, now, fork), i + 1, now, if forks == [] then [] else forks[1..])
  }

  lemma {:induction false} RunKeeps(s: Scheduler, i: nat, now: nat, forks: seq<int>)
    requires s.Valid() && i <= |s.queue| && ForksRight(s, i, now, forks)
    ensures s.RunFrom(i, now, forks).Valid()
    decreases |s.queue| - i
  {
    hide Running, Scheduler.Valid;
    if i == |s.queue| || s.runningScripts >= MAX_RUNNING {
    } else if s.queue[i].running || s.queue[i].startTime > now {
      RunKeeps(s, i + 1, now, forks);
    } else {
      var fork := if forks == [] then -1 else forks[0];
      AttemptKeeps(s, i, now, fork);
      RunKeeps(s.Attempt(i, now, fork), i + 1, now, if forks == [] then [] else forks[1..]);
    }
  }

  lemma CollectKeeps(s: Scheduler, e: Ended, now: nat)
    requires s.Valid() && e.pid > 0
    ensures s.Collect(e, now).Valid()
    ensures s.Collect(e, now).rescheduled == s.rescheduled ==>
              s.runningScripts - s.Collect(e, now).runningScripts == Running(s.queue) - Running(s.Collect(e, now).queue)
  {
    hide Running;
    var i := ByPid(s.queue, e.pid, 0);
    if i < |s.queue| {
      RunningAt(s.queue, i, s.queue[i].(running := false));
      RunningAt(s.queue, i,
          s.queue[i].(running := false, pid := 0, startTime := now + RetryDelay(s.queue[i].retryCount)));
      SameJob(s, e.pid);
    }
  }

  /** Only running jobs have a process number, so that both searches find the same job. */
  lemma SameJob(s: Scheduler, pid: int)
    requires s.Valid() && pid > 0
    ensures FirstPid(s.queue, pid, 0) == ByPid(s.queue, pid, 0)
  {
    hide Running;
    var i, j := FirstPid(s.queue, pid, 0), ByPid(s.queue, pid, 0);
    if i < |s.queue| { assert JobRight(s.queue[i]); }
    if j < |s.queue| { assert JobRight(s.queue[j]); }
  }

  // --- when a job is started -------------------------------------------------------------------------------------

  /** A job that runs, or whose time has not come, is left alone. */
  lemma {:induction false} NotStartedEarly(s: Scheduler, i: nat, now: nat, forks: seq<int>, j: nat)
    requires i <= |s.queue| && j < |s.queue| && (s.queue[j].running || s.queue[j].startTime > now)
    ensures s.RunFrom(i, now, forks).queue[j] == s.queue[j]
    decreases |s.queue| - i
  {
    if i == |s.queue| || s.runningScripts >= MAX_RUNNING {
    } else if s.queue[i].running || s.queue[i].startTime > now {
      NotStartedEarly(s, i + 1, now, forks, j);
    } else {
      var fork := if forks == [] then -1 else forks[0];
      NotStartedEarly(s.Attempt(i, now, fork), i + 1, now, if forks == [] then [] else forks[1..], j);
    }
  }

  /** A retry is arranged exactly for a script that was killed or asked for one, up to nine times, and is not
      started before its delay is over, whatever else runs meanwhile. */
  lemma RetryWaits(s: Scheduler, e: Ended, now: nat, later: nat, forks: seq<int>)
    requires s.Valid() && e.pid > 0 && ByPid(s.queue, e.pid, 0) < |s.queue|
    ensures var i, t := ByPid(s.queue, e.pid, 0), s.Collect(e, now);
            if (e.bysignal != 0 || e.exitcode == 1) && s.queue[i].retryCount < MAX_RETRY then
              && t.rescheduled == s.rescheduled + 1 && |t.queue| == |s.queue| && !t.queue[i].running
              && t.queue[i].startTime == now + RetryDelay(s.queue[i].retryCount)
              && (later < now + RetryDelay(s.queue[i].retryCount) ==> t.RunFrom(0, later, forks).queue[i] == t.queue[i])
            else t.rescheduled == s.rescheduled && t.queue == s.queue[..i] + s.queue[i + 1..]
  {
    hide Running, Scheduler.RunFrom, RetryDelay;
    var i, t := ByPid(s.queue, e.pid, 0), s.Collect(e, now);
    SameJob(s, e.pid);
    if (e.bysignal != 0 || e.exitcode == 1) && s.queue[i].retryCount < MAX_RETRY {
      if later < now + RetryDelay(s.queue[i].retryCount) { NotStartedEarly(t, 0, later, forks, i); }
    }
  }
}
