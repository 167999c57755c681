/** What each operation of the script scheduler does to every job of the queue and to the counts. */
module ScriptPasses {
  import Words
  import opened Scripts

  predicate IsDue(job: Job, now: nat) { !job.running && job.startTime <= now }

  /** How many of the jobs from `i` on and before `j` are due. */
  function DueIn(queue: seq<Job>, i: nat, j: nat, now: nat): (n: nat)
    requires i <= |queue| && j <= |queue|
    ensures n <= if i <= j then j - i else 0
    decreases |queue| - i
  {
    if i >= j then 0 else (if IsDue(queue[i], now) then 1 else 0) + DueIn(queue, i + 1, j, now)
  }

  /** What the attempt with a number gets; beyond the answers told there is no process. */
  function ForkOf(forks: seq<int>, k: nat): int { if k < |forks| then forks[k] else -1 }

  function Rest(forks: seq<int>): seq<int> { if forks == [] then [] else forks[1..] }

  /** How many of the first `k` attempts make a process. */
  function Successes(forks: seq<int>, k: nat): (n: nat)
    ensures n <= k
  {
    if k == 0 || forks == [] then 0 else (if forks[0] != -1 then 1 else 0) + Successes(forks[1..], k - 1)
  }

  /** A job after an attempt: with the time of the attempt, one more of them, and the process if one was made. */
  function Tried(job: Job, now: nat, fork: int): Job {
    if fork == -1 then Job(job.script, false, job.retryCount + 1, now, 0, job.starts)
    else Job(job.script, true, job.retryCount + 1, now, fork, job.starts + 1)
  }

  function Least(a: int, b: int): int { if a < b then a else b }

  // --- one pass over the queue -------------------------------------------------------------------------------------

  lemma {:induction false} DueSame(a: seq<Job>, b: seq<Job>, i: nat, j: nat, now: nat)
    requires i <= |a| == |b| && j <= |a| && a[i..] == b[i..]
    ensures DueIn(a, i, j, now) == DueIn(b, i, j, now)
    decreases |a| - i
  {
    if i < j {
      assert a[i] == a[i..][0] == b[i..][0] == b[i];
      assert a[i + 1..] == a[i..][1..] == b[i..][1..] == b[i + 1..];
      DueSame(a, b, i + 1, j, now);
    }
  }

  lemma {:induction false} SuccessesRise(forks: seq<int>, k: nat, n: nat)
    requires k <= n
    ensures Successes(forks, k) <= Successes(forks, n)
  {
    if k > 0 && forks != [] { SuccessesRise(forks[1..], k - 1, n - 1); }
  }

  lemma Attempted(s: Scheduler, i: nat, now: nat, forks: seq<int>)
    requires i < |s.queue|
    ensures var t := s.Attempt(i, now, ForkOf(forks, 0));
            && t.queue == s.queue[i := Tried(s.queue[i], now, ForkOf(forks, 0))]
            && t.queue[i + 1..] == s.queue[i + 1..] && t.rescheduled == s.rescheduled
            && t.runningScripts == s.runningScripts + Successes(forks, 1)
            && t.started == s.started + Successes(forks, 1)
  {
    if forks != [] { assert Successes(forks[1..], 0) == 0; }
  }

  lemma SuccessesFirst(forks: seq<int>, k: nat)
    ensures Successes(forks, k + 1) == Successes(forks, 1) + Successes(Rest(forks), k)
    ensures ForkOf(Rest(forks), k) == ForkOf(forks, k + 1)
  {
    if forks != [] { assert Successes(forks[1..], 0) == 0; }
  }

  lemma RunOn(s: Scheduler, i: nat, now: nat, forks: seq<int>)
    requires i < |s.queue| && s.runningScripts < MAX_RUNNING
    ensures s.RunFrom(i, now, forks) == if IsDue(s.queue[i], now)
            then s.Attempt(i, now, ForkOf(forks, 0)).RunFrom(i + 1, now, Rest(forks))
            else s.RunFrom(i + 1, now, forks)
  {
  }

  lemma DueNext(queue: seq<Job>, i: nat, j: nat, now: nat)
    requires i < |queue| && j <= |queue|
    ensures i < j ==> DueIn(queue, i, j, now) == DueIn(queue, i + 1, j, now) + if IsDue(queue[i], now) then 1 else 0
    ensures j <= i ==> DueIn(queue, i, j, now) == DueIn(queue, i + 1, j, now) == 0
  {
  }

  lemma {:induction false} PassAt(s: Scheduler, i: nat, now: nat, forks: seq<int>, j: nat)
    requires i <= |s.queue| && j < |s.queue|
    ensures var k := DueIn(s.queue, i, j, now);
            s.RunFrom(i, now, forks).queue[j] ==
            if i <= j && IsDue(s.queue[j], now) && s.runningScripts + Successes(forks, k) < MAX_RUNNING
            then Tried(s.queue[j], now, ForkOf(forks, k)) else s.queue[j]
    decreases |s.queue| - i
  {
    if i < |s.queue| && s.runningScripts < MAX_RUNNING {
      DueNext(s.queue, i, j, now);
      hide DueIn, IsDue, Successes, Tried, ForkOf, Scheduler.RunFrom, Scheduler.Attempt;
      RunOn(s, i, now, forks);
      if IsDue(s.queue[i], now) {
        var t := s.Attempt(i, now, ForkOf(forks, 0));
        Attempted(s, i, now, forks);
        PassAt(t, i + 1, now, Rest(forks), j);
        DueSame(t.queue, s.queue, i + 1, j, now);
        SuccessesFirst(forks, DueIn(s.queue, i + 1, j, now));
        NoneYet(forks);
      } else {
        PassAt(s, i + 1, now, forks, j);
      }
    } else {
      SuccessesRise(forks, 0, DueIn(s.queue, i, j, now));
    }
  }

  lemma NoneYet(forks: seq<int>)
    ensures Successes(forks, 0) == 0
  {
  }

  lemma {:induction false} PassCounts(s: Scheduler, i: nat, now: nat, forks: seq<int>)
    requires i <= |s.queue| && s.runningScripts <= MAX_RUNNING
    ensures var t, n := s.RunFrom(i, now, forks), Successes(forks, DueIn(s.queue, i, |s.queue|, now));
            && t.runningScripts == Least(MAX_RUNNING, s.runningScripts + n)
            && t.started - s.started == t.runningScripts - s.runningScripts && t.rescheduled == s.rescheduled
    decreases |s.queue| - i
  {
    if i < |s.queue| && s.runningScripts < MAX_RUNNING {
      DueNext(s.queue, i, |s.queue|, now);
      hide DueIn, IsDue, Successes, Tried, ForkOf, Scheduler.RunFrom, Scheduler.Attempt;
      RunOn(s, i, now, forks);
      if IsDue(s.queue[i], now) {
        var t := s.Attempt(i, now, ForkOf(forks, 0));
        Attempted(s, i, now, forks);
        PassCounts(t, i + 1, now, Rest(forks));
        DueSame(t.queue, s.queue, i + 1, |s.queue|, now);
        SuccessesFirst(forks, DueIn(s.queue, i + 1, |s.queue|, now));
      } else {
        PassCounts(s, i + 1, now, forks);
      }
    } else {
      NoneYet(forks);
    }
  }

  /** A pass over the queue attempts every job that is due, in the order of the queue, until sixteen scripts
      are counted as running: the job with `k` due ones before it gets the answer with number `k`, if the
      count had not reached sixteen by then. All other jobs are as they were. */
  lemma PassExactly(s: Scheduler, now: nat, forks: seq<int>, j: nat)
    requires j < |s.queue|
    ensures var t, k := s.RunFrom(0, now, forks), DueIn(s.queue, 0, j, now);
            && |t.queue| == |s.queue|
            && t.queue[j] ==
               if IsDue(s.queue[j], now) && s.runningScripts + Successes(forks, k) < MAX_RUNNING
               then Tried(s.queue[j], now, ForkOf(forks, k)) else s.queue[j]
  {
    PassAt(s, 0, now, forks, j);
  }

  /** After a pass sixteen scripts are counted as running, or every job that was due was attempted once. */
  lemma FullOrAllTried(s: Scheduler, now: nat, forks: seq<int>)
    requires s.runningScripts <= MAX_RUNNING
    ensures var t := s.RunFrom(0, now, forks);
            || t.runningScripts == MAX_RUNNING
            || forall j :: 0 <= j < |s.queue| && IsDue(s.queue[j], now) ==>
                 t.queue[j] == Tried(s.queue[j], now, ForkOf(forks, DueIn(s.queue, 0, j, now)))
  {
    var t, n := s.RunFrom(0, now, forks), DueIn(s.queue, 0, |s.queue|, now);
    PassCounts(s, 0, now, forks);
    if t.runningScripts < MAX_RUNNING {
      forall j | 0 <= j < |s.queue| && IsDue(s.queue[j], now)
        ensures t.queue[j] == Tried(s.queue[j], now, ForkOf(forks, DueIn(s.queue, 0, j, now)))
      {
        PassAt(s, 0, now, forks, j);
        DueLess(s.queue, 0, j, |s.queue|, now);
        SuccessesRise(forks, DueIn(s.queue, 0, j, now), n);
      }
    }
  }

  lemma {:induction false} DueLess(queue: seq<Job>, i: nat, j: nat, m: nat, now: nat)
    requires i <= |queue| && j <= m <= |queue|
    ensures DueIn(queue, i, j, now) <= DueIn(queue, i, m, now)
    decreases |queue| - i
  {
    if i < j { DueLess(queue, i + 1, j, m, now); }
  }

  // --- submitting and collecting -----------------------------------------------------------------------------------

  /** A new script comes last, due at once and never tried. Is the queue too long then, the first job that is
      not running goes; the counts stay, and so do all other jobs, in order. */
  lemma ScheduleExactly(s: Scheduler, script: string) returns (i: nat)
    requires s.Valid()
    ensures var t, job := s.Schedule(script), Job(script, false, 0, 0, 0, 0);
            && (|s.queue| < MAX_QUEUE ==> t == s.(queue := s.queue + [job]))
            && (|s.queue| == MAX_QUEUE ==>
                && i < |s.queue| && !s.queue[i].running && (forall j :: 0 <= j < i ==> s.queue[j].running)
                && t == s.(queue := s.queue[..i] + s.queue[i + 1..] + [job]))
    ensures forall now :: IsDue(Job(script, false, 0, 0, 0, 0), now)
  {
    hide Running, FirstIdle, JobRight, Scheduler.PidsDistinct;
    i := 0;
    assert |s.queue| <= MAX_QUEUE;
    if |s.queue| == MAX_QUEUE {
      SomeIdle(s, script);
      var q := s.queue + [Fresh(script)];
      i := FirstIdle(q, 0);
      assert q[..i] == s.queue[..i];
      assert q[i + 1..] == s.queue[i + 1..] + [Fresh(script)];
      assert q[..i] + q[i + 1..] == s.queue[..i] + s.queue[i + 1..] + [Fresh(script)];
      assert !q[i].running && q[i] == s.queue[i];
      forall j | 0 <= j < i ensures s.queue[j].running { assert q[j].running; }
    }
  }

  /** Whether a script that has ended is to be run again. */
  predicate AgainFor(e: Ended, job: Job) { (e.bysignal != 0 || e.exitcode == 1) && job.retryCount < MAX_RETRY }

  /** The end of a script that runs for the job at `i`: to be run again, the job stays where it is with its
      time put off and its attempts counted as before, and the count of running scripts stays too; otherwise
      it goes and the count falls. All other jobs are as they were, and the end of an unknown process changes
      nothing. */
  lemma CollectExactly(s: Scheduler, e: Ended, now: nat, i: nat)
    requires s.Valid() && e.pid > 0 && i < |s.queue| && s.queue[i].running && s.queue[i].pid == e.pid
    ensures var t, job := s.Collect(e, now), s.queue[i];
            if AgainFor(e, job) then
              var again := Job(job.script, false, job.retryCount, now + RetryDelay(job.retryCount), 0, job.starts);
              t == s.(queue := s.queue[i := again], rescheduled := s.rescheduled + 1)
            else t == s.(queue := s.queue[..i] + s.queue[i + 1..], runningScripts := s.runningScripts - 1)
  {
    hide Running, RetryDelay;
    assert ByPid(s.queue, e.pid, 0) == i;
    SameJob(s, e.pid);
  }

  lemma UnknownIgnored(s: Scheduler, e: Ended, now: nat)
    requires forall i :: 0 <= i < |s.queue| && s.queue[i].running ==> s.queue[i].pid != e.pid
    ensures s.Collect(e, now) == s
  {
    assert ByPid(s.queue, e.pid, 0) == |s.queue|;
  }

  /** The first two attempts are half a minute apart, and every later one twice as far as the one before. */
  lemma DelayDoubles(retryCount: nat)
    ensures RetryDelay(0) == RetryDelay(1) == 30000
    ensures retryCount >= 1 ==> RetryDelay(retryCount + 1) == 2 * RetryDelay(retryCount)
  {
    assert Words.Pow2(0) == 1;
    if retryCount >= 1 { assert Words.Pow2(retryCount) == 2 * Words.Pow2(retryCount - 1); }
  }
}
