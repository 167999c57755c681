/** What a whole call comes to, from its start to its return, whatever all others do in between: submitting a
    job, waiting for a step and asking for the count. */
module BackgroundCalls {
  import opened BackgroundJobs

  /** A call by client `t` that starts with the event at `i` has not returned up to the state at `j`. */
  ghost predicate Under(states: seq<Bio>, n: nat, t: nat, i: nat, j: nat) {
    && i < j < |states| && t < n
    && forall m :: i < m <= j ==> t < |states[m].clients| && !states[m].clients[t].Idle?
  }

  /** It returns with the event at `j`. */
  ghost predicate Returns(states: seq<Bio>, n: nat, t: nat, i: nat, j: nat) {
    j + 1 < |states| && Under(states, n, t, i, j) && t < |states[j + 1].clients| && states[j + 1].clients[t].Idle?
  }

  /** The worker's broadcast that a step is done, or a waking without one. */
  predicate WakesAt(s: Bio, e: Event, t: nat) { (e.Work? && s.worker.Ran?) || e == ClientStirs(t) }

  /** Where a client is changes by its own steps alone, except that it starts calls and that sleepers are
      roused. */
  lemma Moved(s: Bio, e: Event, t: nat)
    requires Enabled(s, e) && t < |s.clients| && t < |Next(s, e).clients| && !s.clients[t].Idle?
    ensures var c, d := s.clients[t], Next(s, e).clients[t];
            || d == c
            || (e == Act(t) && s.ClientCan(t) && d == s.ClientStep(t).clients[t])
            || (c.Sleeping? && d.Roused? && WakesAt(s, e, t))
  {
    match e
    case Work => WorkMoves(s, t);
    case Act(o) => if o != t { ActMovesOne(s, o, t); }
    case _ =>
  }

  lemma WorkMoves(s: Bio, t: nat)
    requires s.WorkerCan() && t < |s.clients|
    ensures var c, d := s.clients[t], s.WorkerStep().clients[t];
            d == c || (c.Sleeping? && d.Roused? && s.worker.Ran?)
  {
  }

  lemma ActMovesOne(s: Bio, o: nat, t: nat)
    requires o < |s.clients| && t < |s.clients| && o != t && s.ClientCan(o)
    ensures s.ClientStep(o).clients[t] == s.clients[t]
  {
  }

  lemma Lengths(states: seq<Bio>, events: seq<Event>, n: nat)
    requires RunOf(states, events, n)
    ensures |states| == |events| + 1
  {
  }

  lemma StepOf(states: seq<Bio>, events: seq<Event>, n: nat, t: nat, j: nat)
    requires RunOf(states, events, n) && j < |events| && t < n
    ensures Inv(states[j]) && Enabled(states[j], events[j]) && states[j + 1] == Next(states[j], events[j])
    ensures |states[j].clients| == |states[j + 1].clients| == n
  {
    hide Inv, Next, Enabled;
    AlwaysInv(states, events, n, j);
    AlwaysInv(states, events, n, j + 1);
    assert StepsTo(states[j], events[j], states[j + 1]);
  }

  lemma Shorter(states: seq<Bio>, n: nat, t: nat, i: nat, j: nat)
    requires Under(states, n, t, i, j)
    ensures i < j < |states| && t < n && t < |states[j].clients| && !states[j].clients[t].Idle?
    ensures i + 1 < j ==> Under(states, n, t, i, j - 1)
  {
  }

  // --- waiting for a step ------------------------------------------------------------------------------------------

  /** The client has the mutex at `k` and reads the count. */
  ghost predicate ReadsAt(states: seq<Bio>, events: seq<Event>, t: nat, k: nat) {
    && k < |events| && k < |states| && t < |states[k].clients|
    && events[k] == Act(t) && states[k].owner == ByClient(t) && states[k].pending == |states[k].queue|
  }

  /** It sleeps at some time after `k` and before `j`, and is woken. */
  ghost predicate SleptBetween(states: seq<Bio>, events: seq<Event>, t: nat, k: nat, j: nat) {
    exists m :: k < m < j && m < |events| && m < |states| && SleepsAt(states[m], t) &&
                WakesAt(states[m], events[m], t)
  }

  /** How far a call that waits for a step has come. */
  ghost predicate WaitPhase(states: seq<Bio>, events: seq<Event>, t: nat, c: Client, i: nat, k: nat, j: nat)
  {
    || c.Waits?
    || c.Looks?
    || (i < k < j && ReadsAt(states, events, t, k) && states[k].queue == [] && c == Leaving(0))
    || (i < k < j && ReadsAt(states, events, t, k) && states[k].queue != [] && (c.Sleepy? || c.Sleeping?))
    || (i < k < j && ReadsAt(states, events, t, k) && states[k].queue != [] &&
        SleptBetween(states, events, t, k, j) && (c.Roused? || c.LooksAgain? || c.Leaving?))
  }

  lemma WaitGoesOn(states: seq<Bio>, events: seq<Event>, n: nat, t: nat, i: nat, k: nat, j: nat)
    returns (k': nat)
    requires RunOf(states, events, n) && t < n && i < j < |events|
    requires t < |states[j].clients| && WaitPhase(states, events, t, states[j].clients[t], i, k, j)
    requires t < |states[j + 1].clients| && !states[j + 1].clients[t].Idle?
    ensures WaitPhase(states, events, t, states[j + 1].clients[t], i, k', j + 1)
  {
    Lengths(states, events, n);
    hide RunOf, Next, Enabled;
    StepOf(states, events, n, t, j);
    Moved(states[j], events[j], t);
    var c, d := states[j].clients[t], states[j + 1].clients[t];
    k' := k;
    if c.Looks? && d != c {
      k' := j;
      CountsTrue(states[j], t);
    } else if c.Sleeping? && d.Roused? {
      assert SleepsAt(states[j], t);
    }
  }

  /** Whoever has the mutex and has not just put a job into the queue sees its length in the count. */
  lemma CountsTrue(s: Bio, t: nat)
    requires Inv(s) && t < |s.clients| && (s.clients[t].Looks? || s.clients[t].Leaving?)
    ensures s.owner == ByClient(t) && s.pending == |s.queue|
    ensures s.clients[t].Leaving? ==> s.clients[t].count == |s.queue|
  {
    assert ClientHolds(s.clients[t]);
    assert MayWait(s, s.clients[t]);
  }

  lemma WaitStarts(states: seq<Bio>, events: seq<Event>, n: nat, t: nat, i: nat)
    requires RunOf(states, events, n) && t < n && i < |events| && events[i] == WaitStep(t)
    ensures i + 1 < |states| && t < |states[i + 1].clients|
    ensures WaitPhase(states, events, t, states[i + 1].clients[t], i, 0, i + 1)
  {
    Lengths(states, events, n);
    StepOf(states, events, n, t, i);
    hide RunOf, Inv;
    Called(states[i], events[i], t);
  }

  lemma {:induction false} WaitPhases(states: seq<Bio>, events: seq<Event>, n: nat, t: nat, i: nat, j: nat)
    returns (k: nat)
    requires RunOf(states, events, n) && Under(states, n, t, i, j) && events[i] == WaitStep(t)
    ensures WaitPhase(states, events, t, states[j].clients[t], i, k, j)
    decreases j
  {
    hide WaitPhase;
    Lengths(states, events, n);
    Shorter(states, n, t, i, j);
    hide RunOf, Under;
    if i + 1 < j {
      Shorter(states, n, t, i, j - 1);
      var before := WaitPhases(states, events, n, t, i, j - 1);
      k := WaitGoesOn(states, events, n, t, i, before, j - 1);
    } else {
      k := 0;
      WaitStarts(states, events, n, t, i);
    }
  }

  lemma Called(s: Bio, e: Event, t: nat)
    requires Enabled(s, e) && t < |s.clients| && t < |Next(s, e).clients|
    ensures e == WaitStep(t) ==> Next(s, e).clients[t] == Waits
    ensures e == GetPending(t) ==> Next(s, e).clients[t] == Asks
    ensures e.Submit? && e.t == t ==> Next(s, e).clients[t] == Submits(e.job)
  {
  }

  /** A call returns with a step of its own, from where it lets go of the mutex. */
  lemma Returned(s: Bio, e: Event, t: nat)
    requires Inv(s) && Enabled(s, e) && t < |s.clients| && t < |Next(s, e).clients|
    requires !s.clients[t].Idle? && Next(s, e).clients[t].Idle?
    ensures e == Act(t) && (s.clients[t].Announced? || s.clients[t].Leaving?)
    ensures s.owner == ByClient(t) && Next(s, e).owner.Free?
  {
    assert ClientHolds(s.clients[t]);
  }

  /** A call that waits for a step and returns has read the count under the mutex. Was there nothing to wait
      for, it answers zero; otherwise it has slept, and has been woken by the worker's broadcast or without
      one, and it answers the length of the queue as it is when the mutex is given up. */
  lemma WaitStepAnswers(states: seq<Bio>, events: seq<Event>, n: nat, t: nat, i: nat, j: nat) returns (k: nat)
    requires RunOf(states, events, n) && Returns(states, n, t, i, j) && events[i] == WaitStep(t)
    ensures i < k < j && ReadsAt(states, events, t, k) && events[j] == Act(t) && t < |states[j].clients|
    ensures states[j].clients[t].Leaving?
    ensures states[k].queue == [] ==> states[j].clients[t].count == 0
    ensures states[k].queue != [] ==> SleptBetween(states, events, t, k, j)
    ensures states[k].queue != [] ==> states[j].clients[t].count == |states[j].queue|
  {
    Lengths(states, events, n);
    hide RunOf, Next, Enabled, ReadsAt, SleptBetween;
    k := WaitPhases(states, events, n, t, i, j);
    StepOf(states, events, n, t, j);
    Returned(states[j], events[j], t);
    CountsTrue(states[j], t);
  }

  // --- asking for the count ----------------------------------------------------------------------------------------

  ghost predicate AskPhase(states: seq<Bio>, t: nat, j: nat) {
    && j < |states| && t < |states[j].clients|
    && (states[j].clients[t].Asks? || states[j].clients[t].Counts? || states[j].clients[t].Leaving?)
  }

  lemma AskStarts(states: seq<Bio>, events: seq<Event>, n: nat, t: nat, i: nat)
    requires RunOf(states, events, n) && t < n && i < |events| && events[i] == GetPending(t)
    ensures AskPhase(states, t, i + 1)
  {
    Lengths(states, events, n);
    StepOf(states, events, n, t, i);
    hide RunOf, Inv;
    Called(states[i], events[i], t);
  }

  lemma AskGoesOn(states: seq<Bio>, events: seq<Event>, n: nat, t: nat, j: nat)
    requires RunOf(states, events, n) && t < n && j < |events|
    requires AskPhase(states, t, j)
    requires t < |states[j + 1].clients| && !states[j + 1].clients[t].Idle?
    ensures AskPhase(states, t, j + 1)
  {
    StepOf(states, events, n, t, j);
    hide RunOf, Inv, Next, Enabled;
    Moved(states[j], events[j], t);
  }

  lemma {:induction false} AskPhases(states: seq<Bio>, events: seq<Event>, n: nat, t: nat, i: nat, j: nat)
    requires RunOf(states, events, n) && Under(states, n, t, i, j) && events[i] == GetPending(t)
    ensures AskPhase(states, t, j)
    decreases j
  {
    hide AskPhase;
    Lengths(states, events, n);
    Shorter(states, n, t, i, j);
    hide RunOf, Under;
    if i + 1 < j {
      Shorter(states, n, t, i, j - 1);
      AskPhases(states, events, n, t, i, j - 1);
      AskGoesOn(states, events, n, t, j - 1);
    } else {
      AskStarts(states, events, n, t, i);
    }
  }

  /** A call for the count never sleeps, and answers the length of the queue as it is when it returns. */
  lemma PendingAnswers(states: seq<Bio>, events: seq<Event>, n: nat, t: nat, i: nat, j: nat)
    requires RunOf(states, events, n) && Returns(states, n, t, i, j) && events[i] == GetPending(t)
    ensures forall m :: i < m <= j ==> !SleepsAt(states[m], t)
    ensures t < |states[j].clients| && states[j].clients[t] == Leaving(|states[j].queue|)
  {
    Lengths(states, events, n);
    hide RunOf, Next, Enabled;
    forall m | i < m <= j ensures !SleepsAt(states[m], t) { AskPhases(states, events, n, t, i, m); }
    AskPhases(states, events, n, t, i, j);
    StepOf(states, events, n, t, j);
    Returned(states[j], events[j], t);
    CountsTrue(states[j], t);
  }

  // --- submitting --------------------------------------------------------------------------------------------------

  /** The client's own step at `m` leaves the queue as it is. */
  ghost predicate QueueKept(states: seq<Bio>, events: seq<Event>, t: nat, m: nat) {
    && m + 1 < |states| && m < |events|
    && (events[m] == Act(t) ==>
          states[m + 1].queue == states[m].queue && states[m + 1].submitted == states[m].submitted)
  }

  /** Its step at `k` puts the job last, with the mutex held. */
  ghost predicate PutsAt(states: seq<Bio>, events: seq<Event>, t: nat, job: Job, k: nat) {
    && k + 1 < |states| && k < |events| && events[k] == Act(t) && states[k].owner == ByClient(t)
    && states[k + 1].queue == states[k].queue + [job]
    && states[k + 1].submitted == states[k].submitted + [job]
  }

  ghost predicate SubmitPhase(states: seq<Bio>, events: seq<Event>, t: nat, job: Job, c: Client, i: nat, k: nat, j: nat)
  {
    && (forall m :: i < m < j && m != k ==> QueueKept(states, events, t, m))
    && ((k == j && (c == Submits(job) || c == Pushing(job)))
        || (i < k < j && PutsAt(states, events, t, job, k) && (c.Pushed? || c.Counted? || c.Announced?)))
  }

  lemma SubmitGoesOn(states: seq<Bio>, events: seq<Event>, n: nat, t: nat, job: Job, i: nat, k: nat, j: nat)
    returns (k': nat)
    requires RunOf(states, events, n) && t < n && i < j < |events|
    requires t < |states[j].clients| && SubmitPhase(states, events, t, job, states[j].clients[t], i, k, j)
    requires t < |states[j + 1].clients| && !states[j + 1].clients[t].Idle?
    ensures SubmitPhase(states, events, t, job, states[j + 1].clients[t], i, k', j + 1)
  {
    Lengths(states, events, n);
    hide RunOf, Next, Enabled;
    StepOf(states, events, n, t, j);
    Moved(states[j], events[j], t);
    var c, d := states[j].clients[t], states[j + 1].clients[t];
    k' := if k < j || (c.Pushing? && d != c) then k else j + 1;
    if events[j] == Act(t) { Puts(states[j], t); }
    forall m | i < m < j + 1 && m != k' ensures QueueKept(states, events, t, m) {
      if m < j { assert m != k; }
    }
  }

  lemma Puts(s: Bio, t: nat)
    requires Inv(s) && Enabled(s, Act(t))
    ensures var s', c := Next(s, Act(t)), s.clients[t];
            && (!c.Pushing? ==> s'.queue == s.queue && s'.submitted == s.submitted)
            && (c.Pushing? ==> s.owner == ByClient(t) && s'.clients[t] == Pushed)
            && (c.Pushing? ==> s'.queue == s.queue + [c.job] && s'.submitted == s.submitted + [c.job])
  {
    if s.clients[t].Pushing? { assert ClientHolds(s.clients[t]); }
  }

  lemma SubmitStarts(states: seq<Bio>, events: seq<Event>, n: nat, t: nat, job: Job, i: nat)
    requires RunOf(states, events, n) && t < n && i < |events| && events[i] == Submit(t, job)
    ensures i + 1 < |states| && t < |states[i + 1].clients|
    ensures SubmitPhase(states, events, t, job, states[i + 1].clients[t], i, i + 1, i + 1)
  {
    Lengths(states, events, n);
    StepOf(states, events, n, t, i);
    hide RunOf, Inv;
    Called(states[i], events[i], t);
  }

  lemma {:induction false} SubmitPhases(states: seq<Bio>, events: seq<Event>, n: nat, t: nat, job: Job, i: nat, j: nat)
    returns (k: nat)
    requires RunOf(states, events, n) && Under(states, n, t, i, j) && events[i] == Submit(t, job)
    ensures SubmitPhase(states, events, t, job, states[j].clients[t], i, k, j)
    decreases j
  {
    hide SubmitPhase;
    Lengths(states, events, n);
    Shorter(states, n, t, i, j);
    hide RunOf, Under;
    if i + 1 < j {
      Shorter(states, n, t, i, j - 1);
      var before := SubmitPhases(states, events, n, t, job, i, j - 1);
      k := SubmitGoesOn(states, events, n, t, job, i, before, j - 1);
    } else {
      k := j;
      SubmitStarts(states, events, n, t, job, i);
    }
  }

  /** A submission that returns has put its job at the end of the queue, holding the mutex, by one step, and
      no other step of its own has touched the queue. When it returns the worker is awake, or has nothing to
      do any more. */
  lemma SubmitPutsOnce(states: seq<Bio>, events: seq<Event>, n: nat, t: nat, job: Job, i: nat, j: nat)
    returns (k: nat)
    requires RunOf(states, events, n) && Returns(states, n, t, i, j) && events[i] == Submit(t, job)
    ensures i < k < j && PutsAt(states, events, t, job, k)
    ensures forall m :: i < m <= j && m != k ==> QueueKept(states, events, t, m)
    ensures states[j + 1].worker.Asleep? ==> states[j + 1].queue == []
  {
    Lengths(states, events, n);
    hide RunOf, Next, Enabled;
    k := SubmitPhases(states, events, n, t, job, i, j);
    StepOf(states, events, n, t, j);
    Returned(states[j], events[j], t);
    Puts(states[j], t);
    AlwaysInv(states, events, n, j + 1);
  }
}
