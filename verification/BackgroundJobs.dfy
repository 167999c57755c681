/** The threads of one type of background job: clients that submit jobs or wait for the next one to be
    finished, and the worker. Every statement that touches shared state is a step of its own; what is
    between locking and unlocking is kept apart by the mutex, not by the model. */
module BackgroundJobs {

  type Job = int

  /** Where the worker is. It holds the mutex at Top, Popped and Taken. */
  datatype Worker =
    | Unborn
    | WantsLock
    | Top
    | Asleep
    | Woken
    | Popped(job: Job)
    | Taken(job: Job)
    | Running(job: Job)
    | Ran(job: Job)
    | Signalled(job: Job)

  /** Where a client is: submitting, waiting for a step, asking for the count, or elsewhere. */
  datatype Client =
    | Idle
    | Submits(job: Job)
    | Pushing(job: Job)
    | Pushed
    | Counted
    | Announced
    | Waits
    | Looks
    | Sleepy(count: int)
    | Sleeping
    | Roused
    | LooksAgain
    | Asks
    | Counts
    | Leaving(count: int)

  datatype Owner = Free | ByWorker | ByClient(t: nat)

  predicate WorkerHolds(w: Worker) { w.Top? || w.Popped? || w.Taken? }

  predicate ClientHolds(c: Client) {
    c.Pushing? || c.Pushed? || c.Counted? || c.Announced? || c.Looks? || c.Sleepy? || c.LooksAgain? || c.Counts?
        || c.Leaving?
  }

  /** All who sleep until the next step are roused. */
  function Rouse(clients: seq<Client>): (r: seq<Client>)
    ensures |r| == |clients|
    ensures forall t :: 0 <= t < |r| ==> r[t] == if clients[t].Sleeping? then Roused else clients[t]
  {
    seq(|clients|, t requires 0 <= t < |clients| => if clients[t].Sleeping? then Roused else clients[t])
  }

  datatype Bio = Bio(queue: seq<Job>, pending: int, submitted: seq<Job>, done: seq<Job>,
                     worker: Worker, clients: seq<Client>, owner: Owner) {

    // --- steps ---------------------------------------------------------------------------------------------------

    predicate WorkerCan() {
      match worker
      case Unborn => false
      case Asleep => false
      case WantsLock => owner.Free?
      case Woken => owner.Free?
      case _ => true
    }

    function WorkerStep(): Bio
      requires WorkerCan()
    {
      match worker
      case WantsLock => this.(worker := Top, owner := ByWorker)
      case Woken => this.(worker := Top, owner := ByWorker)
      case Top =>
        if queue == [] then this.(worker := Asleep, owner := Free)
        else this.(worker := Popped(queue[0]), queue := queue[1..])
      case Popped(job) => this.(worker := Taken(job), pending := pending - 1)
      case Taken(job) => this.(worker := Running(job), owner := Free)
      case Running(job) => this.(worker := Ran(job), done := done + [job])
      case Ran(job) => this.(worker := Signalled(job), clients := Rouse(clients))
      case Signalled(job) => this.(worker := WantsLock)
      case _ => this
    }

    predicate ClientCan(t: nat)
      requires t < |clients|
    {
      match clients[t]
      case Idle => false
      case Sleeping => false
      case Submits(_) => owner.Free?
      case Waits => owner.Free?
      case Roused => owner.Free?
      case Asks => owner.Free?
      case _ => true
    }

    function At(t: nat, c: Client): Bio
      requires t < |clients|
    {
      this.(clients := clients[t := c])
    }

    function ClientStep(t: nat): Bio
      requires t < |clients| && ClientCan(t)
    {
      match clients[t]
      case Submits(job) => At(t, Pushing(job)).(owner := ByClient(t))
      case Pushing(job) => At(t, Pushed).(queue := queue + [job], submitted := submitted + [job])
      case Pushed => At(t, Counted).(pending := pending + 1)
      case Counted => At(t, Announced).(worker := if worker.Asleep? then Woken else worker)
      case Announced => At(t, Idle).(owner := Free)
      case Waits => At(t, Looks).(owner := ByClient(t))
      case Looks => At(t, if pending != 0 then Sleepy(pending) else Leaving(pending))
      case Sleepy(_) => At(t, Sleeping).(owner := Free)
      case Roused => At(t, LooksAgain).(owner := ByClient(t))
      case LooksAgain => At(t, Leaving(pending))
      case Asks => At(t, Counts).(owner := ByClient(t))
      case Counts => At(t, Leaving(pending))
      case Leaving(_) => At(t, Idle).(owner := Free)
      case _ => this
    }
  }

  /** A step of the worker or of a client; a call of one of the three operations, the first submission of all
      giving birth to the worker; and waking without being called. */
  datatype Event =
    | Work
    | Act(t: nat)
    | Submit(t: nat, job: Job)
    | WaitStep(t: nat)
    | GetPending(t: nat)
    | WorkerStirs
    | ClientStirs(t: nat)

  predicate Enabled(s: Bio, e: Event) {
    match e
    case Work => s.WorkerCan()
    case Act(t) => t < |s.clients| && s.ClientCan(t)
    case Submit(t, _) => t < |s.clients| && s.clients[t].Idle?
    case WaitStep(t) => t < |s.clients| && s.clients[t].Idle?
    case GetPending(t) => t < |s.clients| && s.clients[t].Idle?
    case WorkerStirs => s.worker.Asleep?
    case ClientStirs(t) => t < |s.clients| && s.clients[t].Sleeping?
  }

  function Next(s: Bio, e: Event): Bio
    requires Enabled(s, e)
  {
    match e
    case Work => s.WorkerStep()
    case Act(t) => s.ClientStep(t)
    case Submit(t, job) => s.At(t, Submits(job)).(worker := if s.worker.Unborn? then WantsLock else s.worker)
    case WaitStep(t) => s.At(t, Waits)
    case GetPending(t) => s.At(t, Asks)
    case WorkerStirs => s.(worker := Woken)
    case ClientStirs(t) => s.At(t, Roused)
  }

  function Start(n: nat): Bio { Bio([], 0, [], [], Unborn, seq(n, t => Idle), Free) }

  // --- what always holds -----------------------------------------------------------------------------------------

  /** Whoever is where the mutex is held holds it, and nobody else does. */
  ghost predicate Exclusive(s: Bio) {
    && (s.owner.ByWorker? <==> WorkerHolds(s.worker))
    && (forall t :: 0 <= t < |s.clients| ==> (ClientHolds(s.clients[t]) <==> s.owner == ByClient(t)))
    && (s.owner.ByClient? ==> s.owner.t < |s.clients|)
  }

  /** The job that has left the queue but is not done. */
  function InFlight(w: Worker): seq<Job> { if w.Popped? || w.Taken? || w.Running? then [w.job] else [] }

  function PushedBy(s: Bio): int {
    if s.owner.ByClient? && s.owner.t < |s.clients| && s.clients[s.owner.t].Pushed? then 1 else 0
  }

  predicate CountRight(s: Bio) {
    s.pending == |s.queue| + (if s.worker.Popped? then 1 else 0) - PushedBy(s)
  }

  predicate InOrder(s: Bio) { s.done + InFlight(s.worker) + s.queue == s.submitted }

  /** A producer that has put a job in the queue and is about to announce it. */
  predicate AboutToAnnounce(s: Bio) {
    s.owner.ByClient? && s.owner.t < |s.clients| && (s.clients[s.owner.t].Pushed? || s.clients[s.owner.t].Counted?)
  }

  /** The worker sleeps only while there is nothing to do, or somebody is about to wake it. */
  predicate SleepsRightly(s: Bio) {
    && (s.worker.Asleep? ==> s.queue == [] || AboutToAnnounce(s))
    && (s.worker.Unborn? ==>
          s.submitted == [] && forall t :: 0 <= t < |s.clients| ==> !s.clients[t].Submits? && !s.clients[t].Pushing?)
  }

  /** The worker has a job whose end it has not signalled yet. */
  predicate SignalDue(w: Worker) { w.Popped? || w.Taken? || w.Running? || w.Ran? }

  predicate MayWait(s: Bio, c: Client) {
    && (c.Sleeping? ==> s.queue != [] || SignalDue(s.worker))
    && (c.Sleepy? ==> s.queue != [])
    && (c.Leaving? ==> c.count == |s.queue|)
  }

  ghost predicate WaitersServed(s: Bio) { forall t :: 0 <= t < |s.clients| ==> MayWait(s, s.clients[t]) }

  ghost predicate Inv(s: Bio) {
    Exclusive(s) && CountRight(s) && InOrder(s) && SleepsRightly(s) && WaitersServed(s)
  }

  lemma StartInv(n: nat)
    ensures Inv(Start(n))
  {
  }

  lemma WorkKeeps(s: Bio)
    requires Inv(s) && s.WorkerCan()
    ensures Inv(s.WorkerStep())
  {
    var s' := s.WorkerStep();
    match s.worker
    case Top => if s.queue != [] { assert s.queue == [s.queue[0]] + s.queue[1..]; }
    case Running(job) => assert s.done + [job] + s.queue == s'.done + [] + s.queue;
    case _ =>
  }

  lemma ActKeeps(s: Bio, t: nat)
    requires Inv(s) && t < |s.clients| && s.ClientCan(t)
    ensures Inv(s.ClientStep(t))
  {
    var s' := s.ClientStep(t);
    if s.clients[t].Pushing? {
      assert s.done + InFlight(s.worker) + (s.queue + [s.clients[t].job]) == s.submitted + [s.clients[t].job];
    }
  }

  lemma CallKeeps(s: Bio, t: nat, c: Client)
    requires Inv(s) && t < |s.clients| && (s.clients[t].Idle? || s.clients[t].Sleeping?)
    requires c.Waits? || c.Asks? || c.Roused? || (c.Submits? && !s.worker.Unborn?)
    ensures Inv(s.At(t, c))
  {
  }

  lemma BirthKeeps(s: Bio)
    requires Inv(s) && (s.worker.Unborn? || s.worker.Asleep?)
    ensures Inv(s.(worker := if s.worker.Unborn? then WantsLock else Woken))
  {
  }

  lemma NextKeeps(s: Bio, e: Event)
    requires Inv(s) && Enabled(s, e)
    ensures Inv(Next(s, e)) && |Next(s, e).clients| == |s.clients|
  {
    hide Inv;
    match e
    case Work => WorkKeeps(s);
    case Act(t) => ActKeeps(s, t);
    case Submit(t, job) =>
      var born := if s.worker.Unborn? then s.(worker := WantsLock) else s;
      if s.worker.Unborn? { BirthKeeps(s); }
      CallKeeps(born, t, Submits(job));
    case WaitStep(t) => CallKeeps(s, t, Waits);
    case GetPending(t) => CallKeeps(s, t, Asks);
    case WorkerStirs => BirthKeeps(s);
    case ClientStirs(t) => CallKeeps(s, t, Roused);
  }

  // --- runs ------------------------------------------------------------------------------------------------------

  ghost predicate RunOf(states: seq<Bio>, events: seq<Event>, n: nat) {
    && |states| == |events| + 1 && states[0] == Start(n)
    && forall i :: 0 <= i < |events| ==> StepsTo(states[i], events[i], states[i + 1])
  }

  ghost predicate StepsTo(s: Bio, e: Event, t: Bio) { Enabled(s, e) && t == Next(s, e) }

  lemma {:induction false} AlwaysInv(states: seq<Bio>, events: seq<Event>, n: nat, i: nat)
    requires RunOf(states, events, n) && i < |states|
    ensures Inv(states[i]) && |states[i].clients| == n
    decreases i
  {
    hide Inv, Next, Enabled;
    if i == 0 {
      StartInv(n);
    } else {
      AlwaysInv(states, events, n, i - 1);
      assert StepsTo(states[i - 1], events[i - 1], states[i]);
      NextKeeps(states[i - 1], events[i - 1]);
    }
  }

  /** In every state of every run with any number of clients: jobs are done in the order of their submission,
      none lost and none twice; whenever nobody is in the middle of changing it, the count is the length of
      the queue; and while the mutex is free the worker sleeps only if the queue is empty. */
  lemma JobsInOrder(states: seq<Bio>, events: seq<Event>, n: nat, i: nat)
    requires RunOf(states, events, n) && i < |states|
    ensures var s := states[i];
            && s.done + InFlight(s.worker) + s.queue == s.submitted
            && (s.owner.Free? ==> s.pending == |s.queue|)
            && (s.owner.Free? && s.worker.Asleep? ==> s.queue == [])
            && |s.clients| == n && (forall t :: 0 <= t < n && s.clients[t].Leaving? ==> s.clients[t].count == |s.queue|)
  {
    AlwaysInv(states, events, n, i);
  }

  // --- waiting for a step ----------------------------------------------------------------------------------------

  /** How many steps the worker is from signalling. */
  function Distance(w: Worker): nat {
    match w
    case Unborn => 10
    case Asleep => 9
    case Signalled(_) => 8
    case WantsLock => 7
    case Woken => 7
    case Top => 6
    case Popped(_) => 5
    case Taken(_) => 4
    case Running(_) => 3
    case Ran(_) => 2
  }

  ghost predicate SleepsAt(s: Bio, t: nat) { t < |s.clients| && s.clients[t].Sleeping? }

  /** While a client sleeps, every step of the worker brings the signal nearer, and no other step puts it off. */
  lemma SignalComesNearer(s: Bio, e: Event, t: nat)
    requires Inv(s) && Enabled(s, e) && SleepsAt(s, t) && SleepsAt(Next(s, e), t)
    ensures Distance(Next(s, e).worker) <= Distance(s.worker)
    ensures e.Work? ==> Distance(Next(s, e).worker) < Distance(s.worker)
  {
    assert MayWait(s, s.clients[t]);
  }

  /** Nor can everything come to a stop: the worker can go on, or whoever holds the mutex can. */
  lemma SomebodyGoesOn(s: Bio, t: nat)
    requires Inv(s) && SleepsAt(s, t)
    ensures s.WorkerCan() || (s.owner.ByClient? && s.owner.t < |s.clients| && s.ClientCan(s.owner.t))
  {
    assert MayWait(s, s.clients[t]);
  }

  /** How many steps a client is from giving up the mutex. */
  function Hold(c: Client): nat {
    match c
    case Pushing(_) => 4
    case Pushed => 3
    case Counted => 2
    case Announced => 1
    case Looks => 2
    case Sleepy(_) => 1
    case LooksAgain => 2
    case Counts => 2
    case Leaving(_) => 1
    case _ => 0
  }

  lemma HolderLetsGo(s: Bio)
    requires Inv(s) && s.owner.ByClient?
    ensures var t := s.owner.t;
            && t < |s.clients| && s.ClientCan(t) && 0 < Hold(s.clients[t]) <= 4
            && Hold(s.ClientStep(t).clients[t]) == Hold(s.clients[t]) - 1
            && (s.ClientStep(t).owner.Free? <==> Hold(s.clients[t]) == 1)
  {
    assert ClientHolds(s.clients[s.owner.t]);
  }

  function WorkIn(events: seq<Event>): nat {
    if events == [] then 0 else WorkIn(events[..|events| - 1]) + if events[|events| - 1].Work? then 1 else 0
  }

  /** A client that waits for a step is not left waiting: in no run does it sleep through more than eight
      steps of the worker. */
  lemma {:induction false} SleepIsShort(states: seq<Bio>, events: seq<Event>, n: nat, i: nat, j: nat, t: nat)
    requires RunOf(states, events, n) && i <= j < |states|
    requires forall k :: i <= k <= j ==> SleepsAt(states[k], t)
    ensures WorkIn(events[i..j]) + Distance(states[j].worker) <= Distance(states[i].worker)
    ensures WorkIn(events[i..j]) <= 8
    decreases j - i
  {
    hide Inv, Next, Enabled;
    if i < j {
      SleepIsShort(states, events, n, i, j - 1, t);
      AlwaysInv(states, events, n, j - 1);
      assert StepsTo(states[j - 1], events[j - 1], states[j]);
      assert SleepsAt(states[j - 1], t) && SleepsAt(states[j], t);
      SignalComesNearer(states[j - 1], events[j - 1], t);
      assert events[i..j][..j - i - 1] == events[i..j - 1];
    }
  }

  /** All of some events, one after the other. */
  ghost predicate CanRun(s: Bio, events: seq<Event>)
    decreases |events|
  {
    events == [] || (Enabled(s, events[0]) && CanRun(Next(s, events[0]), events[1..]))
  }

  ghost function After(s: Bio, events: seq<Event>): Bio
    requires CanRun(s, events)
    decreases |events|
  {
    if events == [] then s else After(Next(s, events[0]), events[1..])
  }

  /** The step that helps a sleeper: the worker's if it has one, and the holder's otherwise. */
  function Helpful(s: Bio): Event {
    if s.WorkerCan() || !s.owner.ByClient? then Work else Act(s.owner.t)
  }

  /** How many helpful steps there are at most before the signal. */
  function Left(s: Bio): nat {
    5 * Distance(s.worker) + if s.owner.ByClient? && s.owner.t < |s.clients| then Hold(s.clients[s.owner.t]) else 0
  }

  lemma Helps(s: Bio, t: nat)
    requires Inv(s) && SleepsAt(s, t)
    ensures Enabled(s, Helpful(s)) && t < |Next(s, Helpful(s)).clients|
    ensures 0 < Left(s) <= 49
    ensures var s' := Next(s, Helpful(s)); s'.clients[t].Roused? || (SleepsAt(s', t) && Left(s') < Left(s))
  {
    SomebodyGoesOn(s, t);
    BornAlready(s, t);
    if s.owner.ByClient? { HolderLetsGo(s); }
    if s.WorkerCan() { WorkHelps(s, t); } else { ActHelps(s, t); }
  }

  lemma BornAlready(s: Bio, t: nat)
    requires Inv(s) && SleepsAt(s, t)
    ensures !s.worker.Unborn?
  {
    assert MayWait(s, s.clients[t]);
    assert s.queue != [] || SignalDue(s.worker);
    assert s.queue != [] ==> s.submitted != [];
  }

  lemma WorkHelps(s: Bio, t: nat)
    requires Inv(s) && SleepsAt(s, t) && s.WorkerCan()
    ensures var s' := s.WorkerStep();
            |s'.clients| == |s.clients| && (s'.clients[t].Roused? || (SleepsAt(s', t) && Left(s') < Left(s)))
  {
    var s' := s.WorkerStep();
    if !s.worker.Ran? {
      assert s'.clients == s.clients;
      SignalComesNearer(s, Work, t);
    }
  }

  lemma ActHelps(s: Bio, t: nat)
    requires Inv(s) && SleepsAt(s, t) && s.owner.ByClient? && s.owner.t < |s.clients| && s.ClientCan(s.owner.t)
    ensures var s' := s.ClientStep(s.owner.t);
            |s'.clients| == |s.clients| && SleepsAt(s', t) && Left(s') < Left(s)
  {
    HolderLetsGo(s);
    assert ClientHolds(s.clients[s.owner.t]) && s.owner.t != t;
    SignalComesNearer(s, Act(s.owner.t), t);
  }

  /** From every state that can be reached with a client asleep, at most 49 steps, none of them a new call or an
      early waking, rouse it. */
  lemma {:induction false} RousedSoon(s: Bio, t: nat) returns (events: seq<Event>)
    requires Inv(s) && SleepsAt(s, t)
    ensures |events| <= Left(s) <= 49 && CanRun(s, events) && forall e :: e in events ==> e.Work? || e.Act?
    ensures t < |After(s, events).clients| && After(s, events).clients[t].Roused?
    decreases Left(s)
  {
    hide Inv, Next, Enabled, Left;
    Helps(s, t);
    var e, s' := Helpful(s), Next(s, Helpful(s));
    NextKeeps(s, e);
    var more := [];
    if !s'.clients[t].Roused? { more := RousedSoon(s', t); }
    events := [e] + more;
    assert events[1..] == more;
    assert CanRun(s', more);
  }

  /** In particular in every run. */
  lemma RousedInRuns(states: seq<Bio>, events: seq<Event>, n: nat, i: nat, t: nat) returns (more: seq<Event>)
    requires RunOf(states, events, n) && i < |states| && SleepsAt(states[i], t)
    ensures |more| <= 49 && CanRun(states[i], more) && forall e :: e in more ==> e.Work? || e.Act?
    ensures t < |After(states[i], more).clients| && After(states[i], more).clients[t].Roused?
  {
    hide Inv;
    AlwaysInv(states, events, n, i);
    more := RousedSoon(states[i], t);
  }
}
