/**
 * Background jobs (bio.c): one worker thread, the threads that submit jobs to it, drain it or
 * read its counters, and the event loop that takes over completion responses. Every step between
 * two accesses to shared state is a step of the machine, so a run is an interleaving.
 */
module Bio {

  datatype JobType = CloseFile | AofFsync | LazyFree | CloseAof | CompCloseFile | CompAofFsync | CompLazyFree

  datatype WorkerId = CloseFileWorker | AofWorker | LazyFreeWorker

  /** bio_job_to_worker. */
  function WorkerOf(t: JobType): (w: WorkerId) {
    match t
    case CloseFile => CloseFileWorker
    case AofFsync => AofWorker
    case CloseAof => AofWorker
    case LazyFree => LazyFreeWorker
    case CompCloseFile => CloseFileWorker
    case CompAofFsync => AofWorker
    case CompLazyFree => LazyFreeWorker
  }

  predicate IsComp(t: JobType) { t.CompCloseFile? || t.CompAofFsync? || t.CompLazyFree? }

  /** bioCreateCompRq: the request queues behind the jobs of its own worker. */
  function CompRequest(w: WorkerId): (t: JobType)
    ensures WorkerOf(t) == w && IsComp(t)
  {
    match w
    case CloseFileWorker => CompCloseFile
    case AofWorker => CompAofFsync
    case LazyFreeWorker => CompLazyFree
  }

  /** A list node holding a job, identified by when it was submitted. */
  datatype Node = Node(id: nat, kind: JobType)

  /** The worker thread: where it is in its loop, and the node it works on. */
  datatype WorkerPc =
    | Starting             // about to lock
    | Top                  // at the loop head
    | Waiting              // in cond_wait
    | Woken                // signalled, about to lock again
    | Running(n: Node)     // has released the lock, job not yet done
    | Finished(n: Node)    // job done, about to lock
    | Locked(n: Node)      // about to delete the node
    | Deleted(n: Node)     // about to decrement the counter
    | Counted              // about to signal

  /** Any other thread. A draining thread remembers how many jobs there were when it called. */
  datatype ThreadPc =
    | Idle
    | Submit(kind: JobType)           // about to lock
    | SubmitLocked(kind: JobType)     // about to append
    | SubmitAdded(kind: JobType)      // about to increment the counter
    | SubmitCounted                   // about to signal
    | SubmitSignalled                 // about to unlock
    | Drain(goal: nat)                // about to lock
    | DrainTop(goal: nat)             // at the loop head
    | DrainWaiting(goal: nat)         // in cond_wait
    | DrainWoken(goal: nat)           // signalled, about to lock again
    | Pending(kind: JobType)          // about to lock
    | PendingLocked(kind: JobType)    // about to read the counter

  datatype Holder = NoOne | TheWorker | Thread(i: nat)

  /** A completion response: of this worker, or of another one (they share the list). */
  datatype Response = Own(n: Node) | Foreign(tag: nat)

  datatype State = State(
    mutex: Holder,
    queue: seq<Node>,
    counter: map<JobType, int>,
    worker: WorkerPc,
    threads: seq<ThreadPc>,
    responses: seq<Response>,         // bio_comp_list
    taken: seq<Response>,             // tmp_list
    called: seq<Response>,            // callbacks made
    submitted: seq<Node>,             // history: every node ever appended
    executed: seq<Node>,              // history: every job done
    removed: seq<Node>)               // history: every node deleted

  function Zero(): (m: map<JobType, int>) {
    map[CloseFile := 0, AofFsync := 0, LazyFree := 0, CloseAof := 0,
        CompCloseFile := 0, CompAofFsync := 0, CompLazyFree := 0]
  }

  function Init(n: nat): (s: State) {
    State(NoOne, [], Zero(), Starting, seq(n, _ => Idle), [], [], [], [], [], [])
  }

  datatype Event =
    | Work                             // the worker's next step, other than signalling
    | WorkSignal(woken: Holder)
    | Spurious(who: Holder)            // cond_wait may return without a signal
    | CallSubmit(i: nat, kind: JobType)
    | CallDrain(i: nat)
    | CallPending(i: nat, kind: JobType)
    | Go(i: nat)                       // a thread's next step, other than signalling
    | GoSignal(i: nat, woken: Holder)
    | OtherWorker(tag: nat)            // another worker appends a response
    | Take                             // the event loop takes the list over
    | Call                             // and makes the next callback

  predicate IsWaiting(s: State, h: Holder) {
    match h
    case NoOne => false
    case TheWorker => s.worker.Waiting?
    case Thread(i) => i < |s.threads| && s.threads[i].DrainWaiting?
  }

  /** pthread_cond_signal wakes one waiter, whichever, if there is one. */
  ghost predicate MayWake(s: State, h: Holder) {
    if h == NoOne then forall g :: !IsWaiting(s, g) else IsWaiting(s, h)
  }

  function Wake(s: State, h: Holder): (s': State) {
    match h
    case NoOne => s
    case TheWorker => s.(worker := Woken)
    case Thread(i) =>
      if i < |s.threads| && s.threads[i].DrainWaiting? then s.(threads := s.threads[i := DrainWoken(s.threads[i].goal)]) else s
  }

  predicate WorkerLocks(pc: WorkerPc) { pc.Starting? || pc.Woken? || pc.Finished? }

  predicate ThreadLocks(pc: ThreadPc) { pc.Submit? || pc.Drain? || pc.DrainWoken? || pc.Pending? }

  ghost predicate Enabled(s: State, e: Event) {
    match e
    case Work => !s.worker.Waiting? && !s.worker.Counted? && (WorkerLocks(s.worker) ==> s.mutex == NoOne)
    case WorkSignal(h) => s.worker.Counted? && MayWake(s, h)
    case Spurious(h) => IsWaiting(s, h)
    case CallSubmit(i, _) => i < |s.threads| && s.threads[i].Idle?
    case CallDrain(i) => i < |s.threads| && s.threads[i].Idle?
    case CallPending(i, _) => i < |s.threads| && s.threads[i].Idle?
    case Go(i) =>
      i < |s.threads| && !s.threads[i].Idle? && !s.threads[i].SubmitCounted? && !s.threads[i].DrainWaiting?
      && (ThreadLocks(s.threads[i]) ==> s.mutex == NoOne)
    case GoSignal(i, h) => i < |s.threads| && s.threads[i].SubmitCounted? && MayWake(s, h)
    case OtherWorker(_) => true
    case Take => s.taken == []
    case Call => s.taken != []
  }

  /** listDelNode on the node itself, wherever it is in the list. */
  function Delete(q: seq<Node>, n: Node): (r: seq<Node>) {
    if q == [] then [] else if q[0] == n then q[1..] else [q[0]] + Delete(q[1..], n)
  }

  function Bump(m: map<JobType, int>, t: JobType, d: int): (m': map<JobType, int>) {
    m[t := (if t in m then m[t] else 0) + d]
  }

  /** bioProcessBackgroundJobs. */
  function WorkStep(s: State): (s': State) {
    match s.worker
    case Starting => s.(mutex := TheWorker, worker := Top)
    case Top =>
      if s.queue == [] then s.(mutex := NoOne, worker := Waiting)
      else s.(mutex := NoOne, worker := Running(s.queue[0]))
    case Woken => s.(mutex := TheWorker, worker := Top)
    case Running(n) =>
      s.(worker := Finished(n), executed := s.executed + [n],
         responses := if IsComp(n.kind) then s.responses + [Own(n)] else s.responses)
    case Finished(n) => s.(mutex := TheWorker, worker := Locked(n))
    case Locked(n) => s.(queue := Delete(s.queue, n), removed := s.removed + [n], worker := Deleted(n))
    case Deleted(n) => s.(counter := Bump(s.counter, n.kind, -1), worker := Counted)
    case Waiting => s
    case Counted => s
  }

  function Put(s: State, i: nat, pc: ThreadPc): (s': State)
    requires i < |s.threads|
  {
    s.(threads := s.threads[i := pc])
  }

  /** bioSubmitJob, bioDrainWorker and bioPendingJobsOfType. */
  function ThreadStep(s: State, i: nat): (s': State)
    requires i < |s.threads|
  {
    match s.threads[i]
    case Submit(kind) => Put(s, i, SubmitLocked(kind)).(mutex := Thread(i))
    case SubmitLocked(kind) =>
      var n := Node(|s.submitted|, kind);
      Put(s, i, SubmitAdded(kind)).(queue := s.queue + [n], submitted := s.submitted + [n])
    case SubmitAdded(kind) => Put(s, i, SubmitCounted).(counter := Bump(s.counter, kind, 1))
    case SubmitSignalled => Put(s, i, Idle).(mutex := NoOne)
    case Drain(goal) => Put(s, i, DrainTop(goal)).(mutex := Thread(i))
    case DrainTop(goal) =>
      Put(s, i, if s.queue == [] then Idle else DrainWaiting(goal)).(mutex := NoOne)
    case DrainWoken(goal) => Put(s, i, DrainTop(goal)).(mutex := Thread(i))
    case Pending(kind) => Put(s, i, PendingLocked(kind)).(mutex := Thread(i))
    case PendingLocked(_) => Put(s, i, Idle).(mutex := NoOne)
    case Idle => s
    case SubmitCounted => s
    case DrainWaiting(_) => s
  }

  function Step(s: State, e: Event): (s': State)
    requires Enabled(s, e)
  {
    match e
    case Work => WorkStep(s)
    case WorkSignal(h) => Wake(s.(worker := Top), h)
    case Spurious(h) => Wake(s, h)
    case CallSubmit(i, kind) => Put(s, i, Submit(kind))
    case CallDrain(i) => Put(s, i, Drain(|s.submitted|))
    case CallPending(i, kind) => Put(s, i, Pending(kind))
    case Go(i) => ThreadStep(s, i)
    case GoSignal(i, h) => Wake(Put(s, i, SubmitSignalled), h)
    case OtherWorker(tag) => s.(responses := s.responses + [Foreign(tag)])
    case Take => s.(taken := s.responses, responses := [])
    case Call => s.(called := s.called + [s.taken[0]], taken := s.taken[1..])
  }

  // ----- The invariant -----

  predicate WorkerHolds(pc: WorkerPc) { pc.Top? || pc.Locked? || pc.Deleted? || pc.Counted? }

  predicate ThreadHolds(pc: ThreadPc) {
    pc.SubmitLocked? || pc.SubmitAdded? || pc.SubmitCounted? || pc.SubmitSignalled? || pc.DrainTop? || pc.PendingLocked?
  }

  /** The mutex is held by exactly the thread whose program counter is between lock and unlock. */
  predicate Exclusive(s: State) {
    && (WorkerHolds(s.worker) <==> s.mutex == TheWorker)
    && (forall i :: 0 <= i < |s.threads| ==> (ThreadHolds(s.threads[i]) <==> s.mutex == Thread(i)))
    && (s.mutex.Thread? ==> s.mutex.i < |s.threads|)
  }

  predicate InFlight(pc: WorkerPc) { pc.Running? || pc.Finished? || pc.Locked? }

  /** The job in flight is the head of the queue, and the histories fit the queue. */
  predicate Ordered(s: State) {
    && (forall k :: 0 <= k < |s.submitted| ==> s.submitted[k].id == k)
    && s.submitted == s.removed + s.queue
    && (InFlight(s.worker) ==> s.queue != [] && s.queue[0] == s.worker.n)
    && s.executed == s.removed + (if s.worker.Finished? || s.worker.Locked? then [s.worker.n] else [])
  }

  function Count(q: seq<Node>, t: JobType): (n: nat) {
    if q == [] then 0 else (if q[0].kind == t then 1 else 0) + Count(q[1..], t)
  }

  /** What the counter of `t` owes: a node appended but not yet counted, or deleted but still counted. */
  function Owed(s: State, t: JobType): (d: int) {
    if s.worker.Deleted? && s.worker.n.kind == t then 1
    else if s.mutex.Thread? && s.mutex.i < |s.threads| && s.threads[s.mutex.i] == SubmitAdded(t) then -1
    else 0
  }

  predicate Tallied(s: State) {
    forall t :: t in s.counter && s.counter[t] == Count(s.queue, t) + Owed(s, t)
  }

  /** Completion requests among the jobs. */
  function Comps(ns: seq<Node>): (r: seq<Node>) {
    if ns == [] then [] else Comps(ns[..|ns| - 1]) + (if IsComp(ns[|ns| - 1].kind) then [ns[|ns| - 1]] else [])
  }

  /** The nodes of this worker among the responses. */
  function Owned(rs: seq<Response>): (r: seq<Node>) {
    if rs == [] then [] else Owned(rs[..|rs| - 1]) + (if rs[|rs| - 1].Own? then [rs[|rs| - 1].n] else [])
  }

  /** All responses ever made, oldest first. */
  function AllResponses(s: State): (rs: seq<Response>) { s.called + (s.taken + s.responses) }

  predicate Goals(s: State) {
    forall i :: 0 <= i < |s.threads| ==>
      (s.threads[i].Drain? || s.threads[i].DrainTop? || s.threads[i].DrainWaiting? || s.threads[i].DrainWoken?)
      ==> s.threads[i].goal <= |s.submitted|
  }

  predicate Inv(s: State) {
    Exclusive(s) && Ordered(s) && Tallied(s) && Goals(s) && Owned(AllResponses(s)) == Comps(s.executed)
  }

  lemma {:induction false} CountAppend(q: seq<Node>, n: Node, t: JobType)
    ensures Count(q + [n], t) == Count(q, t) + (if n.kind == t then 1 else 0)
  {
    if q == [] {
      assert q + [n] == [n];
    } else {
      assert (q + [n])[1..] == q[1..] + [n];
      CountAppend(q[1..], n, t);
    }
  }

  lemma OwnedAppend(rs: seq<Response>, r: Response)
    ensures Owned(rs + [r]) == Owned(rs) + (if r.Own? then [r.n] else [])
  {
    assert (rs + [r])[..|rs|] == rs;
  }

  lemma CompsAppend(ns: seq<Node>, n: Node)
    ensures Comps(ns + [n]) == Comps(ns) + (if IsComp(n.kind) then [n] else [])
  {
    assert (ns + [n])[..|ns|] == ns;
  }

  lemma InitInv(n: nat)
    ensures Inv(Init(n))
  {
    var s := Init(n);
    forall t ensures t in s.counter && s.counter[t] == 0 {
      match t
      case CloseFile => case AofFsync => case LazyFree => case CloseAof =>
      case CompCloseFile => case CompAofFsync => case CompLazyFree =>
    }
  }

  lemma WakeInv(s: State, h: Holder)
    requires Inv(s) && (h == NoOne || IsWaiting(s, h))
    ensures Inv(Wake(s, h))
  {}

  lemma WorkOrdered(s: State)
    requires Ordered(s) && Enabled(s, Work)
    ensures Ordered(WorkStep(s))
  {
    if s.worker.Locked? { assert s.queue == [s.queue[0]] + s.queue[1..]; }
  }

  lemma WorkTallied(s: State)
    requires Exclusive(s) && Ordered(s) && Tallied(s) && Enabled(s, Work)
    ensures Tallied(WorkStep(s))
  {
    hide Count;
    var s' := WorkStep(s);
    forall t ensures t in s'.counter && s'.counter[t] == Count(s'.queue, t) + Owed(s', t) {
      assert t in s.counter && s.counter[t] == Count(s.queue, t) + Owed(s, t);
      if s.worker.Locked? {
        assert s'.queue == s.queue[1..];
        CountFirst(s.queue, t);
      }
    }
  }

  lemma WorkResponses(s: State)
    requires Owned(AllResponses(s)) == Comps(s.executed) && Enabled(s, Work)
    ensures Owned(AllResponses(WorkStep(s))) == Comps(WorkStep(s).executed)
  {
    hide Comps, Owned;
    if s.worker.Running? {
      var n, s' := s.worker.n, WorkStep(s);
      CompsAppend(s.executed, n);
      OwnedAppend(AllResponses(s), Own(n));
      if IsComp(n.kind) { assert AllResponses(s') == AllResponses(s) + [Own(n)]; }
      assert Comps(s.executed) + [] == Comps(s.executed);
    }
  }

  lemma WorkInv(s: State)
    requires Inv(s) && Enabled(s, Work)
    ensures Inv(WorkStep(s))
  {
    hide Comps, Owned, Count, Ordered, Tallied;
    WorkOrdered(s);
    WorkTallied(s);
    WorkResponses(s);
  }

  lemma CountFirst(q: seq<Node>, t: JobType)
    requires q != []
    ensures Count(q, t) == (if q[0].kind == t then 1 else 0) + Count(q[1..], t)
  {}

  lemma GoOrdered(s: State, i: nat)
    requires Ordered(s) && Enabled(s, Go(i))
    ensures Ordered(ThreadStep(s, i))
  {
    hide Bump;
    if s.threads[i].SubmitLocked? {
      var n := Node(|s.submitted|, s.threads[i].kind);
      assert s.removed + (s.queue + [n]) == s.submitted + [n];
    }
  }

  lemma GoTallied(s: State, i: nat)
    requires Exclusive(s) && Tallied(s) && Enabled(s, Go(i))
    ensures Tallied(ThreadStep(s, i))
  {
    hide Count;
    var s' := ThreadStep(s, i);
    forall t ensures t in s'.counter && s'.counter[t] == Count(s'.queue, t) + Owed(s', t) {
      assert t in s.counter && s.counter[t] == Count(s.queue, t) + Owed(s, t);
      if s.threads[i].SubmitLocked? { CountAppend(s.queue, Node(|s.submitted|, s.threads[i].kind), t); }
    }
  }

  lemma GoInv(s: State, i: nat)
    requires Inv(s) && Enabled(s, Go(i))
    ensures Inv(ThreadStep(s, i))
  {
    hide Comps, Owned, Count, Ordered, Tallied;
    GoOrdered(s, i);
    GoTallied(s, i);
  }

  lemma SignalInv(s: State, s1: State, h: Holder)
    requires Inv(s) && (h == NoOne || IsWaiting(s, h))
    requires || (s.worker.Counted? && s1 == s.(worker := Top))
             || (s1 == s)
             || (exists i :: 0 <= i < |s.threads| && s.threads[i].SubmitCounted? && s1 == Put(s, i, SubmitSignalled))
    ensures Inv(Wake(s1, h))
  {
    hide Comps, Owned, Count;
    assert Inv(s1);
    WakeInv(s1, h);
  }

  lemma CallInv(s: State, i: nat, pc: ThreadPc)
    requires Inv(s) && i < |s.threads| && s.threads[i].Idle?
    requires pc.Submit? || pc.Pending? || (pc.Drain? && pc.goal == |s.submitted|)
    ensures Inv(Put(s, i, pc))
  {
    hide Comps, Owned, Count, Ordered;
    assert Ordered(Put(s, i, pc)) by { OrderedSame(s, Put(s, i, pc)); }
  }

  lemma OrderedSame(s: State, s': State)
    requires Ordered(s) && s'.submitted == s.submitted && s'.queue == s.queue && s'.removed == s.removed
    requires s'.worker == s.worker && s'.executed == s.executed
    ensures Ordered(s')
  {}

  lemma StepInv(s: State, e: Event)
    requires Inv(s) && Enabled(s, e)
    ensures Inv(Step(s, e))
  {
    hide Comps, Owned, Count, Ordered, Tallied, Exclusive;
    match e
    case Work => WorkInv(s);
    case Go(i) => GoInv(s, i);
    case WorkSignal(h) => SignalInv(s, s.(worker := Top), h);
    case GoSignal(i, h) => SignalInv(s, Put(s, i, SubmitSignalled), h);
    case Spurious(h) => SignalInv(s, s, h);
    case CallSubmit(i, kind) => CallInv(s, i, Submit(kind));
    case CallDrain(i) => CallInv(s, i, Drain(|s.submitted|));
    case CallPending(i, kind) => CallInv(s, i, Pending(kind));
    case OtherWorker(_) => ResponseInv(s, e);
    case Take => ResponseInv(s, e);
    case Call => ResponseInv(s, e);
  }

  lemma ResponseInv(s: State, e: Event)
    requires Inv(s) && Enabled(s, e) && (e.OtherWorker? || e.Take? || e.Call?)
    ensures Inv(Step(s, e))
  {
    hide Comps, Owned, Count;
    if e.OtherWorker? {
      OwnedAppend(AllResponses(s), Foreign(e.tag));
      assert AllResponses(Step(s, e)) == AllResponses(s) + [Foreign(e.tag)];
      assert Owned(AllResponses(s)) + [] == Owned(AllResponses(s));
    } else {
      assert AllResponses(Step(s, e)) == AllResponses(s);
    }
  }

  // ----- Every run -----

  ghost predicate Admissible(s: State, es: seq<Event>)
    decreases es
  {
    es == [] || (Enabled(s, es[0]) && Admissible(Step(s, es[0]), es[1..]))
  }

  ghost function After(s: State, es: seq<Event>): (s': State)
    requires Admissible(s, es)
    decreases es
  {
    if es == [] then s else After(Step(s, es[0]), es[1..])
  }

  lemma {:induction false} RunInv(s: State, es: seq<Event>)
    requires Inv(s) && Admissible(s, es)
    ensures Inv(After(s, es))
    decreases es
  {
    hide Inv, Step, Enabled;
    if es != [] {
      StepInv(s, es[0]);
      RunInv(Step(s, es[0]), es[1..]);
    }
  }

  /** Jobs are done in submission order, each once; the one in flight is the queue's head and the next in line. */
  lemma JobsRunInOrder(n: nat, es: seq<Event>)
    requires Admissible(Init(n), es)
    ensures var s := After(Init(n), es);
            && s.executed <= s.submitted
            && (InFlight(s.worker) ==> s.queue != [] && s.queue[0] == s.worker.n)
            && (s.worker.Running? ==> |s.executed| < |s.submitted| && s.worker.n == s.submitted[|s.executed|])
  {
    InitInv(n);
    RunInv(Init(n), es);
    var s := After(Init(n), es);
    hide Exclusive, Tallied, Goals, Owned, Comps, Admissible, After;
    assert s.submitted == s.removed + s.queue;
    if s.queue != [] { assert s.queue == [s.queue[0]] + s.queue[1..]; }
  }

  // ----- The three workers -----

  /** The jobs of each worker. */
  predicate Handles(w: WorkerId, t: JobType) {
    match w
    case CloseFileWorker => t.CloseFile? || t.CompCloseFile?
    case AofWorker => t.AofFsync? || t.CloseAof? || t.CompAofFsync?
    case LazyFreeWorker => t.LazyFree? || t.CompLazyFree?
  }

  /** A run of worker `w`: bioSubmitJob gives it the jobs that map to it. */
  ghost predicate RunOf(w: WorkerId, n: nat, es: seq<Event>) {
    Admissible(Init(n), es) && RoutedTo(w, es)
  }

  predicate RoutedTo(w: WorkerId, es: seq<Event>) {
    forall k :: 0 <= k < |es| && es[k].CallSubmit? ==> WorkerOf(es[k].kind) == w
  }

  predicate Brings(pc: ThreadPc) { pc.Submit? || pc.SubmitLocked? || pc.SubmitAdded? }

  ghost predicate OwnJobs(w: WorkerId, s: State) {
    && (forall k :: 0 <= k < |s.submitted| ==> Handles(w, s.submitted[k].kind))
    && (forall i :: 0 <= i < |s.threads| && Brings(s.threads[i]) ==> Handles(w, s.threads[i].kind))
  }

  lemma OwnJobsGo(w: WorkerId, s: State, i: nat)
    requires OwnJobs(w, s) && Enabled(s, Go(i))
    ensures OwnJobs(w, ThreadStep(s, i))
  {
    hide Handles, Bump;
  }

  lemma OwnJobsWake(w: WorkerId, s: State, h: Holder)
    requires OwnJobs(w, s)
    ensures OwnJobs(w, Wake(s, h))
  {
    hide Handles;
  }

  lemma OwnJobsPut(w: WorkerId, s: State, i: nat, pc: ThreadPc)
    requires OwnJobs(w, s) && i < |s.threads| && (Brings(pc) ==> Handles(w, pc.kind))
    ensures OwnJobs(w, Put(s, i, pc))
  {
    hide Handles;
  }

  lemma OwnJobsStep(w: WorkerId, s: State, e: Event)
    requires OwnJobs(w, s) && Enabled(s, e) && (e.CallSubmit? ==> WorkerOf(e.kind) == w)
    ensures OwnJobs(w, Step(s, e))
  {
    hide MayWake, IsWaiting, Delete, Bump, ThreadStep, Put, Wake;
    match e
    case WorkSignal(h) => OwnJobsWake(w, s.(worker := Top), h);
    case Spurious(h) => OwnJobsWake(w, s, h);
    case CallSubmit(i, kind) => OwnJobsPut(w, s, i, Submit(kind));
    case CallDrain(i) => OwnJobsPut(w, s, i, Drain(|s.submitted|));
    case CallPending(i, kind) => OwnJobsPut(w, s, i, Pending(kind));
    case Go(i) => OwnJobsGo(w, s, i);
    case GoSignal(i, h) =>
      OwnJobsPut(w, s, i, SubmitSignalled);
      OwnJobsWake(w, Put(s, i, SubmitSignalled), h);
    case _ =>
  }

  lemma {:induction false} OwnJobsRun(w: WorkerId, s: State, es: seq<Event>)
    requires OwnJobs(w, s) && Admissible(s, es) && RoutedTo(w, es)
    ensures OwnJobs(w, After(s, es))
    decreases es
  {
    hide OwnJobs, Step, Enabled, WorkerOf;
    if es != [] {
      OwnJobsStep(w, s, es[0]);
      OwnJobsRun(w, Step(s, es[0]), es[1..]);
    }
  }

  /**
   * Whatever the workers do meanwhile, an AOF file is never closed before an fsync submitted
   * earlier is done: both wait in one queue, and its jobs are done in order.
   */
  lemma FsyncBeforeClose(n: nat, w: WorkerId, es: seq<Event>, a: nat, u: WorkerId, fs: seq<Event>, b: nat)
    requires RunOf(w, n, es) && RunOf(u, n, fs) && (w == u ==> es == fs)
    requires a < |After(Init(n), es).submitted| && After(Init(n), es).submitted[a].kind.AofFsync?
    requires b < |After(Init(n), fs).submitted| && After(Init(n), fs).submitted[b].kind.CloseAof?
    ensures w == u == AofWorker
    ensures var s := After(Init(n), es);
            a < b < |s.executed| ==> s.executed[a] == s.submitted[a] && s.executed[b] == s.submitted[b]
  {
    hide Admissible, After, RoutedTo;
    OwnJobsRun(w, Init(n), es);
    OwnJobsRun(u, Init(n), fs);
    JobsRunInOrder(n, es);
  }

  /** Whenever the mutex is free, each counter is the number of queued jobs of its type. */
  lemma CountersMatchQueue(n: nat, es: seq<Event>, t: JobType)
    requires Admissible(Init(n), es) && After(Init(n), es).mutex == NoOne
    ensures var s := After(Init(n), es); t in s.counter && s.counter[t] == Count(s.queue, t)
  {
    InitInv(n);
    RunInv(Init(n), es);
    hide Admissible, After, Count;
  }

  /** A drain call returns exactly if every job is done and gone, among them all that were there at the call. */
  lemma DrainReturnsWhenDone(n: nat, es: seq<Event>, i: nat)
    requires Admissible(Init(n), es) && i < |After(Init(n), es).threads|
    requires After(Init(n), es).threads[i].DrainTop?
    ensures var s := After(Init(n), es);
            var done := ThreadStep(s, i).threads[i].Idle?;
            && (done <==> s.removed == s.submitted)
            && (done ==> s.executed == s.submitted && s.threads[i].goal <= |s.executed|)
  {
    InitInv(n);
    RunInv(Init(n), es);
    var s := After(Init(n), es);
    hide Admissible, After, Count, Comps, Owned, Tallied;
    assert |s.submitted| == |s.removed| + |s.queue|;
  }

  lemma {:induction false} OwnedHas(rs: seq<Response>, n: Node)
    requires Own(n) in rs
    ensures n in Owned(rs)
  {
    var k := |rs| - 1;
    if rs[k] != Own(n) {
      assert Own(n) in rs[..k];
      OwnedHas(rs[..k], n);
    }
  }

  lemma {:induction false} CompsHas(ns: seq<Node>, n: Node)
    requires n in Comps(ns)
    ensures n in ns && IsComp(n.kind)
  {
    var k := |ns| - 1;
    if n in Comps(ns[..k]) { CompsHas(ns[..k], n); }
  }

  /**
   * A completion response, wherever it is by then, appears only after every job submitted to the
   * worker before its request is done. Responses of the worker are exactly its finished requests,
   * once each and in order, none lost on the way to the callbacks.
   */
  lemma ResponseAfterEarlierJobs(n: nat, es: seq<Event>, r: Node)
    requires Admissible(Init(n), es) && Own(r) in AllResponses(After(Init(n), es))
    ensures var s := After(Init(n), es);
            && s.executed <= s.submitted && r.id < |s.executed| && s.executed[r.id] == r && IsComp(r.kind)
            && s.executed[..r.id] == s.submitted[..r.id]
            && Owned(AllResponses(s)) == Comps(s.executed)
  {
    InitInv(n);
    RunInv(Init(n), es);
    JobsRunInOrder(n, es);
    var s := After(Init(n), es);
    hide Admissible, After, Count, Comps, Owned, Tallied, Exclusive, AllResponses;
    OwnedHas(AllResponses(s), r);
    CompsHas(s.executed, r);
    var k :| 0 <= k < |s.executed| && s.executed[k] == r;
    assert s.submitted[k] == r;
  }

  // ----- Wake-ups -----

  /** A job or a draining thread waits for the worker, the worker sleeps, and nobody is on the way to wake it. */
  predicate Stuck(s: State) {
    && s.worker.Waiting?
    && (s.queue != [] || exists i :: 0 <= i < |s.threads| && s.threads[i].DrainWaiting?)
    && forall i :: 0 <= i < |s.threads| ==> s.threads[i].Idle? || s.threads[i].DrainWaiting?
  }

  /** Only the first `k` threads drain; all of them may submit. */
  predicate DrainedBy(es: seq<Event>, k: nat) { forall j :: 0 <= j < |es| && es[j].CallDrain? ==> es[j].i < k }

  predicate Drains(pc: ThreadPc) { pc.Drain? || pc.DrainTop? || pc.DrainWaiting? || pc.DrainWoken? }

  predicate Submitting(s: State) {
    s.mutex.Thread? && s.mutex.i < |s.threads| && (s.threads[s.mutex.i].SubmitAdded? || s.threads[s.mutex.i].SubmitCounted?)
  }

  /** With one draining thread, a sleeper whose condition has come true is about to be signalled. */
  predicate Awake(s: State) {
    && (forall i :: 0 < i < |s.threads| ==> !Drains(s.threads[i]))
    && (s.worker.Waiting? && s.queue != [] ==> Submitting(s))
    && (|s.threads| > 0 && s.threads[0].DrainWaiting? ==>
          !s.worker.Waiting? && (s.queue != [] || s.worker.Deleted? || s.worker.Counted?))
  }

  lemma AwakeStep(s: State, e: Event)
    requires Exclusive(s) && Awake(s) && Enabled(s, e) && (e.CallDrain? ==> e.i == 0)
    requires InFlight(s.worker) ==> s.queue != []
    ensures Awake(Step(s, e))
  {
    hide Count;
    match e
    case Work => AwakeWork(s);
    case WorkSignal(h) => AwakeWorkSignal(s, h);
    case GoSignal(i, h) => AwakeGoSignal(s, i, h);
    case Go(i) => AwakeGo(s, i);
    case _ =>
  }

  lemma AwakeWork(s: State)
    requires Exclusive(s) && Awake(s) && Enabled(s, Work) && (InFlight(s.worker) ==> s.queue != [])
    ensures Awake(WorkStep(s))
  {
    hide Count;
  }

  lemma AwakeWorkSignal(s: State, h: Holder)
    requires Exclusive(s) && Awake(s) && Enabled(s, WorkSignal(h))
    ensures Awake(Wake(s.(worker := Top), h))
  {
    OneWaits(s);
    assert |s.threads| > 0 && IsWaiting(s, Thread(0)) ==> h == Thread(0);
  }

  lemma AwakeGoSignal(s: State, i: nat, h: Holder)
    requires Exclusive(s) && Awake(s) && Enabled(s, GoSignal(i, h))
    ensures Awake(Wake(Put(s, i, SubmitSignalled), h))
  {
    OneWaits(s);
    assert IsWaiting(s, TheWorker) ==> h == TheWorker;
    var s' := Put(s, i, SubmitSignalled);
    assert forall j :: 0 <= j < |s.threads| && j != i ==> s'.threads[j] == s.threads[j];
  }

  lemma OneWaits(s: State)
    requires Awake(s)
    ensures forall h :: IsWaiting(s, h) ==> h == TheWorker || h == Thread(0)
    ensures !(IsWaiting(s, TheWorker) && IsWaiting(s, Thread(0)))
  {}

  lemma AwakeGo(s: State, i: nat)
    requires Exclusive(s) && Awake(s) && Enabled(s, Go(i))
    ensures Awake(ThreadStep(s, i))
  {
    var s' := ThreadStep(s, i);
    assert forall j :: 0 <= j < |s.threads| && j != i ==> s'.threads[j] == s.threads[j];
  }

  lemma {:induction false} AwakeRun(s: State, es: seq<Event>)
    requires Inv(s) && Awake(s) && Admissible(s, es) && DrainedBy(es, 1)
    ensures Awake(After(s, es)) && Inv(After(s, es))
    decreases es
  {
    if es != [] {
      assert Exclusive(s) && (InFlight(s.worker) ==> s.queue != []);
      hide Inv, Step, Enabled, Awake, Exclusive;
      StepInv(s, es[0]);
      AwakeStep(s, es[0]);
      assert forall j :: 0 <= j < |es[1..]| ==> es[1..][j] == es[j + 1];
      AwakeRun(Step(s, es[0]), es[1..]);
    }
  }

  lemma AwakeNotStuck(s: State)
    requires Exclusive(s) && Awake(s)
    ensures !Stuck(s)
  {}

  /** What matters of a state in which only threads 0 and 1 do anything. */
  predicate Scene(s: State, mutex: Holder, queue: seq<Node>, worker: WorkerPc, t0: ThreadPc, t1: ThreadPc, jobs: nat) {
    && |s.threads| >= 2 && s.mutex == mutex && s.queue == queue && s.worker == worker && |s.submitted| == jobs
    && s.threads[0] == t0 && s.threads[1] == t1 && forall i :: 2 <= i < |s.threads| ==> s.threads[i].Idle?
  }

  lemma {:induction false} RunExtends(s: State, es: seq<Event>, e: Event)
    requires Admissible(s, es) && Enabled(After(s, es), e)
    ensures Admissible(s, es + [e]) && After(s, es + [e]) == Step(After(s, es), e)
    decreases es
  {
    hide Step, Enabled;
    if es == [] {
      assert es + [e] == [e];
      assert [e][1..] == [];
    } else {
      assert (es + [e])[1..] == es[1..] + [e];
      RunExtends(Step(s, es[0]), es[1..], e);
    }
  }

  lemma Act(s0: State, es: seq<Event>, s: State, e: Event) returns (es': seq<Event>, s': State)
    requires Admissible(s0, es) && s == After(s0, es) && Enabled(s, e) && DrainedBy(es, 2) && (e.CallDrain? ==> e.i < 2)
    ensures Admissible(s0, es') && s' == After(s0, es') == Step(s, e) && DrainedBy(es', 2)
  {
    hide Admissible, After, Step, Enabled;
    RunExtends(s0, es, e);
    es', s' := es + [e], Step(s, e);
  }

  /** The worker sleeps; thread 0 submits a job, and the worker is woken. */
  lemma OneJobQueued(s0: State, es: seq<Event>) returns (es': seq<Event>)
    requires Admissible(s0, es) && DrainedBy(es, 2) && s0 == After(s0, es) && Scene(s0, NoOne, [], Starting, Idle, Idle, 0)
    ensures Admissible(s0, es') && DrainedBy(es', 2) && Scene(After(s0, es'), NoOne, [Node(0, LazyFree)], Woken, Idle, Idle, 1)
  {
    hide Admissible, After, DrainedBy;
    es' := es;
    var s := After(s0, es);
    es', s := Act(s0, es', s, Work);
    assert Scene(s, TheWorker, [], Top, Idle, Idle, 0);
    es', s := Act(s0, es', s, Work);
    assert Scene(s, NoOne, [], Waiting, Idle, Idle, 0);
    es', s := Act(s0, es', s, CallSubmit(0, LazyFree));
    assert Scene(s, NoOne, [], Waiting, Submit(LazyFree), Idle, 0);
    es', s := Act(s0, es', s, Go(0));
    assert Scene(s, Thread(0), [], Waiting, SubmitLocked(LazyFree), Idle, 0);
    es', s := Act(s0, es', s, Go(0));
    assert Scene(s, Thread(0), [Node(0, LazyFree)], Waiting, SubmitAdded(LazyFree), Idle, 1);
    es', s := Act(s0, es', s, Go(0));
    assert Scene(s, Thread(0), [Node(0, LazyFree)], Waiting, SubmitCounted, Idle, 1);
    es', s := Act(s0, es', s, GoSignal(0, TheWorker));
    assert Scene(s, Thread(0), [Node(0, LazyFree)], Woken, SubmitSignalled, Idle, 1);
    es', s := Act(s0, es', s, Go(0));
    assert Scene(s, NoOne, [Node(0, LazyFree)], Woken, Idle, Idle, 1);
  }

  /** Both threads drain and sleep before the worker gets the lock. */
  lemma BothDrain(s0: State, es: seq<Event>) returns (es': seq<Event>)
    requires Admissible(s0, es) && DrainedBy(es, 2) && Scene(After(s0, es), NoOne, [Node(0, LazyFree)], Woken, Idle, Idle, 1)
    ensures Admissible(s0, es') && DrainedBy(es', 2) && Scene(After(s0, es'), NoOne, [Node(0, LazyFree)], Woken, DrainWaiting(1), DrainWaiting(1), 1)
  {
    hide Admissible, After, DrainedBy;
    es' := es;
    var s := After(s0, es);
    es', s := Act(s0, es', s, CallDrain(0));
    assert Scene(s, NoOne, [Node(0, LazyFree)], Woken, Drain(1), Idle, 1);
    es', s := Act(s0, es', s, Go(0));
    assert Scene(s, Thread(0), [Node(0, LazyFree)], Woken, DrainTop(1), Idle, 1);
    es', s := Act(s0, es', s, Go(0));
    assert Scene(s, NoOne, [Node(0, LazyFree)], Woken, DrainWaiting(1), Idle, 1);
    es', s := Act(s0, es', s, CallDrain(1));
    assert Scene(s, NoOne, [Node(0, LazyFree)], Woken, DrainWaiting(1), Drain(1), 1);
    es', s := Act(s0, es', s, Go(1));
    assert Scene(s, Thread(1), [Node(0, LazyFree)], Woken, DrainWaiting(1), DrainTop(1), 1);
    es', s := Act(s0, es', s, Go(1));
    assert Scene(s, NoOne, [Node(0, LazyFree)], Woken, DrainWaiting(1), DrainWaiting(1), 1);
  }

  /** The worker does the job, wakes only thread 0 and sleeps; the other drain goes on waiting for an empty queue. */
  lemma OneIsWoken(s0: State, es: seq<Event>) returns (es': seq<Event>)
    requires Admissible(s0, es) && DrainedBy(es, 2) && Scene(After(s0, es), NoOne, [Node(0, LazyFree)], Woken, DrainWaiting(1), DrainWaiting(1), 1)
    ensures Admissible(s0, es') && DrainedBy(es', 2) && Scene(After(s0, es'), NoOne, [], Waiting, Idle, DrainWaiting(1), 1)
  {
    hide Admissible, After, DrainedBy;
    es' := es;
    var s := After(s0, es);
    es', s := Act(s0, es', s, Work);
    assert Scene(s, TheWorker, [Node(0, LazyFree)], Top, DrainWaiting(1), DrainWaiting(1), 1);
    es', s := Act(s0, es', s, Work);
    assert Scene(s, NoOne, [Node(0, LazyFree)], Running(Node(0, LazyFree)), DrainWaiting(1), DrainWaiting(1), 1);
    es', s := Act(s0, es', s, Work);
    assert Scene(s, NoOne, [Node(0, LazyFree)], Finished(Node(0, LazyFree)), DrainWaiting(1), DrainWaiting(1), 1);
    es', s := Act(s0, es', s, Work);
    assert Scene(s, TheWorker, [Node(0, LazyFree)], Locked(Node(0, LazyFree)), DrainWaiting(1), DrainWaiting(1), 1);
    es', s := Act(s0, es', s, Work);
    assert Scene(s, TheWorker, [], Deleted(Node(0, LazyFree)), DrainWaiting(1), DrainWaiting(1), 1);
    es', s := Act(s0, es', s, Work);
    assert Scene(s, TheWorker, [], Counted, DrainWaiting(1), DrainWaiting(1), 1);
    es', s := Act(s0, es', s, WorkSignal(Thread(0)));
    assert Scene(s, TheWorker, [], Top, DrainWoken(1), DrainWaiting(1), 1);
    es', s := Act(s0, es', s, Work);
    assert Scene(s, NoOne, [], Waiting, DrainWoken(1), DrainWaiting(1), 1);
    es', s := Act(s0, es', s, Go(0));
    assert Scene(s, Thread(0), [], Waiting, DrainTop(1), DrainWaiting(1), 1);
    es', s := Act(s0, es', s, Go(0));
    assert Scene(s, NoOne, [], Waiting, Idle, DrainWaiting(1), 1);
  }

  /** The signal of a new job wakes the draining thread, which sleeps again; the worker never wakes. */
  lemma SignalGoesAstray(s0: State, es: seq<Event>) returns (es': seq<Event>)
    requires Admissible(s0, es) && DrainedBy(es, 2) && Scene(After(s0, es), NoOne, [], Waiting, Idle, DrainWaiting(1), 1)
    ensures Admissible(s0, es') && DrainedBy(es', 2) && Scene(After(s0, es'), NoOne, [Node(1, LazyFree)], Waiting, Idle, DrainWaiting(1), 2)
  {
    hide Admissible, After, DrainedBy;
    es' := es;
    var s := After(s0, es);
    es', s := Act(s0, es', s, CallSubmit(0, LazyFree));
    assert Scene(s, NoOne, [], Waiting, Submit(LazyFree), DrainWaiting(1), 1);
    es', s := Act(s0, es', s, Go(0));
    assert Scene(s, Thread(0), [], Waiting, SubmitLocked(LazyFree), DrainWaiting(1), 1);
    es', s := Act(s0, es', s, Go(0));
    assert Scene(s, Thread(0), [Node(1, LazyFree)], Waiting, SubmitAdded(LazyFree), DrainWaiting(1), 2);
    es', s := Act(s0, es', s, Go(0));
    assert Scene(s, Thread(0), [Node(1, LazyFree)], Waiting, SubmitCounted, DrainWaiting(1), 2);
    es', s := Act(s0, es', s, GoSignal(0, Thread(1)));
    assert Scene(s, Thread(0), [Node(1, LazyFree)], Waiting, SubmitSignalled, DrainWoken(1), 2);
    es', s := Act(s0, es', s, Go(0));
    assert Scene(s, NoOne, [Node(1, LazyFree)], Waiting, Idle, DrainWoken(1), 2);
    es', s := Act(s0, es', s, Go(1));
    assert Scene(s, Thread(1), [Node(1, LazyFree)], Waiting, Idle, DrainTop(1), 2);
    es', s := Act(s0, es', s, Go(1));
    assert Scene(s, NoOne, [Node(1, LazyFree)], Waiting, Idle, DrainWaiting(1), 2);
  }

  /**
   * However many threads submit, no wake-up is ever lost if and only if at most one thread drains:
   * with two, the condition variable they share with the worker can leave a job queued and everyone
   * asleep.
   */
  lemma NeverStuckExactly(n: nat, k: nat)
    ensures (forall es :: Admissible(Init(n), es) && DrainedBy(es, k) ==> !Stuck(After(Init(n), es))) <==> k <= 1 || n <= 1
  {
    InitInv(n);
    hide Inv;
    if k <= 1 || n <= 1 {
      forall es | Admissible(Init(n), es) && DrainedBy(es, k) ensures !Stuck(After(Init(n), es)) {
        if k > 1 { FewThreads(Init(n), es); }
        AwakeRun(Init(n), es);
        ExclusiveInv(After(Init(n), es));
        AwakeNotStuck(After(Init(n), es));
      }
    } else {
      var es := StuckRun(n);
      assert Admissible(Init(n), es) && DrainedBy(es, k) && Stuck(After(Init(n), es));
    }
  }

  lemma ExclusiveInv(s: State)
    requires Inv(s)
    ensures Exclusive(s)
  {}

  lemma SameThreads(s: State, e: Event)
    requires Enabled(s, e)
    ensures |Step(s, e).threads| == |s.threads| && (e.CallDrain? ==> e.i < |s.threads|)
  {
    hide Count, Delete, Bump, MayWake, IsWaiting;
    match e
    case Work => hide Put, ThreadStep, Wake;
    case WorkSignal(h) => hide WorkStep, ThreadStep;
    case Spurious(h) => hide WorkStep, ThreadStep;
    case Go(i) => hide WorkStep, Wake;
    case GoSignal(i, h) => hide WorkStep, ThreadStep;
    case _ => hide WorkStep, ThreadStep, Wake;
  }

  /** Only a thread that exists can drain. */
  lemma {:induction false} FewThreads(s: State, es: seq<Event>)
    requires Admissible(s, es) && |s.threads| <= 1
    ensures DrainedBy(es, 1)
    decreases es
  {
    if es != [] {
      SameThreads(s, es[0]);
      hide Step, Enabled;
      FewThreads(Step(s, es[0]), es[1..]);
      assert forall j :: 1 <= j < |es| ==> es[j] == es[1..][j - 1];
    }
  }

  lemma StuckRun(n: nat) returns (es: seq<Event>)
    requires n >= 2
    ensures Admissible(Init(n), es) && DrainedBy(es, 2) && Stuck(After(Init(n), es))
  {
    hide *;
    var s0 := Init(n);
    es := [];
    StartScene(n);
    es := OneJobQueued(s0, es);
    es := BothDrain(s0, es);
    es := OneIsWoken(s0, es);
    es := SignalGoesAstray(s0, es);
    SceneStuck(After(s0, es));
  }

  lemma StartScene(n: nat)
    requires n >= 2
    ensures Scene(Init(n), NoOne, [], Starting, Idle, Idle, 0)
    ensures Admissible(Init(n), []) && After(Init(n), []) == Init(n) && DrainedBy([], 2)
  {}

  lemma SceneStuck(s: State)
    requires Scene(s, NoOne, [Node(1, LazyFree)], Waiting, Idle, DrainWaiting(1), 2)
    ensures Stuck(s)
  {}
}
