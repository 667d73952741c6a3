/**
  server/src/lib.rs: a fixed-size pool of workers fed through a channel.

  This is a sequential abstraction. The channel is a FIFO queue of messages.
  A job is known only by a ticket number. Each worker's thread is either
  still looping or has left its loop, and its `Option<JoinHandle>` slot is
  taken at most once. Joining a worker runs that worker's loop until it
  receives `Terminate`; no other worker moves while the pool waits for it.
  What happened is recorded as a log of events, in order.
*/
module Server {
  import opened Wrappers

  /** A boxed closure, known by a ticket number. */
  datatype Job = Job(ticket: nat)

  datatype Message = NewJob(job: Job) | Terminate

  /** The handle `thread::spawn` returned for the worker with this id. */
  datatype JoinHandle = JoinHandle(thread: nat)

  datatype Worker = Worker(id: nat, thread: Option<JoinHandle>)

  datatype Event =
    | Sent(message: Message)
    | Ran(worker: nat, job: Job)
    | Stopped(worker: nat)
    | Joined(worker: nat)

  /** What one pass of a worker's `loop` did. */
  datatype StepOutcome = WouldBlock | RanJob(job: Job) | Exited

  /** The event of worker `id` receiving `m`: it runs a job, or leaves its loop. */
  function Handle(id: nat, m: Message): Event
  {
    match m
    case NewJob(job) => Ran(id, job)
    case Terminate => Stopped(id)
  }

  /** The events of worker `id` receiving the messages `q`, in order. */
  function Handled(id: nat, q: seq<Message>): seq<Event>
  {
    if q == [] then [] else Handled(id, q[..|q| - 1]) + [Handle(id, q[|q| - 1])]
  }

  lemma {:induction false} HandledAt(id: nat, q: seq<Message>)
    ensures |Handled(id, q)| == |q|
    ensures forall k :: 0 <= k < |q| ==> Handled(id, q)[k] == Handle(id, q[k])
  {
    if q != [] {
      HandledAt(id, q[..|q| - 1]);
    }
  }

  /** Position of the first `Terminate` in `q`, or `|q|` when there is none. */
  function FirstTerminate(q: seq<Message>): (k: nat)
    ensures k <= |q|
    ensures k < |q| ==> q[k] == Terminate
    ensures forall j :: 0 <= j < k ==> q[j].NewJob?
    ensures Terminate in q <==> k < |q|
  {
    if q == [] then 0
    else if q[0] == Terminate then 0
    else 1 + FirstTerminate(q[1..])
  }

  function Terminates(n: nat): seq<Message>
  {
    seq(n, _ => Terminate)
  }

  /** The log of the first loop of `drop`: one `Terminate` sent per worker. */
  function Sends(n: nat): seq<Event>
  {
    seq(n, _ => Sent(Terminate))
  }

  /** The log of the second loop of `drop` over workers 0 to `n - 1`: each leaves its loop and is joined. */
  function Joins(n: nat): seq<Event>
  {
    if n == 0 then [] else Joins(n - 1) + [Stopped(n - 1), Joined(n - 1)]
  }

  lemma {:induction false} JoinsAt(n: nat)
    ensures |Joins(n)| == 2 * n
    ensures forall k :: 0 <= k < n ==> Joins(n)[2 * k] == Stopped(k) && Joins(n)[2 * k + 1] == Joined(k)
  {
    if n > 0 {
      JoinsAt(n - 1);
    }
  }

  /**
    Every worker below `n` is joined, right after it has left its loop, and
    no worker is joined twice: `Joined(i)` appears only at position `2 i + 1`.
  */
  lemma JoinsEachOnce(n: nat, i: nat, k: nat)
    requires k < |Joins(n)| && Joins(n)[k] == Joined(i)
    ensures i < n && k == 2 * i + 1 && Joins(n)[k - 1] == Stopped(i)
  {
    JoinsAt(n);
    assert k == 2 * (k / 2) + k % 2;
    if k % 2 == 1 {
      assert Joins(n)[2 * (k / 2) + 1] == Joined(k / 2);
    }
  }

  /**
    The log `drop` leaves after the jobs still queued, `q`, went to worker 0:
    its first `n` events are the `Terminate` sends, one per worker, and no
    later event is a send, so every `Terminate` is sent before any join.
  */
  lemma DropLogOrder(q: seq<Message>, n: nat)
    ensures var log := Sends(n) + Handled(0, q) + Joins(n);
      forall a :: 0 <= a < |log| ==> (log[a].Sent? <==> a < n) && (a < n ==> log[a] == Sent(Terminate))
  {
    var log := Sends(n) + Handled(0, q) + Joins(n);
    HandledAt(0, q);
    JoinsAt(n);
    forall a | n + |q| <= a < |log| ensures !log[a].Sent? {
      var k := a - n - |q|;
      assert log[a] == Joins(n)[k];
      assert k == 2 * (k / 2) + k % 2;
      if k % 2 == 0 {
        assert Joins(n)[2 * (k / 2)] == Stopped(k / 2);
      } else {
        assert Joins(n)[2 * (k / 2) + 1] == Joined(k / 2);
      }
    }
  }

  /** The jobs `pick` finds in the items of `s`, in order. */
  function Collect<T>(s: seq<T>, pick: T -> seq<Job>): seq<Job>
  {
    if s == [] then [] else Collect(s[..|s| - 1], pick) + pick(s[|s| - 1])
  }

  lemma {:induction false} CollectConcat<T>(a: seq<T>, b: seq<T>, pick: T -> seq<Job>)
    ensures Collect(a + b, pick) == Collect(a, pick) + Collect(b, pick)
    decreases |b|
  {
    if b == [] {
      assert a + b == a;
    } else {
      var b0 := b[..|b| - 1];
      assert (a + b)[..|a + b| - 1] == a + b0;
      assert (a + b)[|a + b| - 1] == b[|b| - 1];
      CollectConcat(a, b0, pick);
    }
  }

  lemma CollectSnoc<T>(s: seq<T>, x: T, pick: T -> seq<Job>)
    ensures Collect(s + [x], pick) == Collect(s, pick) + pick(x)
  {
    assert (s + [x])[..|s|] == s;
  }

  lemma CollectCons<T>(s: seq<T>, pick: T -> seq<Job>)
    requires s != []
    ensures Collect(s, pick) == pick(s[0]) + Collect(s[1..], pick)
  {
    CollectConcat([s[0]], s[1..], pick);
    assert [s[0]] + s[1..] == s;
    assert Collect([s[0]], pick) == Collect([], pick) + pick(s[0]);
  }

  lemma {:induction false} CollectNone<T>(s: seq<T>, pick: T -> seq<Job>)
    requires forall k :: 0 <= k < |s| ==> pick(s[k]) == []
    ensures Collect(s, pick) == []
  {
    if s != [] {
      CollectNone(s[..|s| - 1], pick);
    }
  }

  function SentJobOf(e: Event): seq<Job>
  {
    if e.Sent? && e.message.NewJob? then [e.message.job] else []
  }

  function RanJobOf(e: Event): seq<Job>
  {
    if e.Ran? then [e.job] else []
  }

  function QueuedJobOf(m: Message): seq<Job>
  {
    if m.NewJob? then [m.job] else []
  }

  /** The jobs `execute` sent, as the log records them. */
  function SentJobs(log: seq<Event>): seq<Job>
  {
    Collect(log, SentJobOf)
  }

  /** The jobs some worker ran, as the log records them. */
  function RanJobs(log: seq<Event>): seq<Job>
  {
    Collect(log, RanJobOf)
  }

  /** The jobs waiting in the channel. */
  function JobsIn(queue: seq<Message>): seq<Job>
  {
    Collect(queue, QueuedJobOf)
  }

  /** A worker receiving the messages `q` runs exactly the jobs among them, in order, and sends nothing. */
  lemma {:induction false} HandledRunsQueuedJobs(id: nat, q: seq<Message>)
    ensures RanJobs(Handled(id, q)) == JobsIn(q)
    ensures SentJobs(Handled(id, q)) == []
  {
    if q != [] {
      var q0 := q[..|q| - 1];
      HandledRunsQueuedJobs(id, q0);
      CollectConcat(Handled(id, q0), [Handle(id, q[|q| - 1])], RanJobOf);
      CollectConcat(Handled(id, q0), [Handle(id, q[|q| - 1])], SentJobOf);
    }
  }

  /** The shutdown events of `drop` neither send nor run a job, and `Terminate` messages carry none. */
  lemma ShutDownCarriesNoJobs(n: nat)
    ensures SentJobs(Sends(n)) == [] && RanJobs(Sends(n)) == []
    ensures SentJobs(Joins(n)) == [] && RanJobs(Joins(n)) == []
    ensures JobsIn(Terminates(n)) == []
  {
    CollectNone(Sends(n), SentJobOf);
    CollectNone(Sends(n), RanJobOf);
    CollectNone(Terminates(n), QueuedJobOf);
    JoinsAt(n);
    forall k | 0 <= k < |Joins(n)| ensures !Joins(n)[k].Sent? && !Joins(n)[k].Ran? {
      assert k == 2 * (k / 2) + k % 2;
      if k % 2 == 0 {
        assert Joins(n)[2 * (k / 2)] == Stopped(k / 2);
      } else {
        assert Joins(n)[2 * (k / 2) + 1] == Joined(k / 2);
      }
    }
    CollectNone(Joins(n), SentJobOf);
    CollectNone(Joins(n), RanJobOf);
  }

  /**
    Every job sent so far has either been run or is still in the channel,
    exactly once and in the order it was sent: no job is lost and none runs
    twice.
  */
  ghost predicate JobsAccounted(log: seq<Event>, queue: seq<Message>)
  {
    SentJobs(log) == RanJobs(log) + JobsIn(queue)
  }

  /**
    The log `drop` leaves, `log0 + Sends(n) + Handled(0, q) + Joins(n)`,
    sends no job of its own and runs exactly the jobs `q` still held: `drop`
    lets every queued job run before the pool is gone.
  */
  lemma DropRunsQueuedJobs(log0: seq<Event>, q: seq<Message>, n: nat)
    ensures SentJobs(log0 + Sends(n) + Handled(0, q) + Joins(n)) == SentJobs(log0)
    ensures RanJobs(log0 + Sends(n) + Handled(0, q) + Joins(n)) == RanJobs(log0) + JobsIn(q)
  {
    ShutDownCarriesNoJobs(n);
    HandledRunsQueuedJobs(0, q);
    CollectConcat(log0, Sends(n), SentJobOf);
    CollectConcat(log0 + Sends(n), Handled(0, q), SentJobOf);
    CollectConcat(log0 + Sends(n) + Handled(0, q), Joins(n), SentJobOf);
    CollectConcat(log0, Sends(n), RanJobOf);
    CollectConcat(log0 + Sends(n), Handled(0, q), RanJobOf);
    CollectConcat(log0 + Sends(n) + Handled(0, q), Joins(n), RanJobOf);
  }

  /** Sending a message puts its job, if any, both among the jobs sent and in the channel. */
  lemma AccountSend(log: seq<Event>, queue: seq<Message>, m: Message)
    requires JobsAccounted(log, queue)
    ensures JobsAccounted(log + [Sent(m)], queue + [m])
  {
    CollectSnoc(queue, m, QueuedJobOf);
    CollectSnoc(log, Sent(m), SentJobOf);
    CollectSnoc(log, Sent(m), RanJobOf);
    var ran, queued, job := Collect(log, RanJobOf), Collect(queue, QueuedJobOf), QueuedJobOf(m);
    assert SentJobOf(Sent(m)) == job && RanJobOf(Sent(m)) == [];
    assert ran + [] == ran;
    assert (ran + queued) + job == ran + (queued + job);
  }

  /** Receiving the oldest message moves its job, if any, from the channel to the jobs run. */
  lemma AccountReceive(log: seq<Event>, queue: seq<Message>, id: nat)
    requires JobsAccounted(log, queue) && queue != []
    ensures JobsAccounted(log + [Handle(id, queue[0])], queue[1..])
  {
    CollectCons(queue, QueuedJobOf);
    CollectSnoc(log, Handle(id, queue[0]), SentJobOf);
    CollectSnoc(log, Handle(id, queue[0]), RanJobOf);
  }

  /** An event that neither sends nor runs a job keeps the account. */
  lemma AccountOther(log: seq<Event>, queue: seq<Message>, e: Event)
    requires JobsAccounted(log, queue) && !e.Sent? && !e.Ran?
    ensures JobsAccounted(log + [e], queue)
  {
    CollectSnoc(log, e, SentJobOf);
    CollectSnoc(log, e, RanJobOf);
  }

  /** A worker receiving the first `c` messages moves their jobs from the channel to the jobs run. */
  lemma {:induction false} AccountHandled(log: seq<Event>, q: seq<Message>, id: nat, c: nat)
    requires JobsAccounted(log, q) && c <= |q|
    ensures JobsAccounted(log + Handled(id, q[..c]), q[c..])
  {
    if c > 0 {
      AccountHandled(log, q, id, c - 1);
      AccountReceive(log + Handled(id, q[..c - 1]), q[c - 1..], id);
      var h := Handle(id, q[c - 1]);
      assert q[c - 1..][0] == q[c - 1] && q[c - 1..][1..] == q[c..];
      assert q[..c][..c - 1] == q[..c - 1];
      assert Handled(id, q[..c]) == Handled(id, q[..c - 1]) + [h];
      assert log + Handled(id, q[..c]) == (log + Handled(id, q[..c - 1])) + [h];
    } else {
      assert log + Handled(id, q[..0]) == log;
    }
  }

  /** The log and channel `Join` leaves keep the account. */
  lemma AccountJoin(log: seq<Event>, q: seq<Message>, id: nat)
    requires JobsAccounted(log, q) && Terminate in q
    ensures var k := FirstTerminate(q);
      JobsAccounted(log + Handled(id, q[..k]) + [Stopped(id), Joined(id)], q[k + 1..])
  {
    var k := FirstTerminate(q);
    AccountHandled(log, q, id, k);
    AccountReceive(log + Handled(id, q[..k]), q[k..], id);
    assert q[k..][0] == Terminate && q[k..][1..] == q[k + 1..];
    AccountOther(log + Handled(id, q[..k]) + [Stopped(id)], q[k + 1..], Joined(id));
    assert log + Handled(id, q[..k]) + [Stopped(id)] + [Joined(id)] == log + Handled(id, q[..k]) + [Stopped(id), Joined(id)];
  }

  /** Sending one `Terminate` per worker keeps the account. */
  lemma AccountSends(log: seq<Event>, q: seq<Message>, n: nat)
    requires JobsAccounted(log, q)
    ensures JobsAccounted(log + Sends(n), q + Terminates(n))
  {
    ShutDownCarriesNoJobs(n);
    CollectConcat(log, Sends(n), SentJobOf);
    CollectConcat(log, Sends(n), RanJobOf);
    CollectConcat(q, Terminates(n), QueuedJobOf);
  }

  /**
    What `drop` leaves, from a pool whose account was kept: every job sent
    has been run, exactly once, and the jobs run during `drop` are exactly
    those that were still queued.
  */
  lemma DropAccount(log0: seq<Event>, q: seq<Message>, n: nat)
    requires JobsAccounted(log0, q)
    ensures var log := log0 + Sends(n) + Handled(0, q) + Joins(n);
      && JobsAccounted(log, [])
      && RanJobs(log) == RanJobs(log0) + JobsIn(q)
      && multiset(RanJobs(log)) == multiset(SentJobs(log))
  {
    DropRunsQueuedJobs(log0, q, n);
    assert JobsIn([]) == [];
  }

  class ThreadPool {
    const workers: array<Worker>
    /** The messages sent and not yet received, oldest first. */
    var queue: seq<Message>
    /** For each worker, whether its thread has left its loop. */
    var stopped: seq<bool>
    var log: seq<Event>

    ghost predicate Valid()
      reads this, workers
    {
      && 0 < workers.Length == |stopped|
      && forall i :: 0 <= i < workers.Length ==> workers[i].id == i
    }

    /** Every job sent has been run or is still queued, exactly once. */
    ghost predicate Accounted()
      reads this
    {
      JobsAccounted(log, queue)
    }

    /** Every thread running and owned by its worker, and no `Terminate` sent. */
    ghost predicate Running()
      reads this, workers
    {
      && Valid()
      && Terminate !in queue
      && forall i :: 0 <= i < workers.Length ==> workers[i].thread == Some(JoinHandle(i)) && !stopped[i]
    }

    /** The pool while it serves: running, with every job sent run or queued exactly once. */
    ghost predicate Serving()
      reads this, workers
    {
      Running() && Accounted()
    }

    /** `ThreadPool::new`: `size` workers with ids 0 to `size - 1`, each with its own running thread. */
    constructor (size: nat)
      requires size > 0
      ensures Serving() && fresh(workers)
      ensures workers.Length == size
      ensures forall i :: 0 <= i < size ==> workers[i] == Worker(i, Some(JoinHandle(i)))
      ensures queue == [] && log == []
    {
      var ws := new Worker[size];
      for id := 0 to size
        invariant forall i :: 0 <= i < id ==> ws[i] == Worker(i, Some(JoinHandle(i)))
      {
        ws[id] := Worker(id, Some(JoinHandle(id)));
      }
      workers := ws;
      queue := [];
      stopped := seq(size, _ => false);
      log := [];
    }

    /** `execute`: send one `NewJob` to the back of the channel. */
    method Execute(job: Job)
      requires Valid()
      modifies this
      ensures Valid()
      ensures queue == old(queue) + [NewJob(job)]
      ensures stopped == old(stopped)
      ensures log == old(log) + [Sent(NewJob(job))]
      ensures old(Accounted()) ==> Accounted()
      ensures old(Serving()) ==> Serving()
    {
      if Accounted() {
        AccountSend(log, queue, NewJob(job));
      }
      queue := queue + [NewJob(job)];
      log := log + [Sent(NewJob(job))];
    }

    /**
      One pass of the loop in the thread of worker `i`: receive the oldest
      message; run a job and go on, or leave the loop on `Terminate`. An
      empty channel blocks, and a thread that has left its loop does nothing.
    */
    method WorkerStep(i: nat) returns (outcome: StepOutcome)
      requires Valid() && i < workers.Length
      modifies this
      ensures Valid()
      ensures old(stopped[i]) ==> outcome == Exited && queue == old(queue) && stopped == old(stopped) && log == old(log)
      ensures !old(stopped[i]) && old(queue) == [] ==>
        outcome == WouldBlock && queue == old(queue) && stopped == old(stopped) && log == old(log)
      ensures !old(stopped[i]) && old(queue) != [] ==>
        && queue == old(queue)[1..]
        && log == old(log) + [Handle(i, old(queue)[0])]
        && (old(queue)[0].NewJob? ==> outcome == RanJob(old(queue)[0].job) && stopped == old(stopped))
        && (old(queue)[0] == Terminate ==> outcome == Exited && stopped == old(stopped)[i := true])
    {
      if stopped[i] {
        return Exited;
      }
      if queue == [] {
        return WouldBlock;
      }
      var message := queue[0];
      queue := queue[1..];
      match message {
        case NewJob(job) =>
          log := log + [Ran(i, job)];
          outcome := RanJob(job);
        case Terminate =>
          log := log + [Stopped(i)];
          stopped := stopped[i := true];
          outcome := Exited;
      }
    }

    /**
      `JoinHandle::join`: wait until the thread of the worker that `h`
      belongs to has left its loop. That worker receives messages until its
      `Terminate`, which must be in the channel or the wait never ends.
    */
    method Join(h: JoinHandle)
      requires Valid() && h.thread < workers.Length && !stopped[h.thread] && Terminate in queue
      modifies this
      ensures Valid()
      ensures var k := FirstTerminate(old(queue));
        && queue == old(queue)[k + 1..]
        && log == old(log) + Handled(h.thread, old(queue)[..k]) + [Stopped(h.thread), Joined(h.thread)]
        && stopped == old(stopped)[h.thread := true]
    {
      var i := h.thread;
      ghost var q0 := queue;
      ghost var k := FirstTerminate(q0);
      ghost var c := 0;
      var outcome := WouldBlock;
      while outcome != Exited
        invariant Valid()
        invariant c <= k + 1
        invariant queue == q0[c..]
        invariant outcome != Exited ==> c <= k && stopped == old(stopped) && log == old(log) + Handled(i, q0[..c])
        invariant outcome == Exited ==>
          c == k + 1 && stopped == old(stopped)[i := true] && log == old(log) + Handled(i, q0[..k]) + [Stopped(i)]
        decreases k + 1 - c
      {
        assert q0[..c + 1] == q0[..c] + [q0[c]];
        outcome := WorkerStep(i);
        c := c + 1;
      }
      log := log + [Joined(i)];

    }

    /** The first loop of `drop`: one `Terminate` per worker, behind whatever is still queued. */
    method SendTerminates()
      requires Valid()
      modifies this
      ensures Valid()
      ensures queue == old(queue) + Terminates(workers.Length)
      ensures log == old(log) + Sends(workers.Length)
      ensures stopped == old(stopped)
    {
      for s := 0 to workers.Length
        invariant Valid()
        invariant stopped == old(stopped)
        invariant queue == old(queue) + Terminates(s)
        invariant log == old(log) + Sends(s)
      {
        queue := queue + [Terminate];
        log := log + [Sent(Terminate)];
        assert Terminates(s + 1) == Terminates(s) + [Terminate];
        assert Sends(s + 1) == Sends(s) + [Sent(Terminate)];
      }

    }

    /**
      One pass of the second loop of `drop`: take the thread out of worker
      `i`'s slot, leaving `None`, and join it; an empty slot is skipped.
    */
    method ShutDown(i: nat)
      requires Valid() && i < workers.Length
      requires workers[i].thread.Some? ==> workers[i].thread == Some(JoinHandle(i)) && !stopped[i] && Terminate in queue
      modifies this, workers
      ensures Valid()
      ensures workers[i] == Worker(i, None)
      ensures forall j :: 0 <= j < workers.Length && j != i ==> workers[j] == old(workers[j])
      ensures old(workers[i].thread).None? ==> queue == old(queue) && log == old(log) && stopped == old(stopped)
      ensures old(workers[i].thread).Some? ==>
        var k := FirstTerminate(old(queue));
        && queue == old(queue)[k + 1..]
        && log == old(log) + Handled(i, old(queue)[..k]) + [Stopped(i), Joined(i)]
        && stopped == old(stopped)[i := true]
    {
      var slot := workers[i].thread;
      workers[i] := workers[i].(thread := None);
      match slot {
        case Some(h) => Join(h);
        case None =>
      }
    }

    /**
      `Drop::drop`: send one `Terminate` per worker, then shut every worker
      down in order. Every job sent has then been run exactly once, and the
      jobs run during `drop` are exactly those still queued when it began.
    */
    method Drop()
      requires Serving()
      modifies this, workers
      ensures Valid()
      ensures forall i :: 0 <= i < workers.Length ==> workers[i] == Worker(i, None)
      ensures stopped == seq(workers.Length, _ => true)
      ensures queue == []
      ensures log == old(log) + Sends(workers.Length) + Handled(0, old(queue)) + Joins(workers.Length)
      ensures Accounted()
      ensures RanJobs(log) == RanJobs(old(log)) + JobsIn(old(queue))
      ensures multiset(RanJobs(log)) == multiset(SentJobs(log))
    {
      ghost var q0 := queue;
      ghost var log0 := log;
      StopAll();
      DropAccount(log0, q0, workers.Length);
    }

    /**
      The body of `drop`: its first loop, then its second. Worker 0 receives
      the jobs still queued before its `Terminate`; every later worker
      receives its `Terminate` at once.
    */
    method StopAll()
      requires Running()
      modifies this, workers
      ensures Valid()
      ensures forall i :: 0 <= i < workers.Length ==> workers[i] == Worker(i, None)
      ensures stopped == seq(workers.Length, _ => true)
      ensures queue == []
      ensures log == old(log) + Sends(workers.Length) + Handled(0, old(queue)) + Joins(workers.Length)
    {
      var n := workers.Length;
      ghost var q0 := queue;
      ghost var log0 := log;
      SendTerminates();
      ghost var served := log0 + Sends(n) + Handled(0, q0);
      assert FirstTerminate(q0 + Terminates(n)) == |q0| by {
        assert (q0 + Terminates(n))[|q0|] == Terminate;
      }
      // The first pass of the second loop, on worker 0, is written out on its own.
      ShutDown(0);
      assert (q0 + Terminates(n))[..|q0|] == q0;
      assert (q0 + Terminates(n))[|q0| + 1..] == Terminates(n - 1);
      assert log == served + Joins(1);
      ShutDownRest(served);
    }

    /** The remaining passes of the second loop of `drop`, on workers 1 to `n - 1`. */
    method ShutDownRest(ghost served: seq<Event>)
      requires Valid()
      requires workers[0] == Worker(0, None) && stopped[0]
      requires forall j :: 1 <= j < workers.Length ==> workers[j] == Worker(j, Some(JoinHandle(j))) && !stopped[j]
      requires queue == Terminates(workers.Length - 1)
      requires log == served + Joins(1)
      modifies this, workers
      ensures Valid()
      ensures forall i :: 0 <= i < workers.Length ==> workers[i] == Worker(i, None)
      ensures stopped == seq(workers.Length, _ => true)
      ensures queue == []
      ensures log == served + Joins(workers.Length)
    {
      var n := workers.Length;
      for i := 1 to n
        invariant Valid()
        invariant forall j :: 0 <= j < i ==> workers[j] == Worker(j, None) && stopped[j]
        invariant forall j :: i <= j < n ==> workers[j] == Worker(j, Some(JoinHandle(j))) && !stopped[j]
        invariant queue == Terminates(n - i)
        invariant log == served + Joins(i)
      {
        assert queue[0] == Terminate;
        ShutDown(i);
        assert Terminates(n - i)[1..] == Terminates(n - i - 1);
      }
      assert stopped == seq(n, _ => true);
    }
  }
}
