/**
 * The worker pool: a producer leases batches of tasks into a bounded task
 * queue, and workers take one task at a time, sleep, and run the crawl
 * function on it. Each loop body is modelled as one sequential step; the
 * injected hooks are recorded as events instead of being run.
 */
module Workers {
  import opened Wrappers
  import opened Tasks
  import opened Durations

  /** The queue capacity used when the configured one is not positive. */
  const DefaultTasksChanCap := 50

  /** The producer gives up after more than this many consecutive failures. */
  const MaxProducerErrors := 600

  /**
   * The buffered task channel: a first-in first-out ring buffer of fixed
   * capacity. A send to a full channel and a receive from an empty one
   * block; here they come back without effect and say so.
   */
  class TaskQueue {
    ghost var Contents: seq<Task>
    const buf: array<Task>
    var head: nat
    var count: nat

    ghost predicate Valid()
      reads this, buf
    {
      0 < buf.Length && head < buf.Length && count <= buf.Length &&
      Contents == if head + count <= buf.Length then buf[head..head + count]
                  else buf[head..] + buf[..head + count - buf.Length]
    }

    function Capacity(): nat
      reads this
    {
      buf.Length
    }

    constructor (capacity: nat)
      requires 0 < capacity
      ensures Valid() && fresh(buf) && Contents == [] && Capacity() == capacity
    {
      buf := new Task[capacity];
      head, count := 0, 0;
      Contents := [];
    }

    /** A send: it goes through exactly when the queue has free space. */
    method Push(t: Task) returns (ok: bool)
      requires Valid()
      modifies this, buf
      ensures Valid() && Capacity() == old(Capacity())
      ensures ok == (|old(Contents)| < Capacity())
      ensures Contents == if ok then old(Contents) + [t] else old(Contents)
      ensures |Contents| <= Capacity()
    {
      if count == buf.Length {
        return false;
      }
      var tail := if head + count < buf.Length then head + count else head + count - buf.Length;
      buf[tail] := t;
      count := count + 1;
      Contents := Contents + [t];
      ok := true;
    }

    /** A receive: the oldest task, exactly when the queue is not empty. */
    method Pop() returns (t: Option<Task>)
      requires Valid()
      modifies this
      ensures Valid() && Capacity() == old(Capacity())
      ensures old(Contents) == [] ==> t == None && Contents == []
      ensures old(Contents) != [] ==> t == Some(old(Contents)[0]) && Contents == old(Contents)[1..]
    {
      if count == 0 {
        return None;
      }
      t := Some(buf[head]);
      head, count := if head + 1 == buf.Length then 0 else head + 1, count - 1;
      Contents := Contents[1..];
    }
  }

  /** A call the pool makes into code it was given, or a pause it takes. */
  datatype Event =
    | HandlerSleep          // taskHandlerSleepFunc, after "all tasks finished"
    | WorkerSleep           // workerSleepFunc, before each crawl
    | Work(task: Task)      // workerFunc on one task
    | Pause(duration: int)  // the producer's sleep after a failed batch

  /** How one AddTasks call ends. */
  datatype AddOutcome =
    | Added                     // every leased task is queued
    | Failed(error: StoreError) // leasing failed, nothing queued
    | BlockedAfter(sent: nat)   // the queue filled up after sent tasks: the next send blocks

  /** How one turn of the producer loop ends. */
  datatype ProducerOutcome = Exited(code: int) | Continued | Blocked

  /** The queue capacity NewWorkerPool chooses. */
  function ChanCapacity(taskChanCap: int): (c: nat)
    ensures c > 0
    ensures taskChanCap > 0 ==> c == taskChanCap
    ensures taskChanCap <= 0 ==> c == DefaultTasksChanCap
  {
    if taskChanCap <= 0 then DefaultTasksChanCap else taskChanCap
  }

  /** The producer's failure count after one completed AddTasks call. */
  function NextErrCount(count: nat, failed: bool): (c: nat)
    ensures failed ==> c == count + 1
    ensures !failed ==> c == 0
  {
    if failed then count + 1 else 0
  }

  /**
   * The failure count after a run of completed AddTasks calls, starting from
   * zero; failed[i] says whether the i-th call returned an error.
   */
  function ErrCountAfter(failed: seq<bool>): nat
  {
    if failed == [] then 0
    else NextErrCount(ErrCountAfter(failed[..|failed| - 1]), failed[|failed| - 1])
  }

  /** The count is exactly the number of trailing failures. */
  lemma {:induction false} ErrCountIsTrailingFailures(failed: seq<bool>)
    ensures ErrCountAfter(failed) <= |failed|
    ensures forall i :: |failed| - ErrCountAfter(failed) <= i < |failed| ==> failed[i]
    ensures ErrCountAfter(failed) < |failed| ==> !failed[|failed| - 1 - ErrCountAfter(failed)]
  {
    if failed != [] {
      var init := failed[..|failed| - 1];
      ErrCountIsTrailingFailures(init);
      assert forall i :: 0 <= i < |init| ==> init[i] == failed[i];
    }
  }

  /**
   * The producer exits exactly when the last 601 completed calls all failed:
   * one success anywhere in that window keeps it alive.
   */
  lemma ProducerExitsIff(failed: seq<bool>)
    ensures ErrCountAfter(failed) > MaxProducerErrors <==>
      |failed| > MaxProducerErrors &&
      forall i :: |failed| - (MaxProducerErrors + 1) <= i < |failed| ==> failed[i]
  {
    ErrCountIsTrailingFailures(failed);
    var c := ErrCountAfter(failed);
    if c <= MaxProducerErrors && |failed| > MaxProducerErrors {
      assert !failed[|failed| - 1 - c];
    }
  }

  class WorkerPool {
    const workerNum: int
    const taskBatch: int
    /** Declared by the pool but never assigned, so it keeps its zero value. */
    const taskChanCap: int
    const tasksChan: TaskQueue
    /** The producer's consecutive failure count (a local of Run captured by the producer). */
    var producerErrCount: nat
    /** The part of the current batch not yet sent: non-empty while the producer is blocked. */
    var pending: seq<Task>
    /** Every hook call and pause so far, in order. */
    var events: seq<Event>

    ghost predicate Valid()
      reads this, tasksChan, tasksChan.buf
    {
      tasksChan.Valid()
    }

    ghost function Queued(): seq<Task>
      reads this, tasksChan
    {
      tasksChan.Contents
    }

    constructor (workerNum: int, taskBatch: int, taskChanCap: int)
      ensures Valid() && fresh(tasksChan) && fresh(tasksChan.buf)
      ensures this.workerNum == workerNum && this.taskBatch == taskBatch
      ensures this.taskChanCap == 0
      ensures tasksChan.Capacity() == ChanCapacity(taskChanCap)
      ensures Queued() == [] && pending == [] && producerErrCount == 0 && events == []
    {
      this.workerNum := workerNum;
      this.taskBatch := taskBatch;
      this.taskChanCap := 0;
      var capacity := taskChanCap;
      if capacity <= 0 {
        capacity := DefaultTasksChanCap;
      }
      tasksChan := new TaskQueue(capacity);
      producerErrCount := 0;
      pending := [];
      events := [];
    }

    /**
     * Sends the tasks in order until they are all queued or the queue is
     * full, where the next send would block.
     */
    method Enqueue(tasks: seq<Task>) returns (sent: nat)
      requires Valid()
      modifies tasksChan, tasksChan.buf
      ensures Valid() && tasksChan.Capacity() == old(tasksChan.Capacity())
      ensures sent <= |tasks| && Queued() == old(Queued()) + tasks[..sent]
      ensures sent < |tasks| ==> |Queued()| == tasksChan.Capacity()
    {
      sent := 0;
      while sent < |tasks|
        invariant Valid() && tasksChan.Capacity() == old(tasksChan.Capacity())
        invariant sent <= |tasks|
        invariant Queued() == old(Queued()) + tasks[..sent]
        invariant |Queued()| <= tasksChan.Capacity()
        decreases |tasks| - sent
      {
        ghost var before := Queued();
        var ok := tasksChan.Push(tasks[sent]);
        if !ok {
          break;
        }
        assert Queued() == before + [tasks[sent]];
        assert tasks[..sent + 1] == tasks[..sent] + [tasks[sent]];
        sent := sent + 1;
      }
    }

    /**
     * Leases a batch (its outcome is the parameter) and queues it. On "all
     * tasks finished" the idle hook is called exactly once, on any other
     * error it is not, and on either error the queue is untouched. When the
     * queue fills up the producer stays blocked with the rest of the batch
     * pending; no task is lost or reordered.
     */
    method AddTasks(batch: Result<seq<Task>, StoreError>) returns (r: AddOutcome)
      requires Valid() && pending == []
      modifies tasksChan, tasksChan.buf, this
      ensures Valid() && tasksChan.Capacity() == old(tasksChan.Capacity())
      ensures producerErrCount == old(producerErrCount)
      ensures batch.Err? ==> r == Failed(batch.error) && Queued() == old(Queued()) && pending == []
      ensures batch.Err? ==> events == old(events) + (if batch.error == TaskAllFinished then [HandlerSleep] else [])
      ensures batch.Ok? ==>
        events == old(events) && !r.Failed? &&
        Queued() + pending == old(Queued()) + batch.value &&
        (r == Added <==> pending == []) &&
        (pending != [] ==> |Queued()| == tasksChan.Capacity())
    {
      if batch.Err? {
        if batch.error == TaskAllFinished {
          events := events + [HandlerSleep];
        }
        return Failed(batch.error);
      }
      var sent := Enqueue(batch.value);
      pending := batch.value[sent..];
      assert batch.value == batch.value[..sent] + pending;
      if sent < |batch.value| {
        return BlockedAfter(sent);
      }
      return Added;
    }

    /** A blocked producer sends the rest of its batch as space allows. */
    method ResumeAddTasks() returns (done: bool)
      requires Valid() && pending != []
      modifies tasksChan, tasksChan.buf, this
      ensures Valid() && tasksChan.Capacity() == old(tasksChan.Capacity())
      ensures producerErrCount == old(producerErrCount) && events == old(events)
      ensures Queued() + pending == old(Queued()) + old(pending)
      ensures done <==> pending == []
      ensures pending != [] ==> |Queued()| == tasksChan.Capacity()
    {
      var sent := Enqueue(pending);
      assert pending == pending[..sent] + pending[sent..];
      pending := pending[sent..];
      done := pending == [];
    }

    /**
     * One turn of the producer loop. A producer blocked in a send first
     * finishes it, which resets the failure count. Otherwise it gives up
     * with status 1 once more than 600 consecutive failures were counted;
     * else it adds a batch, counting any error (including "all tasks
     * finished") and pausing a second after it, and resetting the count once
     * a batch is fully queued.
     */
    method ProducerStep(batch: Result<seq<Task>, StoreError>) returns (r: ProducerOutcome)
      requires Valid()
      modifies tasksChan, tasksChan.buf, this
      ensures Valid() && tasksChan.Capacity() == old(tasksChan.Capacity())
      ensures r == Continued ==>
        producerErrCount == NextErrCount(old(producerErrCount), old(pending) == [] && batch.Err?)
      ensures r == Blocked ==> producerErrCount == old(producerErrCount)
      ensures pending != [] ==> |Queued()| == tasksChan.Capacity()
      ensures r.Exited? <==> old(pending) == [] && old(producerErrCount) > MaxProducerErrors
      ensures r.Exited? ==> r.code == 1
      ensures r == Blocked <==> pending != []
      ensures old(pending) != [] ==>
        r != Exited(1) && events == old(events) &&
        Queued() + pending == old(Queued()) + old(pending) &&
        (r == Continued <==> pending == [])
      ensures old(pending) == [] && old(producerErrCount) > MaxProducerErrors ==>
        r == Exited(1) && Queued() == old(Queued()) && events == old(events) &&
        pending == [] && producerErrCount == old(producerErrCount)
      ensures old(pending) == [] && old(producerErrCount) <= MaxProducerErrors && batch.Err? ==>
        r == Continued && Queued() == old(Queued()) && pending == [] &&
        events == old(events) + (if batch.error == TaskAllFinished then [HandlerSleep] else []) + [Pause(Second)]
      ensures old(pending) == [] && old(producerErrCount) <= MaxProducerErrors && batch.Ok? ==>
        events == old(events) &&
        Queued() + pending == old(Queued()) + batch.value &&
        (r == Continued <==> pending == [])
    {
      if pending != [] {
        var done := ResumeAddTasks();
        if !done {
          return Blocked;
        }
        producerErrCount := 0;
        return Continued;
      }
      if producerErrCount > MaxProducerErrors {
        return Exited(1);
      }
      var added := AddTasks(batch);
      if added.Failed? {
        producerErrCount := producerErrCount + 1;
        events := events + [Pause(Second)];
        return Continued;
      }
      if added.BlockedAfter? {
        return Blocked;
      }
      producerErrCount := 0;
      return Continued;
    }

    method GetTask() returns (t: Option<Task>)
      requires Valid()
      modifies tasksChan
      ensures Valid() && tasksChan.Capacity() == old(tasksChan.Capacity())
      ensures old(Queued()) == [] ==> t == None && Queued() == []
      ensures old(Queued()) != [] ==> t == Some(old(Queued())[0]) && Queued() == old(Queued())[1..]
    {
      t := tasksChan.Pop();
    }

    /**
     * One turn of a worker: take the oldest queued task, call the sleep hook,
     * then the crawl function once. Its error is only logged, so the step
     * ends the same way whatever it returns. With an empty queue the worker
     * stays blocked and nothing happens.
     */
    method WorkerStep() returns (t: Option<Task>)
      requires Valid()
      modifies tasksChan, this
      ensures Valid()
      ensures producerErrCount == old(producerErrCount)
      ensures pending == old(pending)
      ensures old(Queued()) == [] ==> t == None && Queued() == [] && events == old(events)
      ensures old(Queued()) != [] ==>
        t == Some(old(Queued())[0]) && Queued() == old(Queued())[1..] &&
        events == old(events) + [WorkerSleep, Work(t.value)]
    {
      t := GetTask();
      if t.None? {
        return;
      }
      events := events + [WorkerSleep];
      events := events + [Work(t.value)];
    }
  }
}
