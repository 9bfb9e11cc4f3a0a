/**
 * The in-memory task handler used to exercise the worker pool: it hands out
 * tasks that carry only a random id and simulates a short spell with no
 * tasks left, keyed on how many batches it has handed out.
 */
module FakeTasks {
  import opened Wrappers
  import opened Patents
  import opened Tasks

  /** Fake task ids are drawn below this bound. */
  const IdRange := 10000

  /** The zero-valued task. */
  const ZeroTask := Task(0, "", "", "", false, 0)

  /** A fake task: the zero task with a random id below IdRange. */
  function FakeTask(rnd: nat): (t: Task)
    ensures t.id < IdRange && t.id == rnd % IdRange
    ensures t.(id := 0) == ZeroTask
  {
    ZeroTask.(id := rnd % IdRange)
  }

  /** A batch request fails exactly while the counter is 6 or 7. */
  predicate BatchFails(callNum: int)
  {
    5 < callNum < 8
  }

  /** The counter after one batch request: only a successful one increments it. */
  function NextCallNum(callNum: int): (c: int)
    ensures BatchFails(callNum) ==> c == callNum
    ensures !BatchFails(callNum) ==> c == callNum + 1
  {
    if BatchFails(callNum) then callNum else callNum + 1
  }

  /** The counter after k batch requests on a fresh handler. */
  function CallNumAfter(k: nat): int
  {
    if k == 0 then 0 else NextCallNum(CallNumAfter(k - 1))
  }

  /** The counter climbs to 6 and stays there. */
  lemma {:induction false} CallNumSaturates(k: nat)
    ensures CallNumAfter(k) == if k <= 6 then k else 6
  {
    if k > 0 {
      CallNumSaturates(k - 1);
    }
  }

  /**
   * As written, the handler never recovers: the first six batch requests
   * succeed and every later one fails with "all tasks finished".
   */
  lemma FakeNeverRecovers(k: nat)
    ensures BatchFails(CallNumAfter(k)) <==> k >= 6
  {
    CallNumSaturates(k);
  }

  /** The intended counter: every batch request increments it. */
  function CorrectedNextCallNum(callNum: int): (c: int)
    ensures c == callNum + 1
  {
    callNum + 1
  }

  function CorrectedCallNumAfter(k: nat): int
  {
    if k == 0 then 0 else CorrectedNextCallNum(CorrectedCallNumAfter(k - 1))
  }

  /**
   * With the corrected counter exactly the requests numbered 6 and 7 (from
   * 0) find no tasks, and tasks come back from request 8 on.
   */
  lemma {:induction false} CorrectedRecovers(k: nat)
    ensures CorrectedCallNumAfter(k) == k
    ensures BatchFails(CorrectedCallNumAfter(k)) <==> k == 6 || k == 7
  {
    if k > 0 {
      CorrectedRecovers(k - 1);
    }
  }

  class FakeTaskHandler {
    var callNumOfRandomBatchTasks: int

    constructor ()
      ensures callNumOfRandomBatchTasks == 0
    {
      callNumOfRandomBatchTasks := 0;
    }

    /** Always succeeds, with a fresh random id; rnd is the random draw. */
    method RandomTask(rnd: nat) returns (r: Result<Task, StoreError>)
      ensures r == Ok(FakeTask(rnd))
    {
      var task := ZeroTask;
      task := task.(id := rnd % IdRange);
      return Ok(task);
    }

    /**
     * Fails with "all tasks finished", leaving the counter alone, while the
     * counter is 6 or 7; otherwise returns max(num, 0) fake tasks, the i-th
     * one drawn with draws[i], and increments the counter.
     */
    method RandomBatchTasks(num: int, draws: seq<nat>) returns (r: Result<seq<Task>, StoreError>)
      requires num <= |draws|
      modifies this
      ensures callNumOfRandomBatchTasks == NextCallNum(old(callNumOfRandomBatchTasks))
      ensures r.Err? <==> BatchFails(old(callNumOfRandomBatchTasks))
      ensures r.Err? ==> r.error == TaskAllFinished
      ensures r.Ok? ==> |r.value| == (if num < 0 then 0 else num)
      ensures r.Ok? ==> forall i :: 0 <= i < |r.value| ==> r.value[i] == FakeTask(draws[i])
    {
      if callNumOfRandomBatchTasks > 5 && callNumOfRandomBatchTasks < 8 {
        return Err(TaskAllFinished);
      }
      var tasks: seq<Task> := [];
      var i := 0;
      while i < num
        invariant 0 <= i <= (if num < 0 then 0 else num) && i == |tasks|
        invariant forall j :: 0 <= j < i ==> tasks[j] == FakeTask(draws[j])
        invariant callNumOfRandomBatchTasks == old(callNumOfRandomBatchTasks)
      {
        var task := RandomTask(draws[i]);
        tasks := tasks + [task.value];
        i := i + 1;
      }
      callNumOfRandomBatchTasks := callNumOfRandomBatchTasks + 1;
      return Ok(tasks);
    }

    /** Accepts every patent and stores nothing. */
    method SavePatent(taskID: nat, patent: Patent) returns (err: Option<StoreError>)
      ensures err == None
    {
      return None;
    }
  }
}
