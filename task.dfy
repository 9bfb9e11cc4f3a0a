/**
 * The task store: a table of crawl tasks and the table of saved patents.
 * Leasing reads unfinished tasks and bumps their crawl count; saving inserts
 * a patent unless its publication number is already stored and then marks
 * the task finished. The database is modelled as an in-memory table; its
 * failures and the random numbers used for sampling are parameters.
 */
module Tasks {
  import opened Wrappers
  import opened Patents

  /** The most tasks one listing query returns. */
  const MaxQueryTaskBatch := 200

  /** One row of the task table. */
  datatype Task = Task(id: nat, publicCode: string, date: string, code: string,
                       finish: bool, crawlCount: int)

  /**
   * The errors of a task handler: the distinguished "every task is finished"
   * condition, and any failure of the database itself.
   */
  datatype StoreError = TaskAllFinished | DbError

  /** The unfinished rows of a table, in table order. */
  function Unfinished(ts: seq<Task>): seq<Task> {
    if ts == [] then []
    else (if ts[0].finish then [] else [ts[0]]) + Unfinished(ts[1..])
  }

  lemma {:induction false} UnfinishedMembers(ts: seq<Task>)
    ensures forall t :: t in Unfinished(ts) <==> t in ts && !t.finish
    ensures |Unfinished(ts)| <= |ts|
  {
    if ts != [] {
      UnfinishedMembers(ts[1..]);
      assert ts == [ts[0]] + ts[1..];
    }
  }

  function Min(a: int, b: int): int {
    if a <= b then a else b
  }

  /** The table with the crawl count of every row with the given id set to c. */
  function SetCrawlCount(ts: seq<Task>, id: nat, c: int): seq<Task> {
    seq(|ts|, i requires 0 <= i < |ts| => if ts[i].id == id then ts[i].(crawlCount := c) else ts[i])
  }

  /** The table after "crawl_count = crawl_count + 1" on the rows whose id is in ids. */
  function BumpCrawlCounts(ts: seq<Task>, ids: set<nat>): seq<Task> {
    seq(|ts|, i requires 0 <= i < |ts| =>
      if ts[i].id in ids then ts[i].(crawlCount := ts[i].crawlCount + 1) else ts[i])
  }

  /** The table after "finish = true" on the rows with the given id. */
  function MarkFinished(ts: seq<Task>, id: nat): seq<Task> {
    seq(|ts|, i requires 0 <= i < |ts| => if ts[i].id == id then ts[i].(finish := true) else ts[i])
  }

  /** The patents after an insert that does nothing when the publication number is taken. */
  function InsertIfAbsent(m: map<string, Patent>, p: Patent): map<string, Patent> {
    if p.publicationNo in m then m else m[p.publicationNo := p]
  }

  /** The ids of a list of tasks, duplicates collapsed. */
  function IdsOf(ts: seq<Task>): set<nat> {
    set i | 0 <= i < |ts| :: ts[i].id
  }

  /** Every row keeps its identity, and a finished row stays finished. */
  ghost predicate KeepsRows(before: seq<Task>, after: seq<Task>) {
    |after| == |before| &&
    forall i :: 0 <= i < |before| ==>
      after[i].id == before[i].id && after[i].publicCode == before[i].publicCode &&
      (before[i].finish ==> after[i].finish)
  }

  /**
   * No operation on the task table ever sets finish back to false or changes
   * which task a row is.
   */
  lemma FinishNeverReverts(ts: seq<Task>, id: nat, c: int, ids: set<nat>)
    ensures KeepsRows(ts, SetCrawlCount(ts, id, c))
    ensures KeepsRows(ts, BumpCrawlCounts(ts, ids))
    ensures KeepsRows(ts, MarkFinished(ts, id))
  {
  }

  /**
   * In a batch update each distinct returned id gets exactly one increment,
   * however often it was drawn, and no other row changes.
   */
  lemma BumpOncePerDistinctId(ts: seq<Task>, batch: seq<Task>, i: nat)
    requires i < |ts|
    ensures BumpCrawlCounts(ts, IdsOf(batch))[i].crawlCount ==
            ts[i].crawlCount + (if exists j :: 0 <= j < |batch| && batch[j].id == ts[i].id then 1 else 0)
    ensures BumpCrawlCounts(ts, IdsOf(batch))[i].finish == ts[i].finish
  {
    if exists j :: 0 <= j < |batch| && batch[j].id == ts[i].id {
      var j :| 0 <= j < |batch| && batch[j].id == ts[i].id;
      assert ts[i].id in IdsOf(batch);
    }
  }

  /**
   * Inserting under a publication number that is already stored leaves the
   * patents unchanged: the first stored patent under a number is the one
   * that stays, and every other number keeps its patent. (The save still
   * marks the task finished, since the ignored insert is no error.)
   */
  lemma InsertIfAbsentKeepsFirst(m: map<string, Patent>, p: Patent, q: Patent)
    requires q.publicationNo == p.publicationNo
    ensures InsertIfAbsent(InsertIfAbsent(m, p), q) == InsertIfAbsent(m, p)
    ensures InsertIfAbsent(m, p).Keys == m.Keys + {p.publicationNo}
    ensures p.publicationNo in m ==> InsertIfAbsent(m, p)[p.publicationNo] == m[p.publicationNo]
    ensures forall k :: k in m ==> InsertIfAbsent(m, p)[k] == m[k]
  {
  }

  /** Every patent in the map sits under its own publication number. */
  ghost predicate KeyedByNumber(m: map<string, Patent>) {
    forall k :: k in m ==> m[k].publicationNo == k
  }

  /** The insert keeps every patent under its own number. */
  lemma InsertKeepsKeyed(m: map<string, Patent>, p: Patent)
    requires KeyedByNumber(m)
    ensures KeyedByNumber(InsertIfAbsent(m, p))
    ensures p.publicationNo in InsertIfAbsent(m, p)
  {
  }

  /** Marking twice is marking once. */
  lemma MarkFinishedIdempotent(ts: seq<Task>, id: nat)
    ensures MarkFinished(MarkFinished(ts, id), id) == MarkFinished(ts, id)
    ensures forall i :: 0 <= i < |ts| && ts[i].id == id ==> MarkFinished(ts, id)[i].finish
  {
  }

  /** The task handler backed by the database, over an in-memory model of its two tables. */
  class MysqlTaskHandler {
    var tasks: seq<Task>
    var patents: map<string, Patent>

    /** Every stored patent sits under its own publication number. */
    ghost predicate Valid()
      reads this
    {
      KeyedByNumber(patents)
    }

    constructor (initial: seq<Task>)
      ensures Valid() && tasks == initial && patents == map[]
    {
      tasks := initial;
      patents := map[];
    }

    /**
     * At most 200 unfinished tasks in table order; "all finished" when
     * there are none; a database error when the query fails.
     */
    function ListTasks(queryFails: bool): (r: Result<seq<Task>, StoreError>)
      reads this
      ensures queryFails ==> r == Err(DbError)
      ensures !queryFails ==> (r == Err(TaskAllFinished) <==> forall t :: t in tasks ==> t.finish)
      ensures r.Ok? ==> 0 < |r.value| <= MaxQueryTaskBatch
      ensures r.Ok? ==> forall t :: t in r.value ==> t in tasks && !t.finish
      ensures r.Ok? ==> |r.value| == Min(MaxQueryTaskBatch, |Unfinished(tasks)|)
    {
      UnfinishedMembers(tasks);
      if queryFails then Err(DbError)
      else
        var found := Unfinished(tasks);
        if |found| == 0 then
          assert forall t :: t in tasks ==> t.finish;
          Err(TaskAllFinished)
        else
          var listed := found[..Min(MaxQueryTaskBatch, |found|)];
          assert forall t :: t in listed ==> t in found;
          assert found[0] in found;
          Ok(listed)
    }

    /**
     * Leases one listed task, chosen by the random number rnd, and sets its
     * crawl count to one more than the listed value. The task is returned as
     * listed; a failed update is only logged.
     */
    method RandomTask(queryFails: bool, rnd: nat, updateFails: bool) returns (r: Result<Task, StoreError>)
      requires Valid()
      modifies this
      ensures Valid()
      ensures old(ListTasks(queryFails)).Err? ==> r == Err(old(ListTasks(queryFails)).error) && unchanged(this)
      ensures old(ListTasks(queryFails)).Ok? ==>
        var listed := old(ListTasks(queryFails)).value;
        r == Ok(listed[rnd % |listed|]) &&
        tasks == (if updateFails then old(tasks)
                  else SetCrawlCount(old(tasks), r.value.id, r.value.crawlCount + 1))
      ensures patents == old(patents)
    {
      var listed := ListTasks(queryFails);
      if listed.Err? {
        return Err(listed.error);
      }
      var task := listed.value[rnd % |listed.value|];
      if !updateFails {
        tasks := SetCrawlCount(tasks, task.id, task.crawlCount + 1);
      }
      return Ok(task);
    }

    /**
     * Leases a batch. When fewer than num unfinished tasks are listed, all of
     * them are returned and no crawl count changes. Otherwise num tasks are
     * drawn from the listing with replacement (draws[i] picks the i-th), and
     * every distinct drawn id gets its crawl count raised by one; a failed
     * update is only logged.
     */
    method RandomBatchTasks(num: int, queryFails: bool, draws: seq<nat>, updateFails: bool)
      returns (r: Result<seq<Task>, StoreError>)
      requires num <= |draws| && Valid()
      modifies this
      ensures Valid()
      ensures old(ListTasks(queryFails)).Err? ==> r == Err(old(ListTasks(queryFails)).error) && unchanged(this)
      ensures old(ListTasks(queryFails)).Ok? && |old(ListTasks(queryFails)).value| < num ==>
        r == old(ListTasks(queryFails)) && unchanged(this)
      ensures old(ListTasks(queryFails)).Ok? && num <= |old(ListTasks(queryFails)).value| ==>
        var listed := old(ListTasks(queryFails)).value;
        r.Ok? && |r.value| == (if num < 0 then 0 else num) &&
        (forall i :: 0 <= i < |r.value| ==> r.value[i] == listed[draws[i] % |listed|]) &&
        tasks == (if updateFails then old(tasks) else BumpCrawlCounts(old(tasks), IdsOf(r.value)))
      ensures patents == old(patents)
    {
      var listed := ListTasks(queryFails);
      if listed.Err? {
        return Err(listed.error);
      }
      var candidates := listed.value;
      if |candidates| < num {
        return Ok(candidates);
      }
      var tasksReturn: seq<Task> := [];
      var i := 0;
      while i < num
        invariant 0 <= i <= (if num < 0 then 0 else num) && i == |tasksReturn|
        invariant forall j :: 0 <= j < i ==> tasksReturn[j] == candidates[draws[j] % |candidates|]
      {
        tasksReturn := tasksReturn + [candidates[draws[i] % |candidates|]];
        i := i + 1;
      }
      var tasksID: seq<nat> := [];
      for k := 0 to |tasksReturn|
        invariant |tasksID| == k
        invariant forall j :: 0 <= j < k ==> tasksID[j] == tasksReturn[j].id
      {
        tasksID := tasksID + [tasksReturn[k].id];
      }
      assert (set x | x in tasksID) == IdsOf(tasksReturn) by {
        forall x | x in tasksID ensures x in IdsOf(tasksReturn) {
          var j :| 0 <= j < |tasksID| && tasksID[j] == x;
        }
        forall j | 0 <= j < |tasksReturn| ensures tasksReturn[j].id in tasksID {
          assert tasksID[j] == tasksReturn[j].id;
        }
      }
      if !updateFails {
        tasks := BumpCrawlCounts(tasks, set x | x in tasksID);
      }
      return Ok(tasksReturn);
    }

    /**
     * Saves a patent: inserts it unless a patent with its publication number
     * is stored already (then the insert does nothing), and only when the
     * insert did not fail marks the task finished. An insert failure changes
     * nothing; a failure of the finishing update leaves the patent stored and
     * the task open. Either failure is returned.
     */
    method SavePatent(taskID: nat, patent: Patent, insertFails: bool, updateFails: bool)
      returns (err: Option<StoreError>)
      requires Valid()
      modifies this
      ensures Valid()
      ensures insertFails ==> err == Some(DbError) && unchanged(this)
      ensures !insertFails ==> patents == InsertIfAbsent(old(patents), patent)
      ensures !insertFails && updateFails ==> err == Some(DbError) && tasks == old(tasks)
      ensures !insertFails && !updateFails ==> err == None && tasks == MarkFinished(old(tasks), taskID)
    {
      if insertFails {
        return Some(DbError);
      }
      InsertKeepsKeyed(patents, patent);
      patents := InsertIfAbsent(patents, patent);
      if updateFails {
        return Some(DbError);
      }
      tasks := MarkFinished(tasks, taskID);
      return None;
    }
  }
}
