# CNKI patent crawler: a verified model of its core

This project models the core of a crawler that harvests patent records. The
records come from the CNKI patent database's detail pages.

The crawler leases tasks from a MySQL task table. Each task names one
patent by its public code. For each task the crawler:

1. fetches the detail page;
2. copies the page's labelled rows into a patent record;
3. merges the two publication numbers and checks the result against the
   task;
4. validates the record;
5. stores it; a patent whose publication number is already stored is
   skipped.

A worker-pool variant feeds workers from a bounded task queue. An in-memory
fake task handler stands in for the database.

The model is written in Dafny and has seven modules:

- **`Patents`** (`patent.dfy`) is the record. It defines the label table of
  `FillRowFields` and the validity rule of `Validate`.
- **`Tasks`** (`task.dfy`) is the MySQL task handler, as a class over an
  in-memory task table and patent map. It covers listing, leasing one task,
  leasing a batch and saving.
- **`Spiders`** (`spider.dfy`) is the spider. It covers:
  - parameter clamping and the jittered sleep (durations are integer
    nanoseconds, as in `time.Duration`);
  - the page address and the inventor split;
  - assembling a patent from an extracted page, with the publication-number
    merge;
  - the crawl loop with its error counter and wait mode.
- **`Workers`** (`worker.dfy`) is the worker pool. The buffered channel is a
  ring buffer over an array. The producer turn and the worker turn are each
  one sequential step.
- **`FakeTasks`** (`fake_task.dfy`) is the fake task handler's state
  machine.
- **`Wrappers`** (`wrappers.dfy`) holds `Option` and `Result`.
- **`Durations`** (`durations.dfy`) holds the time units, in nanoseconds.

Everything outside the program is a parameter of the operation that
consumes it:

- random numbers;
- database failures;
- the outcome of fetching and extracting a page;
- the answers of the abstract `GetTask` call.

The repository's files come from different stages of its history. Where
they disagree, each function's logic is modelled as written:

- `PublicationNo` is commented out of the record, but the spider assigns it
  and the store deduplicates on it. The model's `Patent` has the field.
- The spider's `GetTask` is not part of the task-handler interface. It is
  modelled as an abstract call (`Spiders.Attempt`).

Saving a patent whose publication number is already stored leaves the
stored patents unchanged. `task.go:116-121` inserts with `ON CONFLICT DO
NOTHING`, so the first stored patent stays (`Tasks.InsertIfAbsentKeepsFirst`).
That insert reports no error, so the task is still marked finished
(`Tasks.MysqlTaskHandler.SavePatent`).

The comment above `getFirstFourAuthor` names `","` as the separator. It splits on
`";"`, and the model follows the code (`Spiders.CommaIsNoSeparator`).

## Model

| member | source | states |
|---|---|---|
| Patents.FieldOfKey | internal/pkg/spider/patent.go:37-73 | A recognised label never names the title, page address, subject code, year, merged publication number, abstract, claims or legal status. |
| Patents.RecognisedKeyIsLabel | internal/pkg/spider/patent.go:38-72 | Every label the switch recognises is the printed label of the field it assigns. |
| Patents.LabelIsRecognised | internal/pkg/spider/patent.go:38-72 | Every printed label is recognised as the field it labels. With RecognisedKeyIsLabel, each field is reached by exactly one label. |
| Patents.KeyMatchingIsExact | internal/pkg/spider/patent.go:38-72 | Matching is exact. "代理人" and "页数" match only without the full-width colon, so "代理人：" is ignored; other labels need the colon. |
| Patents.FillRowFields | internal/pkg/spider/patent.go:36-74 | For a recognised label exactly the mapped field becomes the value, and every other field is unchanged. |
| Patents.FillIgnoresUnknownKey | internal/pkg/spider/patent.go:37-73 | An unrecognised label leaves the patent unchanged (the switch has no default). |
| Patents.FillOverwrites | internal/pkg/spider/patent.go:36-74 | A later fill with the same label overwrites the earlier value; filling the same (label, value) twice equals filling once. |
| Patents.CountDistinctFields | internal/pkg/spider/patent.go:82-104 | Over distinct fields, the loop's count of non-empty values equals the number of non-empty fields. |
| Patents.ValidIff | internal/pkg/spider/patent.go:77-105 | A patent is valid iff its title is non-empty and at least 8 of the 16 listed fields are non-empty. An empty title is never valid. |
| Patents.ValidIgnoresOtherFields | internal/pkg/spider/patent.go:83-100 | Changing any field outside the 16 listed ones and the title leaves validity unchanged. These are the page address, subject code, year, merged and multiple publication numbers, abstract, claims and legal status. |
| Patents.Validate | internal/pkg/spider/patent.go:77-106 | The counting loop returns exactly the validity predicate; the patent is a value and is not changed. |
| Tasks.UnfinishedMembers | internal/pkg/spider/task.go:53 | The unfinished-task filter keeps exactly the rows with finish false. |
| Tasks.MysqlTaskHandler.constructor | internal/pkg/spider/task.go:44-49 | A handler starts over the given task table with no stored patents. |
| Tasks.MysqlTaskHandler.ListTasks | internal/pkg/spider/task.go:51-61 | A query failure returns the database error. Otherwise "all tasks finished" iff every task is finished. Success returns min(200, number of unfinished rows) tasks, each a row of the table and unfinished. |
| Tasks.MysqlTaskHandler.RandomTask | internal/pkg/spider/task.go:63-78 | Returns the listed task the random index picks, with its pre-update count. Unless the update fails, that row's crawl count becomes the listed count + 1. Listing errors are returned with nothing changed. The stored patents are untouched. |
| Tasks.MysqlTaskHandler.RandomBatchTasks | internal/pkg/spider/task.go:80-112 | With fewer listed tasks than num: returns the listing and changes nothing. Otherwise returns max(num, 0) tasks drawn with replacement, the i-th by draws[i]. Unless the update fails, each distinct id's count rises by one; an update failure is not returned. The stored patents are untouched. |
| Tasks.MysqlTaskHandler.SavePatent | internal/pkg/spider/task.go:114-128 | An insert failure returns an error and changes nothing. Otherwise inserts unless the publication number is stored. A failed finishing update returns an error with tasks unchanged; else finish = true and no error, also when the insert did nothing. Every stored patent sits under its own number, as every method of the handler keeps. |
| Tasks.FinishNeverReverts | internal/pkg/spider/task.go:74-124 | No table update changes a row's identity or sets finish back to false. |
| Tasks.BumpOncePerDistinctId | internal/pkg/spider/task.go:99-109 | In the batch update a row gains exactly 1 if its id was drawn at least once, whatever the number of draws, and 0 otherwise. |
| Tasks.InsertIfAbsentKeepsFirst | internal/pkg/spider/task.go:116-121 | Inserting again under a stored publication number leaves the patent map unchanged. The first patent stays, and other numbers keep their patents. The task is still marked finished by SavePatent. |
| Tasks.InsertKeepsKeyed | internal/pkg/spider/task.go:116-121 | After an insert, every stored patent still sits under its own publication number, and the new patent's number is stored. |
| Tasks.MarkFinishedIdempotent | internal/pkg/spider/task.go:123-125 | Marking a task finished twice equals marking it once, and its rows end finished. |
| Spiders.ClampIsNearest | internal/pkg/spider/spider.go:36-43 | The clamp lies in its range, keeps an in-range value, and is the in-range value nearest to the input. |
| Spiders.NewSpider | internal/pkg/spider/spider.go:34-70 | Fatal (None) iff min > max on the raw inputs. Otherwise concurrency is clamped to [1, 32], min raised to 100 ms, max lowered to 10 s, and the wait time clamped to [1 min, 1 h]. |
| Spiders.EmptySleepRanges | internal/pkg/spider/spider.go:44-54 | NewSpider accepts 50 ms / 60 ms and stores min > max. It also accepts 1 s / 1 s. With either spider, every fast-mode sleep panics. |
| Spiders.NewSpiderChecked | internal/pkg/spider/spider.go:44-54 | The corrected constructor clamps first and refuses only min > max. Any spider it returns has bounded fields and min ≤ max. Its corrected sleep lies in [min, max), or is exactly min when the bounds are equal. With min < max the sleep as written never panics either. |
| Spiders.CorrectedRandomSleep | internal/pkg/spider/spider.go:268-277 | The corrected sleep: the wait time in wait mode. Otherwise a delay in [min, max), or exactly min when min == max, instead of a panic. |
| Spiders.CorrectedSleepAgrees | internal/pkg/spider/spider.go:268-277 | Wherever the sleep as written is defined, the corrected sleep gives the same delay. |
| Spiders.SleepArithmeticFitsInt64 | internal/pkg/spider/spider.go:47-54 | For 64-bit inputs NewSpider accepts, the stored bounds and max − min fit in 64 bits (except a max within 100 ms of the int64 minimum). |
| Spiders.RandomSleep | internal/pkg/spider/spider.go:268-277 | In wait mode the sleep is exactly the wait time. In fast mode it panics iff max − min ≤ 0, and otherwise lies in [min, max). |
| Spiders.EveryJitterReachable | internal/pkg/spider/spider.go:274-276 | Every delay in [min, max) is produced by some draw. |
| Spiders.GetPatentURL | internal/pkg/spider/spider.go:280-282 | The address is the fixed prefix followed by the public code; stripping the prefix gives the code back. |
| Spiders.GetPatentURLInjective | internal/pkg/spider/spider.go:280-282 | Different public codes give different addresses. |
| Spiders.Split | internal/pkg/spider/spider.go:286 | Splitting yields at least one piece. |
| Spiders.SplitJoin | internal/pkg/spider/spider.go:286 | Joining the pieces with ";" gives the string back, no piece contains ";", and there is one more piece than separators. |
| Spiders.SplitWithoutSeparator | internal/pkg/spider/spider.go:286 | A string without the separator is a single piece. |
| Spiders.GetFirstFourAuthor | internal/pkg/spider/spider.go:285-302 | For i < 4 the i-th result is the i-th ";"-piece when there is one and "" otherwise. |
| Spiders.SingleInventorWhole | internal/pkg/spider/spider.go:285-302 | A string without ";" comes back whole as the first inventor, with the others empty. |
| Spiders.CommaIsNoSeparator | internal/pkg/spider/spider.go:284-286 | "A,B" stays one inventor despite the comment naming ","; "A;B" gives two. |
| Spiders.FillRowsKeepsOtherFields | internal/pkg/spider/spider.go:182-209 | No sequence of page rows changes a field outside the label table. |
| Spiders.Assemble | internal/pkg/spider/spider.go:159-227 | The assembled patent carries the page address and the subject code. The year and the merged publication number stay empty. |
| Spiders.MergePublicationNo | internal/pkg/spider/spider.go:229-236 | A non-empty grant number wins, else a non-empty application number, else the old value stays; nothing else changes. |
| Spiders.ParsePageChecksPublicationNo | internal/pkg/spider/spider.go:229-243 | A parsed patent's publication number is the task's public code, with the task's address and subject code and an empty year. An extracted page is refused iff the merged number differs from the public code. |
| Spiders.IntendedYear | internal/pkg/spider/spider.go:161-163 | The corrected year is the date's first four characters, or empty for a shorter date. |
| Spiders.YearNeverSet | internal/pkg/spider/spider.go:159-164 | A page that parses leaves the year empty. The intended rule gives "2021" for the date 20210101. |
| Spiders.ParseContent | internal/pkg/spider/spider.go:146-244 | The step-by-step assembly returns exactly ParsePage: a fetch error, a mismatch error with the two numbers and the merged one, or the merged patent. |
| Spiders.Handle | internal/pkg/spider/spider.go:99-142 | "All finished" only sets wait mode. Another GetTask error adds 1. A lease resets the counter and clears wait mode; a parse, validation or save failure then adds 1. Exactly the valid parsed patents are saved. |
| Spiders.HandleAttempt | internal/pkg/spider/spider.go:99-142 | The loop body (GetTask answer, ParseContent, Validate, save) computes exactly Handle. |
| Spiders.TurnsTakenMeans | internal/pkg/spider/spider.go:91-98 | Every completed turn j started from the state after j requests, slept sleeps[j], and did not exceed the counter limit. |
| Spiders.Run | internal/pkg/spider/spider.go:89-144 | The loop stops at the first turn whose sleep panics or whose counter, checked after the sleep, exceeds 60. Its state is that of the handled requests, and the sleeps are those RandomSleep gives. |
| Spiders.RunCounterRule | internal/pkg/spider/spider.go:100-133 | After any requests, the counter is the GetTask errors since the last lease plus 1 if that lease failed (or plus the start value, with no lease). |
| Spiders.RunWaitRule | internal/pkg/spider/spider.go:100-117 | After any requests, wait mode holds iff "all finished" came after the last lease, or there was no lease and it held already. |
| Spiders.ErrorLimitNeedsStoreErrors | internal/pkg/spider/spider.go:95-98 | The loop gives up only after at least 60 GetTask errors since the last lease, or 61 with none. "All finished" answers between them neither count nor reset the counter. |
| Spiders.SavedPatentsAreValid | internal/pkg/spider/spider.go:127-142 | Every patent the loop hands to the store is valid. |
| Workers.TaskQueue.constructor | internal/pkg/spider/worker.go:41 | A new queue is empty, with the requested positive capacity. |
| Workers.TaskQueue.Push | internal/pkg/spider/worker.go:59 | A send succeeds iff the queue has room, and appends the task at the back. The queue never exceeds its capacity. |
| Workers.TaskQueue.Pop | internal/pkg/spider/worker.go:66-68 | A receive succeeds iff the queue is non-empty, and takes the oldest task (FIFO). |
| Workers.ChanCapacity | internal/pkg/spider/worker.go:38-41 | The queue capacity is 50 when the configured capacity is not positive, and the configured one otherwise. |
| Workers.WorkerPool.constructor | internal/pkg/spider/worker.go:28-44 | The pool gets an empty queue of that capacity. Its own taskChanCap field stays 0, because it is never assigned. |
| Workers.WorkerPool.Enqueue | internal/pkg/spider/worker.go:56-60 | Sends the tasks in order; it stops early only when the queue is full. |
| Workers.WorkerPool.AddTasks | internal/pkg/spider/worker.go:47-63 | On error the queue is unchanged, and the idle hook is called exactly once iff the error is "all finished". On success every task is queued in order, except that a full queue leaves the rest pending. |
| Workers.WorkerPool.ResumeAddTasks | internal/pkg/spider/worker.go:56-60 | A blocked producer sends the rest of its batch in order as room allows. |
| Workers.NextErrCount | internal/pkg/spider/worker.go:80-86 | Any AddTasks error adds 1 to the producer's counter; a success resets it to 0. |
| Workers.WorkerPool.ProducerStep | internal/pkg/spider/worker.go:74-87 | It exits, always with status 1, iff no send is pending and the counter exceeds 600 at the top of the turn. It ends blocked iff part of a batch is still pending, with the queue full. An error adds 1 and pauses 1 s ("all finished" also calls the hook). A fully queued batch resets the counter. |
| Workers.ErrCountIsTrailingFailures | internal/pkg/spider/worker.go:80-86 | The producer's counter equals the number of trailing failed AddTasks calls. |
| Workers.ProducerExitsIff | internal/pkg/spider/worker.go:75-78 | The producer exits iff the last 601 calls all failed. |
| Workers.WorkerPool.GetTask | internal/pkg/spider/worker.go:66-68 | Takes the oldest queued task. An empty queue, where the receive would block, gives nothing and stays empty. |
| Workers.WorkerPool.WorkerStep | internal/pkg/spider/worker.go:93-104 | Pops the oldest task, then calls the sleep hook and the crawl function once each, in that order. The crawl result is only logged. An empty queue leaves the events unchanged, and the producer's state is never touched. |
| FakeTasks.FakeTask | internal/pkg/spider/fakeTask.go:13-18 | A fake task has an id in [0, 10000) and every other field zero. |
| FakeTasks.FakeTaskHandler.constructor | internal/pkg/spider/fakeTask.go:9-11 | A new fake handler's counter is 0. |
| FakeTasks.FakeTaskHandler.RandomTask | internal/pkg/spider/fakeTask.go:13-18 | Always succeeds with the fake task of the random number. |
| FakeTasks.NextCallNum | internal/pkg/spider/fakeTask.go:20-31 | A failing request (counter 6 or 7) leaves the counter alone; a successful one increments it. |
| FakeTasks.FakeTaskHandler.RandomBatchTasks | internal/pkg/spider/fakeTask.go:20-32 | Fails with "all finished" iff the counter is 6 or 7, without changing it. Otherwise returns max(num, 0) fake tasks and increments the counter. |
| FakeTasks.FakeTaskHandler.SavePatent | internal/pkg/spider/fakeTask.go:34-36 | Always succeeds and changes nothing. |
| FakeTasks.CallNumSaturates | internal/pkg/spider/fakeTask.go:20-31 | After k requests from a fresh handler the counter is min(k, 6). |
| FakeTasks.FakeNeverRecovers | internal/pkg/spider/fakeTask.go:21-31 | Request k fails iff k ≥ 6: the handler never hands out tasks again. |
| FakeTasks.CorrectedNextCallNum | internal/pkg/spider/fakeTask.go:21-31 | The corrected counter increments on every request. |
| FakeTasks.CorrectedRecovers | internal/pkg/spider/fakeTask.go:21-31 | With the corrected counter, exactly requests 6 and 7 fail, and tasks come back from request 8 on. |

## Left out

- Patents.FillRowFields: the record is a value, and filling returns the new record. Changing a `*Patent` in place, and aliasing between holders of the same pointer, are not modelled.
- HTTP fetching (`GetHtml`) and HTML parsing with XPath queries are not part of this model. They are network and foreign-library code. Their outcome is the `Spiders.Page` parameter: a failure, or the trimmed title, the rows and the abstract and claims texts.
- Spiders.ParseContent: the XPath queries are constant expressions, so their query errors are not modelled. A fetch failure stands for every error before the rows are read.
- Saving the page HTML to disk (`SaveHtml`) is not modelled, because it is filesystem I/O.
- Spiders.Run: the save runs on its own goroutine in the source. The model applies it, and its counter increment on failure, before the next turn. The race on the counter is not modelled.
- Spiders.Run: the wait flag is a package-level variable that all spiders share. The model takes its value at the start of one run and keeps it per run; cross-spider sharing is not modelled.
- `GoRun`, the `sync.WaitGroup` and the goroutine launches of the worker pool are not modelled. Each loop body is a sequential step: `Spiders.Run`, `Workers.WorkerPool.ProducerStep`, `Workers.WorkerPool.WorkerStep`.
- Workers.WorkerPool.WorkerStep: the crawl function and the hooks are recorded as events, not executed. A receive from an empty queue, which would block, returns without effect.
- Workers.WorkerPool.ProducerStep: a send to a full queue, which would block, ends the turn with the rest of the batch pending. The next turn resumes the send.
- Signal handling (SIGINT, SIGTERM, SIGQUIT) and the final wait for it are not modelled, because they are OS integration.
- Random numbers (`math/rand`) are parameters. An index is the draw modulo the range.
- Spiders.Run: the loop keeps the sleep as written. It can therefore stop with a panic on a spider that NewSpider accepted. The corrected CorrectedRandomSleep is stated beside it and is not used by the loop.
- Spiders.RandomSleep: `Int63n(n)` is the draw reduced modulo n, without its distribution. A maximum within 100 ms of the smallest int64 would make Go's subtraction wrap, and the model does not follow that wrap (see Spiders.SleepArithmeticFitsInt64).
- Tasks.MysqlTaskHandler.ListTasks: the SQL query returns at most 200 unfinished rows in an order the database chooses. The model returns the first 200 in table order.
- Tasks.MysqlTaskHandler.SavePatent: insert failures are a parameter, for a database error such as a lost connection. The model deduplicates on the publication number only; a clash on any other unique column is not modelled. gorm's id and timestamp columns are not modelled.
- Gorm and MySQL query building, auto-migration and the database connection (`db/db.go`) are not part of this model.
- The command-line entry points (`cmd/main.go`, `cmd/run.go`), logging, the directory constants, the proxy test and the worker-pool test are not part of this model.

## Findings

| source | as written | input that shows it | evidently intended | confidence | as-written member | corrected member |
|---|---|---|---|---|---|---|
| internal/pkg/spider/fakeTask.go:21-31 | the counter is incremented only by successful batch requests | seven batch requests on a fresh handler: the 7th fails, and so does every later one, since the failures leave the counter at 6 | tasks return at request 8 (counting from 0), as the comment says, so every request should count | not executed; high | FakeTasks.FakeNeverRecovers | FakeTasks.CorrectedRecovers |
| internal/pkg/spider/spider.go:161-163 | the guard tests the length of the still-empty `patent.Year` | date "20210101": the year stays "" | copy the date's first four characters when the date has at least four | not executed; high | Spiders.YearNeverSet | Spiders.IntendedYear |
| internal/pkg/spider/spider.go:44-54 | the min > max test runs on the raw values, before clamping, and equal bounds pass it | min 50 ms, max 60 ms: stored as 100 ms and 60 ms. Also min = max = 1 s, where `Int63n` gets a zero bound. Either way `Int63n` panics on the first fast-mode sleep | check the clamped range, refuse only min > max, and sleep exactly min when min == max | not executed; medium | Spiders.EmptySleepRanges | Spiders.NewSpiderChecked |
