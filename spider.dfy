/**
 * The crawler: its configuration and sleep rules, the page URL, the inventor
 * split, the assembly of a patent from an extracted detail page with the
 * publication-number check, and the crawl loop with its error counter and
 * wait mode. Durations are whole nanoseconds, as in Go's time.Duration.
 */
module Spiders {
  import opened Wrappers
  import opened Patents
  import opened Durations

  const MinConcurrency := 1
  const MaxConcurrency := 32
  const MinSleepFloor := 100 * Millisecond
  const MaxSleepCeiling := 10 * Second

  /** The crawl loop stops once its error counter exceeds this. */
  const MaxSpiderErrors := 60

  const Int64Min := -0x8000_0000_0000_0000
  const Int64Max := 0x7fff_ffff_ffff_ffff

  predicate IsInt64(x: int)
  {
    Int64Min <= x <= Int64Max
  }

  /** The stored configuration of a spider (the task handler is left abstract). */
  datatype Spider = Spider(concurrency: int, minSleepTime: int, maxSleepTime: int, waitForTaskSleepTime: int)

  /** The value in [lo, hi] nearest to x. */
  function Clamp(x: int, lo: int, hi: int): int
    requires lo <= hi
  {
    if x < lo then lo else if x > hi then hi else x
  }

  lemma ClampIsNearest(x: int, lo: int, hi: int, y: int)
    requires lo <= hi && lo <= y <= hi
    ensures lo <= Clamp(x, lo, hi) <= hi
    ensures lo <= x <= hi ==> Clamp(x, lo, hi) == x
    ensures (if Clamp(x, lo, hi) <= x then x - Clamp(x, lo, hi) else Clamp(x, lo, hi) - x)
         <= (if y <= x then x - y else y - x)
  {
  }

  /**
   * Corrects the parameters one by one. A minimum sleep above the maximum
   * is fatal, but that test looks at the values as given, before the sleep
   * bounds are raised or lowered.
   */
  method NewSpider(concurrency: int, minSleepTime: int, maxSleepTime: int, waitForTaskSleepTime: int)
    returns (r: Option<Spider>)
    ensures r.None? <==> minSleepTime > maxSleepTime
    ensures r.Some? ==> r.value.concurrency == Clamp(concurrency, MinConcurrency, MaxConcurrency)
    ensures r.Some? ==>
              MinSleepFloor <= r.value.minSleepTime &&
              r.value.minSleepTime == (if minSleepTime < MinSleepFloor then MinSleepFloor else minSleepTime)
    ensures r.Some? ==>
              r.value.maxSleepTime <= MaxSleepCeiling &&
              r.value.maxSleepTime == (if maxSleepTime > MaxSleepCeiling then MaxSleepCeiling else maxSleepTime)
    ensures r.Some? ==> r.value.waitForTaskSleepTime == Clamp(waitForTaskSleepTime, Minute, Hour)
  {
    var c, lo, hi, wait := concurrency, minSleepTime, maxSleepTime, waitForTaskSleepTime;
    if c < MinConcurrency {
      c := MinConcurrency;
    }
    if c > MaxConcurrency {
      c := MaxConcurrency;
    }
    if lo > hi {
      return None;
    }
    if lo < MinSleepFloor {
      lo := MinSleepFloor;
    }
    if hi > MaxSleepCeiling {
      hi := MaxSleepCeiling;
    }
    if wait < Minute {
      wait := Minute;
    }
    if wait > Hour {
      wait := Hour;
    }
    return Some(Spider(c, lo, hi, wait));
  }

  /**
   * Two parameter sets NewSpider accepts although every fast-mode sleep then
   * panics. 50 ms and 60 ms pass the raw test and are stored as 100 ms and
   * 60 ms, an inverted range. Equal bounds such as 1 s and 1 s pass it too,
   * and give Int63n a zero bound.
   */
  method EmptySleepRanges() returns (inverted: Spider, equal: Spider)
    ensures inverted.minSleepTime > inverted.maxSleepTime
    ensures equal.minSleepTime == equal.maxSleepTime == Second
    ensures forall draw: nat :: RandomSleep(inverted, false, draw).None? && RandomSleep(equal, false, draw).None?
  {
    var r := NewSpider(1, 50 * Millisecond, 60 * Millisecond, Minute);
    inverted := r.value;
    var q := NewSpider(1, Second, Second, Minute);
    equal := q.value;
  }

  /**
   * How long one pre-crawl sleep lasts, or None where Go's Int63n panics
   * (a non-positive bound); draw is the random number, reduced into
   * [0, max - min) as Int63n's result.
   */
  function RandomSleep(s: Spider, waitForTask: bool, draw: nat): (d: Option<int>)
    ensures waitForTask ==> d == Some(s.waitForTaskSleepTime)
    ensures !waitForTask ==> (d.None? <==> s.maxSleepTime - s.minSleepTime <= 0)
    ensures !waitForTask && d.Some? ==> s.minSleepTime <= d.value < s.maxSleepTime
  {
    if waitForTask then Some(s.waitForTaskSleepTime)
    else
      var n := s.maxSleepTime - s.minSleepTime;
      if n <= 0 then None else Some(draw % n + s.minSleepTime)
  }

  /** Every delay in [min, max) is produced by some draw. */
  lemma EveryJitterReachable(s: Spider, t: int)
    requires s.minSleepTime <= t < s.maxSleepTime
    ensures RandomSleep(s, false, t - s.minSleepTime) == Some(t)
  {
  }

  /**
   * For 64-bit inputs accepted by NewSpider, with a maximum no closer than
   * 100 ms to the smallest 64-bit value, the stored bounds and their
   * difference fit in 64 bits: the exact integers hide no wrap-around.
   */
  lemma SleepArithmeticFitsInt64(minSleepTime: int, maxSleepTime: int)
    requires IsInt64(minSleepTime) && IsInt64(maxSleepTime) && minSleepTime <= maxSleepTime
    requires Int64Min + MinSleepFloor <= maxSleepTime
    ensures var lo := if minSleepTime < MinSleepFloor then MinSleepFloor else minSleepTime;
      var hi := if maxSleepTime > MaxSleepCeiling then MaxSleepCeiling else maxSleepTime;
      IsInt64(lo) && IsInt64(hi) && IsInt64(hi - lo)
  {
  }

  /**
   * The evidently intended sleep: a delay drawn from [min, max), and exactly
   * min when the two bounds are equal, instead of a panic.
   */
  function CorrectedRandomSleep(s: Spider, waitForTask: bool, draw: nat): (d: int)
    ensures waitForTask ==> d == s.waitForTaskSleepTime
    ensures !waitForTask && s.minSleepTime < s.maxSleepTime ==> s.minSleepTime <= d < s.maxSleepTime
    ensures !waitForTask && s.minSleepTime == s.maxSleepTime ==> d == s.minSleepTime
  {
    if waitForTask then s.waitForTaskSleepTime
    else
      var n := s.maxSleepTime - s.minSleepTime;
      if n <= 0 then s.minSleepTime else draw % n + s.minSleepTime
  }

  /** Wherever the sleep as written is defined, the corrected one agrees with it. */
  lemma CorrectedSleepAgrees(s: Spider, waitForTask: bool, draw: nat)
    requires RandomSleep(s, waitForTask, draw).Some?
    ensures CorrectedRandomSleep(s, waitForTask, draw) == RandomSleep(s, waitForTask, draw).value
  {
  }

  /**
   * The corrected constructor: it clamps first and then refuses only an
   * inverted sleep range, so equal bounds give a fixed delay and no sleep
   * of a spider it returns can panic.
   */
  method NewSpiderChecked(concurrency: int, minSleepTime: int, maxSleepTime: int, waitForTaskSleepTime: int)
    returns (r: Option<Spider>)
    ensures r.None? <==>
      (if minSleepTime < MinSleepFloor then MinSleepFloor else minSleepTime) >
      (if maxSleepTime > MaxSleepCeiling then MaxSleepCeiling else maxSleepTime)
    ensures r.Some? ==>
              MinConcurrency <= r.value.concurrency <= MaxConcurrency &&
              MinSleepFloor <= r.value.minSleepTime <= r.value.maxSleepTime <= MaxSleepCeiling &&
              Minute <= r.value.waitForTaskSleepTime <= Hour
    ensures r.Some? ==>
              forall draw: nat ::
                var d := CorrectedRandomSleep(r.value, false, draw);
                r.value.minSleepTime <= d <= r.value.maxSleepTime &&
                (d == r.value.maxSleepTime ==> r.value.minSleepTime == r.value.maxSleepTime)
    ensures r.Some? && r.value.minSleepTime < r.value.maxSleepTime ==>
              forall wait: bool, draw: nat :: RandomSleep(r.value, wait, draw).Some?
  {
    var c := Clamp(concurrency, MinConcurrency, MaxConcurrency);
    var lo := if minSleepTime < MinSleepFloor then MinSleepFloor else minSleepTime;
    var hi := if maxSleepTime > MaxSleepCeiling then MaxSleepCeiling else maxSleepTime;
    if lo > hi {
      return None;
    }
    return Some(Spider(c, lo, hi, Clamp(waitForTaskSleepTime, Minute, Hour)));
  }

  /** The detail-page address format, up to its %s placeholder. */
  const PatentPrefix := "https://kns.cnki.net/kcms/detail/detail.aspx?dbcode=SCPD&filename="

  function GetPatentURL(publicCode: string): (url: string)
    ensures |url| == |PatentPrefix| + |publicCode|
    ensures url[..|PatentPrefix|] == PatentPrefix
    ensures url[|PatentPrefix|..] == publicCode
  {
    PatentPrefix + publicCode
  }

  /** Different public codes give different addresses. */
  lemma GetPatentURLInjective(a: string, b: string)
    requires GetPatentURL(a) == GetPatentURL(b)
    ensures a == b
  {
    assert a == GetPatentURL(a)[|PatentPrefix|..];
  }

  /** Go's strings.Split with a one-character separator: pieces between separators. */
  function Split(s: string, sep: char): (pieces: seq<string>)
    ensures |pieces| >= 1
  {
    if s == [] then [""]
    else
      var rest := Split(s[1..], sep);
      if s[0] == sep then [""] + rest else [[s[0]] + rest[0]] + rest[1..]
  }

  /** Glues pieces back together with the separator between them. */
  function Join(pieces: seq<string>, sep: char): string
    requires |pieces| >= 1
  {
    if |pieces| == 1 then pieces[0] else pieces[0] + [sep] + Join(pieces[1..], sep)
  }

  function CountChar(s: string, c: char): nat
  {
    if s == [] then 0 else (if s[0] == c then 1 else 0) + CountChar(s[1..], c)
  }

  /** Joining the pieces gives back the string, and no piece holds the separator. */
  lemma {:induction false} SplitJoin(s: string, sep: char)
    ensures Join(Split(s, sep), sep) == s
    ensures forall i :: 0 <= i < |Split(s, sep)| ==> sep !in Split(s, sep)[i]
    ensures |Split(s, sep)| == CountChar(s, sep) + 1
  {
    if s != [] {
      SplitJoin(s[1..], sep);
      var rest := Split(s[1..], sep);
      if s[0] != sep {
        var pieces := Split(s, sep);
        assert pieces[0] == [s[0]] + rest[0];
        assert pieces[1..] == rest[1..];
        if |rest| > 1 {
          assert Join(rest, sep) == rest[0] + [sep] + Join(rest[1..], sep);
        }
      } else {
        assert Split(s, sep)[1..] == rest;
      }
    }
  }

  /** A string without the separator is a single piece. */
  lemma SplitWithoutSeparator(s: string, sep: char)
    requires sep !in s
    ensures Split(s, sep) == [s]
  {
    SplitJoin(s, sep);
    assert CountChar(s, sep) == 0 by { NoCharCountsZero(s, sep); }
  }

  lemma {:induction false} NoCharCountsZero(s: string, c: char)
    requires c !in s
    ensures CountChar(s, c) == 0
  {
    if s != [] {
      assert c !in s[1..] by {
        forall i | 0 <= i < |s[1..]|
          ensures s[1..][i] != c
        {
          assert s[1..][i] == s[i + 1];
        }
      }
      NoCharCountsZero(s[1..], c);
    }
  }

  datatype Authors = Authors(first: string, second: string, third: string, fourth: string)

  function NthAuthor(a: Authors, i: nat): string
    requires i < 4
  {
    match i
    case 0 => a.first
    case 1 => a.second
    case 2 => a.third
    case 3 => a.fourth
  }

  /**
   * The first four inventors: the i-th result is the i-th ';'-separated
   * piece when there is one and empty otherwise (the separator is ';',
   * not the ',' the function's comment names).
   */
  function GetFirstFourAuthor(inventors: string): (r: Authors)
    ensures var pieces := Split(inventors, ';');
      forall i: nat :: i < 4 ==> NthAuthor(r, i) == if i < |pieces| then pieces[i] else ""
  {
    var pieces := Split(inventors, ';');
    var length := |pieces|;
    Authors(pieces[0],
            if length >= 2 then pieces[1] else "",
            if length >= 3 then pieces[2] else "",
            if length >= 4 then pieces[3] else "")
  }

  /** A string with no ';' comes back whole as the first inventor. */
  lemma SingleInventorWhole(inventors: string)
    requires ';' !in inventors
    ensures GetFirstFourAuthor(inventors) == Authors(inventors, "", "", "")
  {
    SplitWithoutSeparator(inventors, ';');
  }

  /** As ',' is no separator, a comma-separated list stays one piece. */
  lemma CommaIsNoSeparator()
    ensures GetFirstFourAuthor("A,B") == Authors("A,B", "", "", "")
    ensures GetFirstFourAuthor("A;B") == Authors("A", "B", "", "")
  {
    SingleInventorWhole("A,B");
    assert Split("A;B", ';') == ["A", "B"] by {
      assert Split("B", ';') == ["B"] by { SplitWithoutSeparator("B", ';'); }
      assert ";B"[1..] == "B";
      assert Split(";B", ';') == ["", "B"];
      assert "A;B"[1..] == ";B" && "A;B"[0] == 'A';
      assert Split("A;B", ';') == [['A'] + Split(";B", ';')[0]] + Split(";B", ';')[1..];
      assert ['A'] + Split(";B", ';')[0] == "A";
      assert Split(";B", ';')[1..] == ["B"];
    }
  }

  /**
   * One labelled row of a detail page as the extraction yields it: the
   * trimmed label ("" when the row has none) and the concatenated, trimmed
   * texts of its value.
   */
  datatype Row = Row(key: string, value: string)

  /** What fetching and extracting a detail page yields. */
  datatype Page =
    | FetchFailed
    | Extracted(title: Option<string>, rows: seq<Row>, abstractText: Option<string>, sovereignty: Option<string>)

  datatype ParseError =
    | FetchError
    | PublicationNoMismatch(applyPublicationNo: string, authPublicationNo: string, merged: string)

  /** The rows in page order, rows without a label skipped. */
  function FillRows(p: Patent, rows: seq<Row>): Patent
  {
    if rows == [] then p
    else
      var q := FillRows(p, rows[..|rows| - 1]);
      var row := rows[|rows| - 1];
      if row.key == "" then q else FillRowFields(q, row.key, row.value)
  }

  /** No row can reach a field outside the label table. */
  lemma {:induction false} FillRowsKeepsOtherFields(p: Patent, rows: seq<Row>, f: Field)
    requires f in NonRowFields
    ensures Get(FillRows(p, rows), f) == Get(p, f)
  {
    if rows != [] {
      FillRowsKeepsOtherFields(p, rows[..|rows| - 1], f);
    }
  }

  /**
   * The patent as assembled from the page, before the publication-number
   * merge. Rows cannot reach the address, the subject code, the year or the
   * merged publication number.
   */
  function Assemble(code: string, publicCode: string, page: Page): (p: Patent)
    requires page.Extracted?
    ensures p.url == GetPatentURL(publicCode) && p.naviCode == code
    ensures p.year == "" && p.publicationNo == ""
  {
    var p0 := EmptyPatent.(naviCode := code, url := GetPatentURL(publicCode));
    var p1 := if page.title.Some? then p0.(title := page.title.value) else p0;
    FillRowsKeepsOtherFields(p1, page.rows, PublicationNo);
    FillRowsKeepsOtherFields(p1, page.rows, Url);
    FillRowsKeepsOtherFields(p1, page.rows, NaviCode);
    FillRowsKeepsOtherFields(p1, page.rows, Year);
    var p2 := FillRows(p1, page.rows);
    var p3 := if page.abstractText.Some? then p2.(abstractText := page.abstractText.value) else p2;
    if page.sovereignty.Some? then p3.(sovereignty := page.sovereignty.value) else p3
  }

  /**
   * Merges the two publication numbers: a non-empty grant number wins over a
   * non-empty application number, and with both empty the old value stays.
   */
  function MergePublicationNo(p: Patent): (r: Patent)
    ensures r.publicationNo ==
      if p.authPublicationNo != "" then p.authPublicationNo
      else if p.applyPublicationNo != "" then p.applyPublicationNo
      else p.publicationNo
    ensures r == p.(publicationNo := r.publicationNo)
  {
    var q := if p.applyPublicationNo != "" then p.(publicationNo := p.applyPublicationNo) else p;
    if q.authPublicationNo != "" then q.(publicationNo := q.authPublicationNo) else q
  }

  /** The outcome ParseContent must produce for a page. */
  function ParsePage(code: string, publicCode: string, page: Page): Result<Patent, ParseError>
  {
    match page
    case FetchFailed => Err(FetchError)
    case Extracted(_, _, _, _) =>
      var merged := MergePublicationNo(Assemble(code, publicCode, page));
      if merged.publicationNo != publicCode then
        Err(PublicationNoMismatch(merged.applyPublicationNo, merged.authPublicationNo, merged.publicationNo))
      else Ok(merged)
  }

  /**
   * A parsed patent carries the task's public code as its publication
   * number, the page address and the subject code; the year is never set,
   * since the source tests the length of the still-empty year field rather
   * than that of the date. An extracted page is refused exactly when the
   * merged number differs from the public code.
   */
  lemma ParsePageChecksPublicationNo(code: string, publicCode: string, page: Page)
    ensures var r := ParsePage(code, publicCode, page);
      r.Ok? ==>
        r.value.publicationNo == publicCode && r.value.url == GetPatentURL(publicCode) &&
        r.value.naviCode == code && r.value.year == ""
    ensures page.Extracted? ==>
      var p := Assemble(code, publicCode, page);
      var mergedNo := if p.authPublicationNo != "" then p.authPublicationNo else p.applyPublicationNo;
      (ParsePage(code, publicCode, page).Err? <==> mergedNo != publicCode)
  {
  }

  /** The year the assembly evidently means to store: the date's first four characters. */
  function IntendedYear(date: string): (y: string)
    ensures y <= date
    ensures |date| >= 4 ==> |y| == 4
    ensures |date| < 4 ==> y == ""
  {
    if |date| >= 4 then date[..4] else ""
  }

  /** As written, even a date such as 20210101 leaves the year empty. */
  lemma YearNeverSet(publicCode: string)
    ensures var page := Extracted(None, [Row("申请公布号：", publicCode)], None, None);
      ParsePage("A01", publicCode, page).Ok? &&
      ParsePage("A01", publicCode, page).value.year == "" && IntendedYear("20210101") == "2021"
  {
    var page := Extracted(None, [Row("申请公布号：", publicCode)], None, None);
    var p0 := EmptyPatent.(naviCode := "A01", url := GetPatentURL(publicCode));
    assert FillRows(p0, page.rows) == FillRowFields(p0, "申请公布号：", publicCode) by {
      assert page.rows[..0] == [];
    }
    assert FieldOfKey("申请公布号：") == Some(ApplyPublicationNo);
    var q := FillRowFields(p0, "申请公布号：", publicCode);
    assert Get(q, ApplyPublicationNo) == publicCode;
    assert Assemble("A01", publicCode, page) == q;
    ParsePageChecksPublicationNo("A01", publicCode, page);
  }

  /**
   * Builds the patent from the fetched page: subject code and address first,
   * then the title, each labelled row in turn, the abstract and the claims;
   * finally merges the publication numbers and checks them against the
   * task's public code.
   */
  method ParseContent(date: string, code: string, publicCode: string, page: Page)
    returns (r: Result<Patent, ParseError>)
    ensures r == ParsePage(code, publicCode, page)
  {
    if page.FetchFailed? {
      return Err(FetchError);
    }
    var patent := EmptyPatent;
    patent := patent.(naviCode := code);
    // The year would be copied from the date only if the still-empty year
    // field were four characters long, so it stays empty.
    patent := patent.(url := GetPatentURL(publicCode));
    if page.title.Some? {
      patent := patent.(title := page.title.value);
    }
    ghost var start := patent;
    var rows := page.rows;
    for i := 0 to |rows|
      invariant patent == FillRows(start, rows[..i])
    {
      assert rows[..i + 1][..i] == rows[..i];
      if rows[i].key == "" {
        continue;
      }
      patent := FillRowFields(patent, rows[i].key, rows[i].value);
    }
    assert rows[..|rows|] == rows;
    if page.abstractText.Some? {
      patent := patent.(abstractText := page.abstractText.value);
    }
    if page.sovereignty.Some? {
      patent := patent.(sovereignty := page.sovereignty.value);
    }
    if patent.applyPublicationNo != "" {
      patent := patent.(publicationNo := patent.applyPublicationNo);
    }
    if patent.authPublicationNo != "" {
      patent := patent.(publicationNo := patent.authPublicationNo);
    }
    if patent.publicationNo != publicCode {
      return Err(PublicationNoMismatch(patent.applyPublicationNo, patent.authPublicationNo, patent.publicationNo));
    }
    return Ok(patent);
  }

  // ---------------------------------------------------------------------------
  // The crawl loop
  // ---------------------------------------------------------------------------

  /** What one request for a task yields. */
  datatype Attempt =
    | AllFinished    // no unfinished task is left
    | GetTaskFailed  // any other error from the store
    | Leased(taskID: nat, publicCode: string, date: string, code: string, page: Page, saveFails: bool)
      // a task, the page fetched for it, and whether saving its patent fails

  /** The loop's counter, the wait-mode flag and the patents handed to the store, in order. */
  datatype RunState = RunState(errCount: nat, waitForTask: bool, saved: seq<(nat, Patent)>)

  datatype Stop =
    | Panicked       // the random sleep's bound was not positive
    | ErrorLimit     // the error counter went above 60
    | OutOfAttempts  // the given attempts are used up (the source loops on)

  /** How a run ends: its final state, every sleep taken, how many attempts it handled, and why it stopped. */
  datatype RunOutcome = RunOutcome(state: RunState, sleeps: seq<int>, handled: nat, stop: Stop)

  function Start(waitForTask: bool): RunState
  {
    RunState(0, waitForTask, [])
  }

  /** A leased task costs one error when its page fails to parse, fails validation, or fails to save. */
  predicate LeaseFails(a: Attempt)
    requires a.Leased?
  {
    var parsed := ParsePage(a.code, a.publicCode, a.page);
    parsed.Err? || !IsValid(parsed.value) || a.saveFails
  }

  /**
   * The effect of one request on the loop's state. "All tasks finished" only
   * switches to wait mode; another store error counts one more error; a
   * leased task resets the counter, leaves wait mode, and counts one error
   * if handling it fails. A valid, matching patent is saved.
   */
  function Handle(st: RunState, a: Attempt): (r: RunState)
    ensures a.AllFinished? ==> r == st.(waitForTask := true)
    ensures a.GetTaskFailed? ==> r == st.(errCount := st.errCount + 1)
    ensures a.Leased? ==> !r.waitForTask && r.errCount == (if LeaseFails(a) then 1 else 0)
    ensures a.Leased? ==>
      var parsed := ParsePage(a.code, a.publicCode, a.page);
      r.saved == st.saved + (if parsed.Ok? && IsValid(parsed.value) then [(a.taskID, parsed.value)] else [])
  {
    match a
    case AllFinished => st.(waitForTask := true)
    case GetTaskFailed => st.(errCount := st.errCount + 1)
    case Leased(taskID, publicCode, _, code, page, saveFails) =>
      var leased := st.(errCount := 0, waitForTask := false);
      var parsed := ParsePage(code, publicCode, page);
      if parsed.Err? || !IsValid(parsed.value) then leased.(errCount := leased.errCount + 1)
      else
        var saving := leased.(saved := leased.saved + [(taskID, parsed.value)]);
        if saveFails then saving.(errCount := saving.errCount + 1) else saving
  }

  /** The state after handling the requests in order. */
  function HandleAll(st: RunState, attempts: seq<Attempt>): RunState
  {
    if attempts == [] then st
    else Handle(HandleAll(st, attempts[..|attempts| - 1]), attempts[|attempts| - 1])
  }

  lemma HandleAllSnoc(st: RunState, attempts: seq<Attempt>, i: nat)
    requires i < |attempts|
    ensures HandleAll(st, attempts[..i + 1]) == Handle(HandleAll(st, attempts[..i]), attempts[i])
  {
    assert attempts[..i + 1][..i] == attempts[..i];
  }

  /** A turn that slept for d and went on to request a task. */
  predicate TurnTaken(s: Spider, st: RunState, draw: nat, d: int)
  {
    RandomSleep(s, st.waitForTask, draw) == Some(d) && st.errCount <= MaxSpiderErrors
  }

  /** One request handled as the loop body does it: parse, validate, save. */
  method HandleAttempt(st: RunState, a: Attempt) returns (r: RunState)
    ensures r == Handle(st, a)
  {
    match a
    case AllFinished =>
      r := st.(waitForTask := true);
    case GetTaskFailed =>
      r := st.(errCount := st.errCount + 1);
    case Leased(taskID, publicCode, date, code, page, saveFails) =>
      r := st.(errCount := 0);
      if r.waitForTask {
        r := r.(waitForTask := false);
      }
      var parsed := ParseContent(date, code, publicCode, page);
      if parsed.Err? {
        r := r.(errCount := r.errCount + 1);
        return;
      }
      var ok := Validate(parsed.value);
      if !ok {
        r := r.(errCount := r.errCount + 1);
        return;
      }
      r := r.(saved := r.saved + [(taskID, parsed.value)]);
      if saveFails {
        r := r.(errCount := r.errCount + 1);
      }
  }

  /**
   * The turns a run took before its current one: turn j started from the
   * state after the first j requests, slept sleeps[j], and went on to request
   * a task. TurnsTakenMeans reads this off for any one turn.
   */
  predicate TurnsTaken(s: Spider, waitForTask: bool, attempts: seq<Attempt>, draws: seq<nat>, sleeps: seq<int>)
    requires |sleeps| <= |attempts| && |sleeps| <= |draws|
  {
    if sleeps == [] then true
    else
      var j := |sleeps| - 1;
      TurnsTaken(s, waitForTask, attempts, draws, sleeps[..j]) &&
      TurnTaken(s, HandleAll(Start(waitForTask), attempts[..j]), draws[j], sleeps[j])
  }

  lemma {:induction false} TurnsTakenMeans(s: Spider, waitForTask: bool, attempts: seq<Attempt>, draws: seq<nat>,
                                          sleeps: seq<int>, j: nat)
    requires |sleeps| <= |attempts| && |sleeps| <= |draws|
    requires TurnsTaken(s, waitForTask, attempts, draws, sleeps) && j < |sleeps|
    ensures TurnTaken(s, HandleAll(Start(waitForTask), attempts[..j]), draws[j], sleeps[j])
  {
    var n := |sleeps| - 1;
    if j < n {
      TurnsTakenMeans(s, waitForTask, attempts, draws, sleeps[..n], j);
      assert sleeps[..n][j] == sleeps[j];
    }
  }

  /**
   * The crawl loop of one spider, fed the store's answers in order and one
   * random draw per sleep; waitForTask is the wait-mode flag it starts
   * with. Every turn sleeps first and only then checks the counter. The run
   * handles attempts up to the first turn whose sleep panics or whose
   * counter exceeds 60, and its state is that of the handled attempts.
   */
  method Run(s: Spider, waitForTask: bool, attempts: seq<Attempt>, draws: seq<nat>) returns (out: RunOutcome)
    requires |attempts| < |draws|
    ensures out.handled <= |attempts|
    ensures out.state == HandleAll(Start(waitForTask), attempts[..out.handled])
    ensures |out.sleeps| == if out.stop == Panicked then out.handled else out.handled + 1
    ensures TurnsTaken(s, waitForTask, attempts, draws, out.sleeps[..out.handled])
    ensures out.stop == Panicked ==> RandomSleep(s, out.state.waitForTask, draws[out.handled]).None?
    ensures out.stop != Panicked ==>
      RandomSleep(s, out.state.waitForTask, draws[out.handled]) == Some(out.sleeps[out.handled])
    ensures out.stop == ErrorLimit ==> out.state.errCount > MaxSpiderErrors
    ensures out.stop == OutOfAttempts ==> out.handled == |attempts| && out.state.errCount <= MaxSpiderErrors
  {
    var st := Start(waitForTask);
    var sleeps: seq<int> := [];
    var i := 0;
    assert attempts[..0] == [];
    while true
      invariant i <= |attempts| && |sleeps| == i
      invariant st == HandleAll(Start(waitForTask), attempts[..i])
      invariant TurnsTaken(s, waitForTask, attempts, draws, sleeps)
      decreases |attempts| - i
    {
      var d := RandomSleep(s, st.waitForTask, draws[i]);
      if d.None? {
        assert sleeps[..i] == sleeps;
        return RunOutcome(st, sleeps, i, Panicked);
      }
      var slept := sleeps + [d.value];
      assert slept[..i] == sleeps;
      if st.errCount > MaxSpiderErrors {
        return RunOutcome(st, slept, i, ErrorLimit);
      }
      if i == |attempts| {
        return RunOutcome(st, slept, i, OutOfAttempts);
      }
      assert TurnsTaken(s, waitForTask, attempts, draws, slept);
      sleeps := slept;
      st := HandleAttempt(st, attempts[i]);
      HandleAllSnoc(Start(waitForTask), attempts, i);
      i := i + 1;
    }
  }

  /** The index of the last leased task, or -1. */
  function LastLease(attempts: seq<Attempt>): (k: int)
    ensures -1 <= k < |attempts|
    ensures k >= 0 ==> attempts[k].Leased?
    ensures forall j :: k < j < |attempts| ==> !attempts[j].Leased?
  {
    if attempts == [] then -1
    else if attempts[|attempts| - 1].Leased? then |attempts| - 1
    else LastLease(attempts[..|attempts| - 1])
  }

  function FailedGets(attempts: seq<Attempt>): nat
  {
    if attempts == [] then 0
    else FailedGets(attempts[..|attempts| - 1]) + if attempts[|attempts| - 1].GetTaskFailed? then 1 else 0
  }

  /** Past a request that is not a lease, the last lease stays where it was. */
  lemma TailAfterNonLease(attempts: seq<Attempt>)
    requires attempts != [] && !attempts[|attempts| - 1].Leased?
    ensures var init := attempts[..|attempts| - 1];
      var k := LastLease(init);
      LastLease(attempts) == k &&
      attempts[k + 1..] == init[k + 1..] + [attempts[|attempts| - 1]]
  {
  }

  lemma FailedGetsSnoc(t: seq<Attempt>, a: Attempt)
    ensures FailedGets(t + [a]) == FailedGets(t) + if a.GetTaskFailed? then 1 else 0
  {
    assert (t + [a])[..|t|] == t;
  }

  /** What the counter started from at the last leased task: the lease's own cost, or the initial count. */
  function CountAtLastLease(st: RunState, attempts: seq<Attempt>): nat
  {
    var k := LastLease(attempts);
    if k < 0 then st.errCount else if LeaseFails(attempts[k]) then 1 else 0
  }

  lemma CountAtLastLeaseAfterNonLease(st: RunState, attempts: seq<Attempt>)
    requires attempts != [] && !attempts[|attempts| - 1].Leased?
    ensures CountAtLastLease(st, attempts) == CountAtLastLease(st, attempts[..|attempts| - 1])
  {
    var init := attempts[..|attempts| - 1];
    var k := LastLease(init);
    assert LastLease(attempts) == k;
    if k >= 0 {
      assert attempts[k] == init[k];
    }
  }

  /**
   * The counter after any sequence of requests: the number of store errors
   * since the last leased task, plus one if handling that task failed, or
   * plus the starting count if no task was leased.
   */
  lemma {:induction false} RunCounterRule(st: RunState, attempts: seq<Attempt>)
    ensures HandleAll(st, attempts).errCount ==
      CountAtLastLease(st, attempts) + FailedGets(attempts[LastLease(attempts) + 1..])
  {
    if attempts != [] {
      RunCounterRule(st, attempts[..|attempts| - 1]);
      CounterStep(st, attempts);
    }
  }

  /** The induction step of RunCounterRule. */
  lemma CounterStep(st: RunState, attempts: seq<Attempt>)
    requires attempts != []
    requires var init := attempts[..|attempts| - 1];
      HandleAll(st, init).errCount == CountAtLastLease(st, init) + FailedGets(init[LastLease(init) + 1..])
    ensures HandleAll(st, attempts).errCount ==
      CountAtLastLease(st, attempts) + FailedGets(attempts[LastLease(attempts) + 1..])
  {
    if attempts[|attempts| - 1].Leased? {
      CounterAfterLease(st, attempts);
    } else {
      CounterAfterOther(st, attempts);
    }
  }

  lemma CounterAfterOther(st: RunState, attempts: seq<Attempt>)
    requires attempts != [] && !attempts[|attempts| - 1].Leased?
    ensures var init := attempts[..|attempts| - 1];
      var k := LastLease(init);
      HandleAll(st, attempts).errCount ==
        HandleAll(st, init).errCount + (if attempts[|attempts| - 1].GetTaskFailed? then 1 else 0) &&
      CountAtLastLease(st, attempts) == CountAtLastLease(st, init) &&
      FailedGets(attempts[LastLease(attempts) + 1..]) ==
        FailedGets(init[k + 1..]) + (if attempts[|attempts| - 1].GetTaskFailed? then 1 else 0)
  {
    var n := |attempts|;
    var init := attempts[..n - 1];
    var last := attempts[n - 1];
    assert HandleAll(st, attempts) == Handle(HandleAll(st, init), last);
    TailAfterNonLease(attempts);
    CountAtLastLeaseAfterNonLease(st, attempts);
    FailedGetsSnoc(init[LastLease(init) + 1..], last);
  }

  lemma CounterAfterLease(st: RunState, attempts: seq<Attempt>)
    requires attempts != [] && attempts[|attempts| - 1].Leased?
    ensures HandleAll(st, attempts).errCount == CountAtLastLease(st, attempts)
    ensures attempts[LastLease(attempts) + 1..] == []
  {
    var n := |attempts|;
    assert HandleAll(st, attempts) == Handle(HandleAll(st, attempts[..n - 1]), attempts[n - 1]);
  }

  /**
   * The wait flag after any sequence of requests: set exactly when "all
   * tasks finished" came after the last leased task, or no task was leased
   * and the loop was waiting already.
   */
  lemma {:induction false} RunWaitRule(st: RunState, attempts: seq<Attempt>)
    ensures var k := LastLease(attempts);
      HandleAll(st, attempts).waitForTask == (AllFinished in attempts[k + 1..] || (k < 0 && st.waitForTask))
  {
    if attempts != [] {
      RunWaitRule(st, attempts[..|attempts| - 1]);
      if attempts[|attempts| - 1].Leased? {
        WaitAfterLease(st, attempts);
      } else {
        WaitAfterOther(st, attempts);
      }
    }
  }

  /** A lease ends wait mode, and nothing comes after the last lease. */
  lemma WaitAfterLease(st: RunState, attempts: seq<Attempt>)
    requires attempts != [] && attempts[|attempts| - 1].Leased?
    ensures !HandleAll(st, attempts).waitForTask
    ensures LastLease(attempts) == |attempts| - 1 && attempts[LastLease(attempts) + 1..] == []
  {
    var n := |attempts|;
    assert HandleAll(st, attempts) == Handle(HandleAll(st, attempts[..n - 1]), attempts[n - 1]);
  }

  /** The induction step of RunWaitRule past a request that is not a lease. */
  lemma WaitAfterOther(st: RunState, attempts: seq<Attempt>)
    requires attempts != [] && !attempts[|attempts| - 1].Leased?
    requires var init := attempts[..|attempts| - 1];
      var k := LastLease(init);
      HandleAll(st, init).waitForTask == (AllFinished in init[k + 1..] || (k < 0 && st.waitForTask))
    ensures var k := LastLease(attempts);
      HandleAll(st, attempts).waitForTask == (AllFinished in attempts[k + 1..] || (k < 0 && st.waitForTask))
  {
    var n := |attempts|;
    var init := attempts[..n - 1];
    var last := attempts[n - 1];
    var k := LastLease(init);
    TailAfterNonLease(attempts);
    var before := HandleAll(st, init);
    assert HandleAll(st, attempts) == Handle(before, last);
    assert (AllFinished in attempts[k + 1..]) == (AllFinished in init[k + 1..] || last == AllFinished);
    if last.AllFinished? {
      assert Handle(before, last).waitForTask;
    } else {
      assert Handle(before, last).waitForTask == before.waitForTask;
    }
  }

  /**
   * From a fresh start the loop only gives up after at least 60 store errors
   * since the last leased task (61 when none was leased); "all tasks
   * finished" answers between them neither count nor reset the counter.
   */
  lemma ErrorLimitNeedsStoreErrors(waitForTask: bool, attempts: seq<Attempt>)
    requires HandleAll(Start(waitForTask), attempts).errCount > MaxSpiderErrors
    ensures var k := LastLease(attempts);
      FailedGets(attempts[k + 1..]) >= (if k < 0 then MaxSpiderErrors + 1 else MaxSpiderErrors)
  {
    RunCounterRule(Start(waitForTask), attempts);
  }

  predicate AllSavedValid(st: RunState)
  {
    forall j :: 0 <= j < |st.saved| ==> IsValid(st.saved[j].1)
  }

  /** Handling one request adds only valid patents to what was saved. */
  lemma HandleSavesValid(st: RunState, a: Attempt)
    requires AllSavedValid(st)
    ensures AllSavedValid(Handle(st, a))
  {
    if a.Leased? {
      var parsed := ParsePage(a.code, a.publicCode, a.page);
      if parsed.Ok? && IsValid(parsed.value) {
        var saved := Handle(st, a).saved;
        assert saved == st.saved + [(a.taskID, parsed.value)];
        assert forall j :: 0 <= j < |st.saved| ==> saved[j] == st.saved[j];
      }
    }
  }

  /** Everything the loop hands to the store is a valid patent. */
  lemma {:induction false} SavedPatentsAreValid(st: RunState, attempts: seq<Attempt>)
    requires AllSavedValid(st)
    ensures AllSavedValid(HandleAll(st, attempts))
  {
    if attempts != [] {
      SavedPatentsAreValid(st, attempts[..|attempts| - 1]);
      HandleSavesValid(HandleAll(st, attempts[..|attempts| - 1]), attempts[|attempts| - 1]);
    }
  }
}
