/** The availability-to-job schedule matcher of the calendar page: clock texts become
    fractional hours, each job window is compared with each availability row by an
    overlap percentage and a fit score, and the matches of one weekday are clustered
    into groups of strictly overlapping boxes for display. Times are exact reals. */
module Calendar {
  import opened Wrappers
  import opened JsText

  /** A job of the job list the page matches against (the list itself is an input). */
  datatype Job = Job(id: int, title: string, day: string, start: string, end: string,
                     company: string, category: string, description: Option<string>)

  /** One availability row of the form: weekday name, start and end clock texts
      ("" until picked) and a category filter ("" means any category). */
  datatype InputRow = InputRow(day: string, start: string, end: string, jobType: string)

  /** A matched job as the page lays it out: the job, its weekday column, its window
      in fractional hours, and the two scores. */
  datatype EventBox = EventBox(job: Job, dayIndex: Option<nat>, top: real, bottom: real,
                               overlapPercentage: real, fitScore: int)

  /** Weekday names, Monday first, in the order of the page's columns. */
  const DayNames: seq<string> := ["Даваа", "Мягмар", "Лхагва", "Пүрэв", "Баасан", "Бямба", "Ням"]

  /** The smallest overlap percentage a job needs to be shown. */
  const MinOverlap: real := 10.0

  /** The column of a weekday name, or None (`undefined`) for any other text. */
  function DayIndex(day: string): (r: Option<nat>)
    ensures r.Some? ==> r.value < |DayNames| && DayNames[r.value] == day
    ensures r.None? <==> day !in DayNames
  {
    if day == DayNames[0] then Some(0)
    else if day == DayNames[1] then Some(1)
    else if day == DayNames[2] then Some(2)
    else if day == DayNames[3] then Some(3)
    else if day == DayNames[4] then Some(4)
    else if day == DayNames[5] then Some(5)
    else if day == DayNames[6] then Some(6)
    else None
  }

  // ---------------------------------------------------------------- arithmetic

  function Max(a: real, b: real): real { if a >= b then a else b }
  function Min(a: real, b: real): real { if a <= b then a else b }
  function Abs(x: real): real { if x < 0.0 then -x else x }

  /** `Math.round`: the nearest integer, halves rounded up. */
  function Round(x: real): (r: int)
    ensures x - 0.5 < r as real <= x + 0.5
  {
    (x + 0.5).Floor
  }

  /** `hhmmToFloat`: hours plus minutes as a fraction of an hour, that is the
      minutes since midnight counted in hours. */
  function HhmmToFloat(t: string): (r: real)
    requires IsClockText(t)
    ensures r * 60.0 == (Hours(t) * 60 + Minutes(t)) as real
    ensures Minutes(t) < 60 ==> Hours(t) as real <= r < Hours(t) as real + 1.0
  {
    Hours(t) as real + Minutes(t) as real / 60.0
  }

  /** "HH:MM" reads as HH + MM/60. */
  lemma HhmmToFloatOfParts(h: string, m: string)
    requires h != [] && AllDigits(h) && m != [] && AllDigits(m)
    ensures IsClockText(h + ":" + m)
    ensures HhmmToFloat(h + ":" + m) == DigitsValue(h) as real + DigitsValue(m) as real / 60.0
  {
    ClockTextParts(h, m);
  }

  /** With minutes below 60, `parseFloat` of a clock text is the whole hour below
      its `hhmmToFloat` value, and the two agree exactly when the minutes are zero. */
  lemma ParseFloatIsWholeHour(t: string)
    requires IsClockText(t) && Minutes(t) < 60
    ensures ParseFloat(t) == HhmmToFloat(t).Floor
    ensures (ParseFloat(t) as real == HhmmToFloat(t)) <==> Minutes(t) == 0
  {
    var f := Minutes(t) as real / 60.0;
    assert 0.0 <= f < 1.0;
    assert HhmmToFloat(t) == Hours(t) as real + f;
  }

  /** `calculateOverlap`: the intersection of the job window [js, je] and the
      availability window [us, ue], as the average of its share of each window,
      on a 0-100 scale; 0 when the windows do not properly intersect. */
  function CalculateOverlap(js: real, je: real, us: real, ue: real): (r: real)
    ensures 0.0 <= r <= 100.0
    ensures r == 0.0 <==> Max(js, us) >= Min(je, ue)
  {
    var start := Max(js, us);
    var end := Min(je, ue);
    if start >= end then 0.0
    else
      var overlap := end - start;
      ShareBounds(overlap, je - js);
      ShareBounds(overlap, ue - us);
      ((overlap / (je - js)) * 100.0 + (overlap / (ue - us)) * 100.0) / 2.0
  }

  /** A part of a positive length is a share in (0, 100] of it, and a full one only
      when the part is the whole. */
  lemma ShareBounds(part: real, whole: real)
    requires 0.0 < part <= whole
    ensures 0.0 < (part / whole) * 100.0 <= 100.0
    ensures (part / whole) * 100.0 == 100.0 <==> part == whole
  {
    var q := part / whole;
    assert q * whole == part;
  }

  /** The overlap percentage does not depend on which window is the job's. */
  lemma OverlapSymmetric(js: real, je: real, us: real, ue: real)
    ensures CalculateOverlap(js, je, us, ue) == CalculateOverlap(us, ue, js, je)
  {
    assert Max(js, us) == Max(us, js) && Min(je, ue) == Min(ue, je);
  }

  /** Windows that touch or are apart overlap 0 %. */
  lemma OverlapOfDisjoint(js: real, je: real, us: real, ue: real)
    requires je <= us || ue <= js
    ensures CalculateOverlap(js, je, us, ue) == 0.0
  {
  }

  /** A job window of positive length overlaps 100 % exactly when the availability
      window is the same window. */
  lemma OverlapFullIffIdentical(js: real, je: real, us: real, ue: real)
    requires js < je
    ensures CalculateOverlap(js, je, us, ue) == 100.0 <==> (js == us && je == ue)
  {
    var start := Max(js, us);
    var end := Min(je, ue);
    if start < end {
      var overlap := end - start;
      ShareBounds(overlap, je - js);
      ShareBounds(overlap, ue - us);
    }
  }

  /** `calculateFitScore`: 40 points for the overlap, 20 when the job lies inside the
      availability, 10 each for starts and for ends less than half an hour apart, and
      up to 20 for similar durations (5 points off per hour of difference), rounded.
      Every term is capped, so the score is always between 0 and 100. */
  function CalculateFitScore(js: real, je: real, us: real, ue: real): (r: int)
    ensures 0 <= r <= 100
  {
    var score := (CalculateOverlap(js, je, us, ue) / 100.0) * 40.0
      + (if js >= us && je <= ue then 20.0 else 0.0)
      + (if Abs(js - us) < 0.5 then 10.0 else 0.0)
      + (if Abs(je - ue) < 0.5 then 10.0 else 0.0)
      + Max(0.0, 20.0 - Abs(je - js - (ue - us)) * 5.0);
    Round(score)
  }

  /** A job whose window equals the availability window scores 40+20+10+10+20 = 100. */
  lemma FitScoreOfIdentical(s: real, e: real)
    requires s < e
    ensures CalculateFitScore(s, e, s, e) == 100
  {
    OverlapFullIffIdentical(s, e, s, e);
  }

  // ---------------------------------------------------------------- matching

  /** How an availability clock text is turned into hours. The page reads it with
      `parseFloat`, which keeps only the hour; `hhmmToFloat`, used for the jobs, also
      counts the minutes. */
  datatype TimeReading = LeadingHour | HourAndMinutes

  function ReadTime(reading: TimeReading, t: string): real
    requires IsClockText(t)
  {
    match reading
    case LeadingHour => ParseFloat(t) as real
    case HourAndMinutes => HhmmToFloat(t)
  }

  /** A job of the list carries clock texts for both of its ends. */
  predicate ClockJob(job: Job) {
    IsClockText(job.start) && IsClockText(job.end)
  }

  predicate WellFormedJobs(jobs: seq<Job>) {
    forall j :: 0 <= j < |jobs| ==> ClockJob(jobs[j])
  }

  /** A time input holds "" until a time is picked, and a clock text afterwards. */
  predicate ClockRow(row: InputRow) {
    (row.start == "" || IsClockText(row.start)) && (row.end == "" || IsClockText(row.end))
  }

  predicate WellFormedRows(rows: seq<InputRow>) {
    forall i :: 0 <= i < |rows| ==> ClockRow(rows[i])
  }

  /** A row takes part: day, start and end are filled in and the start, as read,
      comes before the end. */
  predicate RowActive(row: InputRow, reading: TimeReading)
    requires ClockRow(row)
  {
    row.day != "" && row.start != "" && row.end != ""
    && ReadTime(reading, row.start) < ReadTime(reading, row.end)
  }

  /** A job is shown for a row with window [us, ue] when the weekday names are equal,
      the categories are equal if the row names one, and the overlap reaches 10 %. */
  predicate Accepts(row: InputRow, job: Job, us: real, ue: real)
    requires ClockJob(job)
  {
    job.day == row.day
    && (row.jobType == "" || job.category == row.jobType)
    && CalculateOverlap(HhmmToFloat(job.start), HhmmToFloat(job.end), us, ue) >= MinOverlap
  }

  /** The box of a job matched against the window [us, ue]. */
  function EventFor(job: Job, us: real, ue: real): EventBox
    requires ClockJob(job)
  {
    var js := HhmmToFloat(job.start);
    var je := HhmmToFloat(job.end);
    EventBox(job, DayIndex(job.day), js, je, CalculateOverlap(js, je, us, ue), CalculateFitScore(js, je, us, ue))
  }

  /** The box the job gets for a row with window [us, ue], or None if it is not shown. */
  function Candidate(row: InputRow, us: real, ue: real, job: Job): Option<EventBox>
    requires ClockJob(job)
  {
    if Accepts(row, job, us, ue) then Some(EventFor(job, us, ue)) else None
  }

  /** The boxes a row with window [us, ue] contributes, in job-list order. */
  function RowEvents(row: InputRow, us: real, ue: real, jobs: seq<Job>): seq<EventBox>
    requires WellFormedJobs(jobs)
  {
    FilterMap(jobs, (job: Job) requires ClockJob(job) => Candidate(row, us, ue, job))
  }

  /** What a row contributes: nothing when it does not take part. */
  function RowMatches(row: InputRow, jobs: seq<Job>, reading: TimeReading): seq<EventBox>
    requires ClockRow(row) && WellFormedJobs(jobs)
  {
    if RowActive(row, reading)
    then RowEvents(row, ReadTime(reading, row.start), ReadTime(reading, row.end), jobs)
    else []
  }

  /** All boxes, row by row and, within a row, job by job; a row shows a job at most
      once. */
  function Matches(rows: seq<InputRow>, jobs: seq<Job>, reading: TimeReading): (r: seq<EventBox>)
    requires WellFormedRows(rows) && WellFormedJobs(jobs)
    ensures |r| <= |rows| * |jobs|
  {
    var f := (row: InputRow) requires ClockRow(row) => RowMatches(row, jobs, reading);
    ConcatMapAtMost(rows, f, |jobs|);
    ConcatMap(rows, f)
  }

  // ---------------------------------------------------------------- list shapes

  /** The values `f` keeps, in the order of `xs`: a `forEach` that pushes some results. */
  function FilterMap<A, B>(xs: seq<A>, f: A --> Option<B>): (r: seq<B>)
    requires forall i :: 0 <= i < |xs| ==> f.requires(xs[i])
    ensures |r| <= |xs|
  {
    if xs == [] then []
    else FilterMap(xs[..|xs| - 1], f) + (match f(xs[|xs| - 1]) case Some(b) => [b] case None => [])
  }

  /** The lists `f` gives for the elements of `xs`, one after the other. */
  function ConcatMap<A, B>(xs: seq<A>, f: A --> seq<B>): seq<B>
    requires forall i :: 0 <= i < |xs| ==> f.requires(xs[i])
  {
    if xs == [] then [] else ConcatMap(xs[..|xs| - 1], f) + f(xs[|xs| - 1])
  }

  /** When every element gives at most `n` values, the whole gives at most `n` per
      element. */
  lemma {:induction false} ConcatMapAtMost<A, B>(xs: seq<A>, f: A --> seq<B>, n: nat)
    requires forall i :: 0 <= i < |xs| ==> f.requires(xs[i]) && |f(xs[i])| <= n
    ensures |ConcatMap(xs, f)| <= |xs| * n
    decreases |xs|
  {
    if xs != [] {
      var init := xs[..|xs| - 1];
      assert forall i :: 0 <= i < |init| ==> init[i] == xs[i];
      ConcatMapAtMost(init, f, n);
      assert |init| * n + n == |xs| * n;
    }
  }

  lemma {:induction false} FilterMapMembership<A, B>(xs: seq<A>, f: A --> Option<B>, b: B)
    requires forall i :: 0 <= i < |xs| ==> f.requires(xs[i])
    ensures b in FilterMap(xs, f) <==> exists i :: 0 <= i < |xs| && f(xs[i]) == Some(b)
    decreases |xs|
  {
    if xs != [] {
      var init := xs[..|xs| - 1];
      FilterMapMembership(init, f, b);
      assert forall i :: 0 <= i < |init| ==> init[i] == xs[i];
      if f(xs[|xs| - 1]) == Some(b) {
        assert b in FilterMap(xs, f);
      }
    }
  }

  lemma {:induction false} ConcatMapMembership<A, B>(xs: seq<A>, f: A --> seq<B>, b: B)
    requires forall i :: 0 <= i < |xs| ==> f.requires(xs[i])
    ensures b in ConcatMap(xs, f) <==> exists i :: 0 <= i < |xs| && b in f(xs[i])
    decreases |xs|
  {
    if xs != [] {
      var init := xs[..|xs| - 1];
      ConcatMapMembership(init, f, b);
      assert forall i :: 0 <= i < |init| ==> init[i] == xs[i];
    }
  }

  lemma {:induction false} ConcatMapConcat<A, B>(xs: seq<A>, ys: seq<A>, f: A --> seq<B>)
    requires forall i :: 0 <= i < |xs| ==> f.requires(xs[i])
    requires forall i :: 0 <= i < |ys| ==> f.requires(ys[i])
    ensures forall i :: 0 <= i < |xs + ys| ==> f.requires((xs + ys)[i])
    ensures ConcatMap(xs + ys, f) == ConcatMap(xs, f) + ConcatMap(ys, f)
    decreases |ys|
  {
    if ys == [] {
      assert xs + ys == xs;
    } else {
      var init := ys[..|ys| - 1];
      assert (xs + ys)[..|xs + ys| - 1] == xs + init;
      ConcatMapConcat(xs, init, f);
    }
  }

  /** `handleSubmit`: for every availability row that is filled in and whose start,
      read with `parseFloat`, is before its end, every job of that weekday (and of
      the row's category, if any) that overlaps the row by at least 10 % is boxed. */
  method HandleSubmit(inputs: seq<InputRow>, jobs: seq<Job>) returns (result: seq<EventBox>)
    requires WellFormedRows(inputs) && WellFormedJobs(jobs)
    ensures result == Matches(inputs, jobs, LeadingHour)
  {
    result := [];
    var i := 0;
    while i < |inputs|
      invariant 0 <= i <= |inputs|
      invariant result == Matches(inputs[..i], jobs, LeadingHour)
    {
      var input := inputs[i];
      assert inputs[..i + 1][..i] == inputs[..i];
      if input.day != "" && input.start != "" && input.end != "" {
        var us := ParseFloat(input.start) as real;
        var ue := ParseFloat(input.end) as real;
        if us < ue {
          var found := CollectRow(input, us, ue, jobs);
          result := result + found;
        }
      }
      i := i + 1;
    }
    assert inputs[..|inputs|] == inputs;
  }

  /** One more job extends a row's boxes by that job's box, if it is shown. */
  lemma RowEventsStep(row: InputRow, us: real, ue: real, jobs: seq<Job>, j: nat)
    requires WellFormedJobs(jobs) && j < |jobs|
    ensures RowEvents(row, us, ue, jobs[..j + 1]) == RowEvents(row, us, ue, jobs[..j])
      + (if Accepts(row, jobs[j], us, ue) then [EventFor(jobs[j], us, ue)] else [])
  {
    assert jobs[..j + 1][..j] == jobs[..j];
  }

  /** The inner loop of `handleSubmit`: the jobs one row with window [us, ue] boxes. */
  method CollectRow(input: InputRow, us: real, ue: real, jobs: seq<Job>) returns (found: seq<EventBox>)
    requires WellFormedJobs(jobs)
    ensures found == RowEvents(input, us, ue, jobs)
  {
    found := [];
    var j := 0;
    while j < |jobs|
      invariant 0 <= j <= |jobs|
      invariant found == RowEvents(input, us, ue, jobs[..j])
    {
      var job := jobs[j];
      RowEventsStep(input, us, ue, jobs, j);
      if job.day == input.day && (input.jobType == "" || job.category == input.jobType) {
        var js := HhmmToFloat(job.start);
        var je := HhmmToFloat(job.end);
        var overlap := CalculateOverlap(js, je, us, ue);
        if overlap >= MinOverlap {
          assert Accepts(input, job, us, ue);
          found := found + [EventBox(job, DayIndex(job.day), js, je, overlap, CalculateFitScore(js, je, us, ue))];
        } else {
          assert !Accepts(input, job, us, ue);
        }
      } else {
        assert !Accepts(input, job, us, ue);
      }
      j := j + 1;
    }
    assert jobs[..|jobs|] == jobs;
  }

  // ---------------------------------------------------------------- properties of the matches

  /** The box the row, read as `reading`, shows for the job, if any. */
  function Shown(row: InputRow, job: Job, reading: TimeReading): Option<EventBox>
    requires ClockRow(row) && ClockJob(job)
  {
    if RowActive(row, reading)
    then Candidate(row, ReadTime(reading, row.start), ReadTime(reading, row.end), job)
    else None
  }

  /** A box is among the matches exactly when some row shows some job as that box:
      nothing else is emitted and nothing that qualifies is lost. */
  lemma MatchesMembership(rows: seq<InputRow>, jobs: seq<Job>, reading: TimeReading, e: EventBox)
    requires WellFormedRows(rows) && WellFormedJobs(jobs)
    ensures e in Matches(rows, jobs, reading) <==>
      exists i, j :: 0 <= i < |rows| && 0 <= j < |jobs| && Shown(rows[i], jobs[j], reading) == Some(e)
  {
    var perRow := (row: InputRow) requires ClockRow(row) => RowMatches(row, jobs, reading);
    ConcatMapMembership(rows, perRow, e);
    forall i | 0 <= i < |rows|
      ensures e in RowMatches(rows[i], jobs, reading) <==>
        exists j :: 0 <= j < |jobs| && Shown(rows[i], jobs[j], reading) == Some(e)
    {
      var row := rows[i];
      if RowActive(row, reading) {
        var us, ue := ReadTime(reading, row.start), ReadTime(reading, row.end);
        FilterMapMembership(jobs, (job: Job) requires ClockJob(job) => Candidate(row, us, ue, job), e);
      }
    }
  }

  /** The output is row-major: the matches of two lists of rows are the matches of
      the first followed by those of the second, so a job matching several rows
      appears once per row. */
  lemma MatchesConcat(rows1: seq<InputRow>, rows2: seq<InputRow>, jobs: seq<Job>, reading: TimeReading)
    requires WellFormedRows(rows1) && WellFormedRows(rows2) && WellFormedJobs(jobs)
    ensures WellFormedRows(rows1 + rows2)
    ensures Matches(rows1 + rows2, jobs, reading) == Matches(rows1, jobs, reading) + Matches(rows2, jobs, reading)
  {
    ConcatMapConcat(rows1, rows2, (row: InputRow) requires ClockRow(row) => RowMatches(row, jobs, reading));
  }

  /** Every shown box clears the 10 % threshold, has a fit score in [0, 100], sits in
      its job's weekday column and spans its job's window. */
  lemma MatchesShown(rows: seq<InputRow>, jobs: seq<Job>, reading: TimeReading, e: EventBox)
    requires WellFormedRows(rows) && WellFormedJobs(jobs)
    requires e in Matches(rows, jobs, reading)
    ensures MinOverlap <= e.overlapPercentage <= 100.0 && 0 <= e.fitScore <= 100
    ensures e.job in jobs && e.dayIndex == DayIndex(e.job.day)
    ensures IsClockText(e.job.start) && IsClockText(e.job.end)
    ensures e.top == HhmmToFloat(e.job.start) && e.bottom == HhmmToFloat(e.job.end)
  {
    MatchesMembership(rows, jobs, reading, e);
    var i, j :| 0 <= i < |rows| && 0 <= j < |jobs| && Shown(rows[i], jobs[j], reading) == Some(e);
  }

  /** Read with hours and minutes, every shown job really intersects the window of
      some row of its weekday, as the row's times were picked. */
  lemma MinutesReadingOverlaps(rows: seq<InputRow>, jobs: seq<Job>, e: EventBox)
    requires WellFormedRows(rows) && WellFormedJobs(jobs)
    requires e in Matches(rows, jobs, HourAndMinutes)
    ensures exists i :: 0 <= i < |rows| && rows[i].day == e.job.day
                        && rows[i].start != "" && rows[i].end != ""
                        && Max(e.top, HhmmToFloat(rows[i].start)) < Min(e.bottom, HhmmToFloat(rows[i].end))
  {
    MatchesMembership(rows, jobs, HourAndMinutes, e);
    var i, j :| 0 <= i < |rows| && 0 <= j < |jobs| && Shown(rows[i], jobs[j], HourAndMinutes) == Some(e);
    assert rows[i].day == e.job.day;
  }

  /** A two-digit clock text "ab:cd" reads as ab + cd/60, and `parseFloat` keeps ab. */
  lemma TwoDigitClockText(t: string)
    requires |t| == 5 && t[2] == ':'
    requires IsDigit(t[0]) && IsDigit(t[1]) && IsDigit(t[3]) && IsDigit(t[4])
    ensures IsClockText(t)
    ensures var hours := (t[0] as int - '0' as int) * 10 + (t[1] as int - '0' as int);
            var minutes := (t[3] as int - '0' as int) * 10 + (t[4] as int - '0' as int);
            HhmmToFloat(t) == hours as real + minutes as real / 60.0 && ParseFloat(t) == hours
  {
    var h, m := t[..2], t[3..];
    assert t == h + ":" + m;
    assert h[..1] == [t[0]] && m[..1] == [t[3]];
    assert |h| == 2 && h[1] == t[1] && |m| == 2 && m[1] == t[4];
    assert [t[0]][..0] == [] && [t[3]][..0] == [];
    assert DigitsValue([t[0]]) == t[0] as int - '0' as int;
    assert DigitsValue([t[3]]) == t[3] as int - '0' as int;
    assert DigitsValue(h) == (t[0] as int - '0' as int) * 10 + (t[1] as int - '0' as int);
    assert DigitsValue(m) == (t[3] as int - '0' as int) * 10 + (t[4] as int - '0' as int);
    HhmmToFloatOfParts(h, m);
  }

  /** The clock texts of the example below, read both ways. */
  lemma ExampleStartTexts()
    ensures IsClockText("09:00") && IsClockText("09:30")
    ensures HhmmToFloat("09:00") == 9.0 && HhmmToFloat("09:30") == 9.5 && ParseFloat("09:30") == 9
  {
    TwoDigitClockText("09:00");
    TwoDigitClockText("09:30");
  }

  lemma ExampleEndText()
    ensures IsClockText("12:00") && HhmmToFloat("12:00") == 12.0 && ParseFloat("12:00") == 12
  {
    TwoDigitClockText("12:00");
  }

  /** As written, the page shows a 09:00-09:30 job for availability picked as
      09:30-12:00: the availability start is read as 9, so the job, which ends when
      the availability begins, counts as a 58 % overlap. Read with the minutes, the
      same row shows nothing. */
  lemma LeadingHourShowsDisjointJob()
    ensures var row := InputRow("Даваа", "09:30", "12:00", "");
            var job := Job(1, "", "Даваа", "09:00", "09:30", "", "", None);
            ClockRow(row) && ClockJob(job)
            && HhmmToFloat(job.end) <= HhmmToFloat(row.start)
            && Shown(row, job, LeadingHour) == Some(EventFor(job, 9.0, 12.0))
            && Shown(row, job, HourAndMinutes) == None
  {
    ExampleStartTexts();
    ExampleEndText();
    assert CalculateOverlap(9.0, 9.5, 9.0, 12.0) >= MinOverlap;
    OverlapOfDisjoint(9.0, 9.5, 9.5, 12.0);
  }

  // ---------------------------------------------------------------- the availability rows

  /** The row a fresh form and the add button start with: nothing picked yet. */
  const EmptyRow := InputRow("", "", "", "")

  /** The add button is disabled once the form has this many rows. */
  const MaxRows := 7

  /** `inputs.filter((_, i) => i !== index)`. */
  function WithoutIndex(inputs: seq<InputRow>, index: int): (r: seq<InputRow>)
    ensures 0 <= index < |inputs| ==> r == inputs[..index] + inputs[index + 1..]
    ensures !(0 <= index < |inputs|) ==> r == inputs
  {
    if inputs == [] then []
    else
      var n := |inputs| - 1;
      var front := WithoutIndex(inputs[..n], index);
      assert inputs == inputs[..n] + [inputs[n]];
      if index == n then front
      else
        assert 0 <= index < n ==> inputs[..n][index + 1..] + [inputs[n]] == inputs[index + 1..];
        front + [inputs[n]]
  }

  /** `removeInputRow`: the last remaining row cannot be removed. */
  function RemoveInputRow(inputs: seq<InputRow>, index: int): (r: seq<InputRow>)
    ensures |inputs| <= 1 ==> r == inputs
    ensures |inputs| > 1 && 0 <= index < |inputs| ==> r == inputs[..index] + inputs[index + 1..]
    ensures !(0 <= index < |inputs|) ==> r == inputs
    ensures |inputs| >= 1 ==> |r| >= 1
  {
    if |inputs| <= 1 then inputs else WithoutIndex(inputs, index)
  }

  /** The add button: one more empty row, unless the form already has `MaxRows`. */
  function AddInputRow(inputs: seq<InputRow>): (r: seq<InputRow>)
    ensures |inputs| < MaxRows ==> r == inputs + [EmptyRow]
    ensures |inputs| >= MaxRows ==> r == inputs
  {
    if |inputs| >= MaxRows then inputs else inputs + [EmptyRow]
  }

  /** Starting from one empty row, adding and removing rows keeps between one and
      `MaxRows` rows on the form. */
  lemma RowCountStaysInRange(inputs: seq<InputRow>, index: int)
    requires 1 <= |inputs| <= MaxRows
    ensures 1 <= |AddInputRow(inputs)| <= MaxRows
    ensures 1 <= |RemoveInputRow(inputs, index)| <= MaxRows
  {
  }
}
