/** run_scheduler.py: one daily trigger at 19:00 running the walk with saving on, and a
    polling loop whose sleep shortens as 19:00 approaches. Time is counted in seconds;
    `localtime()` is the time of day of an absolute second, with no time zone or DST. */
module Scheduler {
  import opened Wrappers
  import opened Records
  import opened Walker

  const SecondsPerDay: nat := 86400
  const SecondsPerHour: nat := 3600

  /** The trigger registered with `.at("19:00")`, as hour, minute and second of day. */
  const TriggerHour: nat := 19
  const TriggerMinute: nat := 0
  const TriggerSecond: nat := TriggerHour * 3600 + TriggerMinute * 60

  const ShortSleep: nat := 10
  const MediumSleep: nat := 300
  const LongSleep: nat := 3600

  /** The sleep chosen after `run_pending()` at local time `hour:minute`. */
  function SleepSeconds(hour: int, minute: int): (d: nat)
    ensures d == ShortSleep || d == MediumSleep || d == LongSleep
    ensures d == ShortSleep <==> hour == 18 && minute >= 55
    ensures d == MediumSleep <==> hour == 18 && minute < 55
    ensures d == LongSleep <==> hour != 18
  {
    if hour == 18 && minute >= 55 then ShortSleep
    else if hour == 18 && minute < 55 then MediumSleep
    else LongSleep
  }

  /** Within hour 18 the sleep never grows as the minute grows. */
  lemma SleepShrinksTowardTrigger(m1: int, m2: int)
    requires m1 <= m2
    ensures SleepSeconds(18, m2) <= SleepSeconds(18, m1)
  {
  }

  function Hour(second: nat): nat {
    second / SecondsPerHour
  }

  function Minute(second: nat): nat {
    second % SecondsPerHour / 60
  }

  /** The sleep chosen at second `s` of the day. */
  function SleepAt(s: nat): nat
    requires s < SecondsPerDay
  {
    SleepSeconds(Hour(s), Minute(s))
  }

  /** No single sleep starting before 19:00 ends at 19:00:10 or later. */
  lemma {:induction false} NoSleepOvershoots(s: nat)
    requires s < TriggerSecond
    ensures s + SleepAt(s) < TriggerSecond + ShortSleep
  {
    var h := Hour(s);
    assert h <= 18;
    if h < 18 {
      assert s < 18 * 3600;
    } else if Minute(s) < 55 {
      assert s % 3600 == s - 18 * 3600;
      assert s - 18 * 3600 < 55 * 60;
    }
  }

  /** The poll after the one at absolute second `p` (time inside `run_pending` ignored). */
  function NextPoll(p: nat): (q: nat)
    ensures p < q
  {
    p + SleepAt(p % SecondsPerDay)
  }

  /** The `k`-th poll after the one at `p`. */
  function Poll(p: nat, k: nat): nat
    decreases k
  {
    if k == 0 then p else Poll(NextPoll(p), k - 1)
  }

  /** From any poll before 19:00 of some day, the next poll comes before 19:00:10 of that
      day: a sleep from an earlier day ends before that day's 01:00. */
  lemma {:induction false} StepStaysInWindow(p: nat, target: nat)
    requires target % SecondsPerDay == TriggerSecond
    requires p < target
    ensures NextPoll(p) < target + ShortSleep
  {
    var day := target / SecondsPerDay;
    assert target == day * SecondsPerDay + TriggerSecond;
    var s := p % SecondsPerDay;
    assert p == p / SecondsPerDay * SecondsPerDay + s;
    if p / SecondsPerDay == day {
      NoSleepOvershoots(s);
    } else {
      assert p / SecondsPerDay < day;
      assert p < day * SecondsPerDay;
      assert SleepAt(s) <= LongSleep;
    }
  }

  /** The number of sleeps from a poll at `p` until the first poll at or after 19:00 on
      the day of `target`; that poll falls before 19:00:10, so the 19:00 trigger is run
      within ten seconds of its time. */
  function SleepsUntilTrigger(p: nat, target: nat): (k: nat)
    requires target % SecondsPerDay == TriggerSecond
    requires p < target + ShortSleep
    ensures target <= Poll(p, k) < target + ShortSleep
    ensures forall i :: 0 <= i < k ==> Poll(p, i) < target
    decreases target - p
  {
    if p >= target then 0
    else
      StepStaysInWindow(p, target);
      var k := SleepsUntilTrigger(NextPoll(p), target);
      assert forall i :: 1 <= i <= k ==> Poll(p, i) == Poll(NextPoll(p), i - 1);
      k + 1
  }

  // ---------------------------------------------------------------------------
  // The job and its registration

  /** What a scheduled job leaves behind: the run, or the logged exception. */
  datatype JobOutcome = Completed(run: Run) | Logged(error: WalkError)

  /** A registered job: `scrape_books` called with a fixed `is_save` inside `try`. */
  datatype Job = ScrapeJob(isSave: bool)

  /** Running a job: an exception of the walk is caught and logged rather than
      propagated to the scheduler loop. */
  function RunJob(job: Job, catalog: Catalog, detail: string -> Option<Record>, writeSucceeds: bool,
                  render: Record -> string): (o: JobOutcome)
    ensures o.Logged? <==> Walk(catalog, detail).Failure?
    ensures o.Logged? ==> o.error == Walk(catalog, detail).error
    ensures o.Completed? ==> o.run.books == Walk(catalog, detail).value
    ensures o.Completed? ==> (o.run.sink.Untouched? <==> !job.isSave)
  {
    match ScrapeBooks(catalog, detail, job.isSave, writeSucceeds, render)
    case Success(run) => Completed(run)
    case Failure(e) => Logged(e)
  }

  /** `job_with_save`: the walk with saving on. */
  const JobWithSave: Job := ScrapeJob(true)

  /** A daily trigger at `hour:minute` running `job`. */
  datatype Entry = DailyAt(hour: nat, minute: nat, job: Job)

  /** `schedule.clear()` followed by `schedule.every().day.at("19:00").do(job_with_save)`:
      whatever the registry held before, it holds exactly the one 19:00 entry after,
      and that entry runs the walk with saving on. */
  function Startup(prior: seq<Entry>): (registry: seq<Entry>)
    ensures |registry| == 1
    ensures registry[0] == DailyAt(TriggerHour, TriggerMinute, JobWithSave)
    ensures registry[0].job.isSave
  {
    Register(Clear(prior), DailyAt(TriggerHour, TriggerMinute, JobWithSave))
  }

  function Clear(registry: seq<Entry>): seq<Entry> {
    []
  }

  function Register(registry: seq<Entry>, e: Entry): seq<Entry> {
    registry + [e]
  }
}
