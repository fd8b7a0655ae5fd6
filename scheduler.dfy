/**
 * The daemon's scheduling (backup.py:298-345). Every poll tick walks the
 * servers and their databases in order; a (host, database) unit is due by its
 * server's trigger — a daily `schedule: "HH:MM"` or `interval_hours` — and the
 * time it last ran; a due unit is backed up and its last-run time set to the
 * tick's time, whatever the outcome of the backup. Time is whole seconds.
 */
module Scheduler {
  import opened Wrappers
  import opened Text
  import opened Config

  const SecondsPerDay: int := 86400
  const MinutesPerDay: int := 1440

  /** A server's trigger: `schedule` wins over `interval_hours`; with neither, never due. */
  datatype Trigger = Daily(clock: string) | EveryHours(hours: int) | Unscheduled

  function TriggerOf(server: Server): Trigger {
    if server.schedule.Some? then Daily(server.schedule.value)
    else if server.intervalHours.Some? then EveryHours(server.intervalHours.value)
    else Unscheduled
  }

  /** Midnight of the day holding `t`. */
  function DayStart(t: int): (d: int)
    ensures d <= t < d + SecondsPerDay
    ensures d % SecondsPerDay == 0
  {
    t - t % SecondsPerDay
  }

  /** Two distinct midnights are at least a day apart. */
  lemma DayStartsApart(t1: int, t2: int)
    requires DayStart(t1) < DayStart(t2)
    ensures DayStart(t1) + SecondsPerDay <= DayStart(t2)
  {
    var a, b := DayStart(t1) / SecondsPerDay, DayStart(t2) / SecondsPerDay;
    assert DayStart(t1) == a * SecondsPerDay;
    assert DayStart(t2) == b * SecondsPerDay;
  }

  // ---------------------------------------------------------------------
  // strptime(text, "%H:%M")

  /** `%H`: one digit, or two digits from 00 to 23. */
  predicate IsHourField(h: string) {
    || (|h| == 1 && IsDigit(h[0]))
    || (|h| == 2 && ('0' <= h[0] <= '1') && IsDigit(h[1]))
    || (|h| == 2 && h[0] == '2' && '0' <= h[1] <= '3')
  }

  /** `%M`: one digit, or two digits from 00 to 59. */
  predicate IsMinuteField(m: string) {
    || (|m| == 1 && IsDigit(m[0]))
    || (|m| == 2 && ('0' <= m[0] <= '5') && IsDigit(m[1]))
  }

  function FieldValue(f: string): nat
    requires |f| == 1 || |f| == 2
    requires AllDigits(f)
  {
    if |f| == 1 then DigitValue(f[0]) else DigitValue(f[0]) * 10 + DigitValue(f[1])
  }

  /**
   * The minute of the day `strptime(text, "%H:%M")` reads, or `None` where it
   * raises `ValueError`.
   */
  function ParseClock(text: string): (r: Option<nat>)
    ensures r.Some? ==> r.value < MinutesPerDay
  {
    var parts := Split(text, ':');
    if |parts| == 2 && IsHourField(parts[0]) && IsMinuteField(parts[1]) then
      Some(FieldValue(parts[0]) * 60 + FieldValue(parts[1]))
    else
      None
  }

  function TwoDigits(x: nat): (s: string)
    requires x < 100
    ensures |s| == 2 && AllDigits(s)
  {
    [DigitChar(x / 10), DigitChar(x % 10)]
  }

  /** The `HH:MM` text of a minute of the day. */
  function FormatClock(minute: nat): string
    requires minute < MinutesPerDay
  {
    TwoDigits(minute / 60) + ":" + TwoDigits(minute % 60)
  }

  /** Every minute of the day written as `HH:MM` parses back to itself. */
  lemma ParseFormatClock(minute: nat)
    requires minute < MinutesPerDay
    ensures ParseClock(FormatClock(minute)) == Some(minute)
  {
    var h, m := TwoDigits(minute / 60), TwoDigits(minute % 60);
    assert FormatClock(minute) == h + [':'] + m;
    assert ':' !in h && ':' !in m;
    SplitAt(h, m, ':');
    SplitWithout(h, ':');
    SplitWithout(m, ':');
    assert FieldValue(h) == minute / 60;
    assert FieldValue(m) == minute % 60;
  }

  // ---------------------------------------------------------------------
  // Due predicates

  /** `combine(now.date(), sched_time)`: today's trigger instant. */
  function TriggerInstant(now: int, minute: nat): int {
    DayStart(now) + minute * 60
  }

  /** backup.py:321-323: due once the trigger instant has passed, unless it already ran since. */
  predicate FixedDue(now: int, minute: nat, last: Option<int>) {
    now >= TriggerInstant(now, minute) && (last.None? || last.value < TriggerInstant(now, minute))
  }

  /** backup.py:328-330: due if never run, or at least `hours` hours since it last ran. */
  predicate IntervalDue(now: int, hours: int, last: Option<int>) {
    last.None? || now - last.value >= hours * 3600
  }

  /** `should_run` for one unit; a schedule that does not parse is never due. */
  predicate ShouldRun(trigger: Trigger, now: int, last: Option<int>) {
    match trigger
    case Daily(clock) => ParseClock(clock).Some? && FixedDue(now, ParseClock(clock).value, last)
    case EveryHours(hours) => IntervalDue(now, hours, last)
    case Unscheduled => false
  }

  /** A daily unit that ran at or after today's trigger instant is not due again that day. */
  lemma DailyAtMostOncePerDay(minute: nat, ran: int, now: int)
    requires ran >= TriggerInstant(ran, minute)
    requires DayStart(now) == DayStart(ran)
    ensures !FixedDue(now, minute, Some(ran))
  {
  }

  /** A daily unit that ran on an earlier day is due again once today's trigger instant passes. */
  lemma DailyDueNextDay(minute: nat, ran: int, now: int)
    requires DayStart(ran) < DayStart(now)
    requires now >= TriggerInstant(now, minute)
    ensures FixedDue(now, minute, Some(ran))
  {
    DayStartsApart(ran, now);
  }

  /** `FixedTime("02:00")`: due at 02:05; not at 02:10 after running at 02:05; due the next day at 02:05. */
  lemma DailyTwoAmExample(day: int)
    ensures var midnight := day * SecondsPerDay;
            var twoOhFive := midnight + 2 * 3600 + 5 * 60;
            && ShouldRun(Daily("02:00"), twoOhFive, None)
            && !ShouldRun(Daily("02:00"), twoOhFive + 5 * 60, Some(twoOhFive))
            && ShouldRun(Daily("02:00"), twoOhFive + SecondsPerDay, Some(twoOhFive))
  {
    var midnight := day * SecondsPerDay;
    ExampleClocks();
    MidnightOf(day, 2 * 3600 + 5 * 60);
    MidnightOf(day, 2 * 3600 + 10 * 60);
    MidnightOf(day + 1, 2 * 3600 + 5 * 60);
    assert (day + 1) * SecondsPerDay == midnight + SecondsPerDay;
  }

  /** Every instant of day `day` has that day's midnight as its day start. */
  lemma MidnightOf(day: int, offset: int)
    requires 0 <= offset < SecondsPerDay
    ensures DayStart(day * SecondsPerDay + offset) == day * SecondsPerDay
  {
    var t := day * SecondsPerDay + offset;
    var a := DayStart(t) / SecondsPerDay;
    assert DayStart(t) == a * SecondsPerDay;
    assert (a - day) * SecondsPerDay < SecondsPerDay;
    assert (day - a) * SecondsPerDay < SecondsPerDay;
  }

  /** `IntervalHours(6)`: due if never run, not 5h59m after a run, due at exactly 6h. */
  lemma IntervalSixHoursExample(ran: int)
    ensures ShouldRun(EveryHours(6), ran, None)
    ensures !ShouldRun(EveryHours(6), ran + 5 * 3600 + 59 * 60, Some(ran))
    ensures ShouldRun(EveryHours(6), ran + 6 * 3600, Some(ran))
  {
  }

  // ---------------------------------------------------------------------
  // One poll tick

  /** A scheduling key: (host, database). */
  type Key = (string, string)

  /** One pass of the inner loop body: a unit's trigger and the job it would run. */
  datatype Unit = Unit(trigger: Trigger, job: Job)

  function KeyOf(job: Job): Key {
    (job.host, job.db)
  }

  /** `last_run.get(key)`. */
  function LastRun(lastRun: map<Key, int>, key: Key): Option<int> {
    if key in lastRun then Some(lastRun[key]) else None
  }

  function ServerUnits(server: Server): (units: seq<Unit>)
    ensures |units| == |server.databases|
    ensures forall j :: 0 <= j < |units| ==> units[j] == Unit(TriggerOf(server), JobFor(server, server.databases[j]))
  {
    seq(|server.databases|, j requires 0 <= j < |server.databases| =>
      Unit(TriggerOf(server), JobFor(server, server.databases[j])))
  }

  /** The units a tick walks, in loop order. */
  function Units(servers: seq<Server>): seq<Unit>
    decreases |servers|
  {
    if servers == [] then [] else Units(servers[..|servers| - 1]) + ServerUnits(servers[|servers| - 1])
  }

  /** The `last_run` map and the jobs dispatched so far in a tick. */
  datatype TickState = TickState(lastRun: map<Key, int>, jobs: seq<Job>)

  /** The loop body for one unit: if due, run the job and record `last_run[key] = now`. */
  function Step(st: TickState, u: Unit, now: int): TickState {
    var key := KeyOf(u.job);
    if ShouldRun(u.trigger, now, LastRun(st.lastRun, key)) then
      TickState(st.lastRun[key := now], st.jobs + [u.job])
    else
      st
  }

  /** A tick over `units` from the `last_run` map `lastRun`. */
  function TickUnits(units: seq<Unit>, now: int, lastRun: map<Key, int>): TickState
    decreases |units|
  {
    if units == [] then TickState(lastRun, [])
    else Step(TickUnits(units[..|units| - 1], now, lastRun), units[|units| - 1], now)
  }

  /** The reference definition: the jobs of the units due by the map at the start of the tick. */
  function DueJobs(units: seq<Unit>, now: int, lastRun: map<Key, int>): seq<Job>
    decreases |units|
  {
    if units == [] then []
    else
      var u := units[|units| - 1];
      DueJobs(units[..|units| - 1], now, lastRun) +
        (if ShouldRun(u.trigger, now, LastRun(lastRun, KeyOf(u.job))) then [u.job] else [])
  }

  function JobKeys(jobs: seq<Job>): set<Key> {
    set job | job in jobs :: KeyOf(job)
  }

  function UnitKeys(units: seq<Unit>): set<Key> {
    set u | u in units :: KeyOf(u.job)
  }

  /** No (host, database) pair occurs twice among the units. */
  predicate DistinctKeys(units: seq<Unit>) {
    forall i, j :: 0 <= i < j < |units| ==> KeyOf(units[i].job) != KeyOf(units[j].job)
  }

  /** The keys of jobs dispatched by one more step. */
  lemma StepJobKeys(st: TickState, u: Unit, now: int)
    ensures var st1 := Step(st, u, now);
            JobKeys(st1.jobs) == if st1 == st then JobKeys(st.jobs) else JobKeys(st.jobs) + {KeyOf(u.job)}
  {
    var st1 := Step(st, u, now);
    if st1 != st {
      assert forall job :: job in st1.jobs <==> job in st.jobs || job == u.job;
    }
  }

  /**
   * Recording: after a tick exactly the keys of dispatched jobs map to the
   * tick's time, and every other key keeps its entry.
   */
  lemma {:induction false} TickRecords(units: seq<Unit>, now: int, lastRun: map<Key, int>)
    ensures var st := TickUnits(units, now, lastRun);
            st.lastRun == lastRun + (map k | k in JobKeys(st.jobs) :: now)
    decreases |units|
  {
    if units != [] {
      var init := units[..|units| - 1];
      var u := units[|units| - 1];
      TickRecords(init, now, lastRun);
      RecordStep(TickUnits(init, now, lastRun), u, now, lastRun);
    }
  }

  /** One step keeps the recording invariant of `TickRecords`. */
  lemma RecordStep(st: TickState, u: Unit, now: int, lastRun: map<Key, int>)
    requires st.lastRun == lastRun + (map k | k in JobKeys(st.jobs) :: now)
    ensures var st1 := Step(st, u, now);
            st1.lastRun == lastRun + (map k | k in JobKeys(st1.jobs) :: now)
  {
    var st1 := Step(st, u, now);
    StepJobKeys(st, u, now);
    if st1 != st {
      MapRecord(lastRun, JobKeys(st.jobs), KeyOf(u.job), now);
    }
  }

  /** Recording one more key at the same time. */
  lemma MapRecord(m: map<Key, int>, keys: set<Key>, key: Key, now: int)
    ensures (m + (map k | k in keys :: now))[key := now] == m + (map k | k in keys + {key} :: now)
  {
  }

  /** Only units of the tick are dispatched. */
  lemma {:induction false} TickJobsFromUnits(units: seq<Unit>, now: int, lastRun: map<Key, int>)
    ensures forall job :: job in TickUnits(units, now, lastRun).jobs ==> exists u :: u in units && u.job == job
    ensures JobKeys(TickUnits(units, now, lastRun).jobs) <= UnitKeys(units)
    decreases |units|
  {
    if units != [] {
      var init := units[..|units| - 1];
      var u := units[|units| - 1];
      TickJobsFromUnits(init, now, lastRun);
      assert units == init + [u];
      assert forall x :: x in init ==> x in units;
    }
  }

  /**
   * With no key repeated, a tick dispatches exactly the units that were due
   * by the `last_run` map at its start: recording one unit's run never
   * changes whether another is due.
   */
  lemma {:induction false} TickIsDueFilter(units: seq<Unit>, now: int, lastRun: map<Key, int>)
    requires DistinctKeys(units)
    ensures TickUnits(units, now, lastRun).jobs == DueJobs(units, now, lastRun)
    decreases |units|
  {
    if units != [] {
      var init := units[..|units| - 1];
      var u := units[|units| - 1];
      assert DistinctKeys(init);
      TickIsDueFilter(init, now, lastRun);
      TickRecords(init, now, lastRun);
      TickJobsFromUnits(init, now, lastRun);
      var st0 := TickUnits(init, now, lastRun);
      assert KeyOf(u.job) !in UnitKeys(init) by {
        forall x | x in init ensures KeyOf(x.job) != KeyOf(u.job) {
          var i :| 0 <= i < |init| && init[i] == x;
          assert units[i] == x;
        }
      }
      assert LastRun(st0.lastRun, KeyOf(u.job)) == LastRun(lastRun, KeyOf(u.job));
    }
  }

  /**
   * A unit that is due by the `last_run` map at the start of a tick leaves
   * its key among the dispatched ones: either it runs itself, or an earlier
   * unit with the same key already ran in this tick.
   */
  lemma {:induction false} DueKeyDispatched(units: seq<Unit>, now: int, lastRun: map<Key, int>, i: nat)
    requires i < |units|
    requires ShouldRun(units[i].trigger, now, LastRun(lastRun, KeyOf(units[i].job)))
    ensures KeyOf(units[i].job) in JobKeys(TickUnits(units, now, lastRun).jobs)
    decreases |units|
  {
    var init := units[..|units| - 1];
    var u := units[|units| - 1];
    var st0 := TickUnits(init, now, lastRun);
    StepJobKeys(st0, u, now);
    if i < |units| - 1 {
      assert init[i] == units[i];
      DueKeyDispatched(init, now, lastRun, i);
    } else if KeyOf(u.job) !in JobKeys(st0.jobs) {
      TickRecords(init, now, lastRun);
      assert LastRun(st0.lastRun, KeyOf(u.job)) == LastRun(lastRun, KeyOf(u.job));
    }
  }

  /**
   * At most one fire per key and day from a unit's own trigger: a daily unit
   * that was due at a tick is not due at any later tick of the same day.
   */
  lemma DailyNotRepeatedSameDay(units: seq<Unit>, now: int, later: int, lastRun: map<Key, int>, i: nat)
    requires i < |units| && units[i].trigger.Daily?
    requires ShouldRun(units[i].trigger, now, LastRun(lastRun, KeyOf(units[i].job)))
    requires DayStart(later) == DayStart(now)
    ensures var after := TickUnits(units, now, lastRun).lastRun;
            !ShouldRun(units[i].trigger, later, LastRun(after, KeyOf(units[i].job)))
  {
    var u := units[i];
    var st := TickUnits(units, now, lastRun);
    DueKeyDispatched(units, now, lastRun, i);
    TickRecords(units, now, lastRun);
    assert st.lastRun[KeyOf(u.job)] == now;
  }

  /**
   * A (host, database) pair listed under two daily schedules, 01:00 and
   * 03:00, is backed up twice on one day: the 01:00 unit fires at the 02:00
   * tick and the 03:00 unit at the 03:00 tick, since they share one
   * `last_run` entry that is older than 03:00.
   */
  lemma DuplicateKeyFiresTwice(job: Job, day: int)
    ensures var units := [Unit(Daily("01:00"), job), Unit(Daily("03:00"), job)];
            var first := TickUnits(units, day * SecondsPerDay + 2 * 3600, map[]);
            var second := TickUnits(units, day * SecondsPerDay + 3 * 3600, first.lastRun);
            first.jobs == [job] && second.jobs == [job]
  {
    var u1, u3 := Unit(Daily("01:00"), job), Unit(Daily("03:00"), job);
    var t2, t3 := day * SecondsPerDay + 2 * 3600, day * SecondsPerDay + 3 * 3600;
    OneAmDue(day);
    ThreeAmDue(day);
    TwoUnitTick(u1, u3, t2, map[]);
    TwoUnitTick(u1, u3, t3, map[KeyOf(job) := t2]);
  }

  /** The 01:00 unit: due at 02:00 when it never ran; not due at 03:00 after that run. */
  lemma OneAmDue(day: int)
    ensures var t2 := day * SecondsPerDay + 2 * 3600;
            ShouldRun(Daily("01:00"), t2, None) && !ShouldRun(Daily("01:00"), t2 + 3600, Some(t2))
  {
    ExampleClocks();
    MidnightOf(day, 2 * 3600);
    MidnightOf(day, 3 * 3600);
  }

  /** The 03:00 unit: not due at 02:00; due at 03:00 after a run at 02:00. */
  lemma ThreeAmDue(day: int)
    ensures var t2 := day * SecondsPerDay + 2 * 3600;
            !ShouldRun(Daily("03:00"), t2, Some(t2)) && ShouldRun(Daily("03:00"), t2 + 3600, Some(t2))
  {
    ExampleClocks();
    MidnightOf(day, 2 * 3600);
    MidnightOf(day, 3 * 3600);
  }

  /**
   * Within one tick a repeated (host, database) pair is suppressed only when
   * its later unit's trigger is not due again at once: with `interval_hours`
   * of 0 or less both units run, since `now - last_run[key]` is zero (from
   * any earlier last run of the pair).
   */
  lemma ZeroIntervalFiresTwiceInTick(job: Job, hours: int, now: int, lastRun: map<Key, int>)
    requires hours <= 0
    requires KeyOf(job) in lastRun ==> lastRun[KeyOf(job)] <= now
    ensures TickUnits([Unit(EveryHours(hours), job), Unit(EveryHours(hours), job)], now, lastRun).jobs == [job, job]
  {
    var u := Unit(EveryHours(hours), job);
    TwoUnitTick(u, u, now, lastRun);
    var first := Step(TickState(lastRun, []), u, now);
    assert first == TickState(lastRun[KeyOf(job) := now], [job]);
    assert LastRun(first.lastRun, KeyOf(job)) == Some(now);
  }

  /** The schedules of the examples read as their minutes of the day. */
  lemma ExampleClocks()
    ensures ParseClock("01:00") == Some(60)
    ensures ParseClock("02:00") == Some(120)
    ensures ParseClock("03:00") == Some(180)
  {
    HourClock(1, "01:00");
    HourClock(2, "02:00");
    HourClock(3, "03:00");
  }

  /** A whole hour before 10:00, written `0H:00`, parses to its minute of the day. */
  lemma HourClock(h: nat, text: string)
    requires h < 10 && text == ['0', DigitChar(h), ':', '0', '0']
    ensures ParseClock(text) == Some(h * 60)
  {
    assert FormatClock(h * 60) == text;
    ParseFormatClock(h * 60);
  }

  /** A tick over two units is two loop steps. */
  lemma TwoUnitTick(a: Unit, b: Unit, now: int, lastRun: map<Key, int>)
    ensures TickUnits([a, b], now, lastRun) == Step(Step(TickState(lastRun, []), a, now), b, now)
  {
    assert [a, b][..1] == [a];
    assert [a][..0] == [];
    assert TickUnits([a], now, lastRun) == Step(TickUnits([], now, lastRun), a, now);
  }

  lemma {:induction false} DueJobsHasDue(units: seq<Unit>, now: int, lastRun: map<Key, int>, i: nat)
    requires i < |units|
    requires ShouldRun(units[i].trigger, now, LastRun(lastRun, KeyOf(units[i].job)))
    ensures units[i].job in DueJobs(units, now, lastRun)
    decreases |units|
  {
    if i < |units| - 1 {
      DueJobsHasDue(units[..|units| - 1], now, lastRun, i);
    }
  }

  /** A tick's units carry the jobs `run_all_now` runs, in the same order. */
  lemma {:induction false} UnitsAreNowJobs(servers: seq<Server>)
    ensures |Units(servers)| == |NowJobs(servers)|
    ensures forall i :: 0 <= i < |Units(servers)| ==> Units(servers)[i].job == NowJobs(servers)[i]
    decreases |servers|
  {
    if servers != [] {
      UnitsAreNowJobs(servers[..|servers| - 1]);
    }
  }

  /** One more unit of a tick is one more loop step. */
  lemma TickExtend(before: seq<Unit>, units: seq<Unit>, j: nat, now: int, start: map<Key, int>)
    requires j < |units|
    ensures TickUnits(before + units[..j + 1], now, start) == Step(TickUnits(before + units[..j], now, start), units[j], now)
  {
    var done := before + units[..j];
    assert before + units[..j + 1] == done + [units[j]];
    assert (done + [units[j]])[..|done|] == done;
  }

  /** The daemon's `last_run` map, kept for the lifetime of the process. */
  class Daemon {
    var lastRun: map<Key, int>

    constructor ()
      ensures lastRun == map[]
    {
      lastRun := map[];
    }

    /**
     * One iteration of `while True` at time `now`: returns the jobs handed to
     * `run_backup`, in order, and records each one's run.
     */
    method Tick(servers: seq<Server>, now: int) returns (jobs: seq<Job>)
      modifies this
      ensures TickState(lastRun, jobs) == TickUnits(Units(servers), now, old(lastRun))
    {
      jobs := [];
      ghost var start := lastRun;
      for i := 0 to |servers|
        invariant TickState(lastRun, jobs) == TickUnits(Units(servers[..i]), now, start)
      {
        var server := servers[i];
        ghost var before := Units(servers[..i]);
        assert servers[..i + 1][..i] == servers[..i];
        assert Units(servers[..i + 1]) == before + ServerUnits(server);
        assert before + ServerUnits(server)[..0] == before;
        for j := 0 to |server.databases|
          invariant TickState(lastRun, jobs) == TickUnits(before + ServerUnits(server)[..j], now, start)
        {
          var job := JobFor(server, server.databases[j]);
          var key := (server.host, job.db);
          var last := if key in lastRun then Some(lastRun[key]) else None;
          TickExtend(before, ServerUnits(server), j, now, start);
          if ShouldRun(TriggerOf(server), now, last) {
            jobs := jobs + [job];
            lastRun := lastRun[key := now];
          }
        }
        assert ServerUnits(server)[..|server.databases|] == ServerUnits(server);
      }
      assert servers[..|servers|] == servers;
    }
  }
}
