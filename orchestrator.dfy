/** The scheduled scrape: `scrapeContests` runs the LeetCode, CodeChef and Codeforces
    adapters one after the other, each inside its own try/catch, and `cron.schedule`
    fires it at minute 0 of every twelfth hour. The console lines are kept as a log. */
module Orchestrator {
  import opened Text
  import opened Reconciler
  import opened Adapters

  datatype Platform = LeetCodeRun | CodeChefRun | CodeforcesRun

  /** The line logged after an adapter call: "... contests scraped successfully." or
      "Error scraping ... contests:". */
  datatype LogLine = Succeeded(p: Platform) | Errored(p: Platform)

  /** The line for an adapter call with outcome `o`. */
  function LineFor(p: Platform, o: Outcome): LogLine {
    if o.Threw? then Errored(p) else Succeeded(p)
  }

  /** The objects the LeetCode adapter hands to its upsert loop: none when the
      browser or the page failed. */
  function LeetCodeRows(page: Option<seq<LeetCodeCard>>, now: int, tz: int): seq<Option<Row>> {
    if page.None? then [] else LeetCodeContests(page.value, now, tz)
  }

  function CodeChefRows(page: Option<seq<CodeChefCard>>, now: int): seq<Option<Row>> {
    if page.None? then [] else CodeChefContests(page.value, now)
  }

  /** Every object one run hands to an upsert loop, in the order the loops see them. */
  function RunRows(lc: Option<seq<LeetCodeCard>>, cc: Option<seq<CodeChefCard>>, cf: CfResponse,
                   now: int, tz: int): seq<Option<Row>> {
    LeetCodeRows(lc, now, tz) + CodeChefRows(cc, now) + CodeforcesContests(cf)
  }

  /** The upsert loop over a concatenation is the loop over each part in turn. */
  lemma {:induction false} UpdatesAppend(a: seq<Option<Row>>, b: seq<Option<Row>>)
    ensures Updates(a + b) == Updates(a) + Updates(b)
    decreases |b|
  {
    if b == [] {
      assert a + b == a;
    } else {
      var init := b[..|b| - 1];
      assert (a + b)[..|a + b| - 1] == a + init;
      assert (a + b)[|a + b| - 1] == b[|b| - 1];
      UpdatesAppend(a, init);
    }
  }

  lemma UpsertRowsAppend(st: ContestStore, a: seq<Option<Row>>, b: seq<Option<Row>>)
    ensures UpsertRows(UpsertRows(st, a), b) == UpsertRows(st, a + b)
  {
    UpdatesAppend(a, b);
    UpsertAllSplit(st, Updates(a), Updates(b));
  }

  /** `scrapeContests`: the three adapters run in a fixed order, each awaited before
      the next; a rejection is caught and logged and the next adapter still runs, so
      the call itself never fails. The store ends as one upsert pass over the objects
      of the adapters that did not throw, in adapter order, and stays valid. */
  method ScrapeContests(lc: Option<seq<LeetCodeCard>>, cc: Option<seq<CodeChefCard>>, cf: CfResponse,
                        now: int, tz: int, st: ContestStore)
    returns (log: seq<LogLine>, st': ContestStore)
    ensures log == [if lc.None? then Errored(LeetCodeRun) else Succeeded(LeetCodeRun),
                    if cc.None? then Errored(CodeChefRun) else Succeeded(CodeChefRun),
                    Succeeded(CodeforcesRun)]
    ensures st' == UpsertRows(st, RunRows(lc, cc, cf, now, tz))
    ensures Valid(st) ==> Valid(st')
  {
    log := [];
    var r, s1 := FetchLeetcodeContests(lc, now, tz, st);
    log := log + [LineFor(LeetCodeRun, r)];
    var s2;
    r, s2 := FetchCodeChefContests(cc, now, s1);
    log := log + [LineFor(CodeChefRun, r)];
    var rows, s3 := FetchCodeforcesContests(cf, s2);
    log := log + [Succeeded(CodeforcesRun)];
    RunSteps(st, lc, cc, cf, now, tz, s1, s2, s3);
    st' := s3;
  }

  /** The three adapter steps compose into one pass. */
  lemma RunSteps(st: ContestStore, lc: Option<seq<LeetCodeCard>>, cc: Option<seq<CodeChefCard>>,
                 cf: CfResponse, now: int, tz: int, s1: ContestStore, s2: ContestStore, s3: ContestStore)
    requires s1 == UpsertRows(st, LeetCodeRows(lc, now, tz))
    requires s2 == UpsertRows(s1, CodeChefRows(cc, now))
    requires s3 == UpsertRows(s2, CodeforcesContests(cf))
    ensures s3 == UpsertRows(st, RunRows(lc, cc, cf, now, tz))
    ensures Valid(st) ==> Valid(s3)
  {
    var a, b, c := LeetCodeRows(lc, now, tz), CodeChefRows(cc, now), CodeforcesContests(cf);
    UpsertRowsAppend(st, a, b);
    UpsertRowsAppend(st, a + b, c);
    if Valid(st) {
      UpsertAllValid(st, Updates(a + b + c));
    }
  }

  /** A name no adapter of the run writes keeps its document. */
  lemma RunLeavesUnwritten(lc: Option<seq<LeetCodeCard>>, cc: Option<seq<CodeChefCard>>, cf: CfResponse,
                           now: int, tz: int, st: ContestStore, name: string)
    requires forall k :: 0 <= k < |Updates(RunRows(lc, cc, cf, now, tz))| ==>
               Updates(RunRows(lc, cc, cf, now, tz))[k].name != name
    ensures Find(UpsertRows(st, RunRows(lc, cc, cf, now, tz)), name) == Find(st, name)
  {
    UpsertAllOthers(st, Updates(RunRows(lc, cc, cf, now, tz)), name);
  }

  /** Whether an earlier batch ran does not change what a later batch leaves under a
      name it writes, when neither batch mentions `pcdLink`. */
  lemma {:induction false} LaterBatchDecides(st: ContestStore, a: seq<SetFields>, b: seq<SetFields>, name: string)
    requires Valid(st) && KeepsPcd(a) && KeepsPcd(b)
    requires exists k :: 0 <= k < |b| && b[k].name == name
    ensures Find(UpsertAll(st, a + b), name) == Find(UpsertAll(st, b), name)
  {
    var k := LastIndexOfName(b, name);
    var sa := UpsertAll(st, a);
    UpsertAllSplit(st, a, b);
    UpsertAllValid(st, a);
    UpsertAllLastWins(sa, b, k);
    UpsertAllLastWins(st, b, k);
    var prefix := b[..k];
    assert KeepsPcd(prefix) by {
      forall j | 0 <= j < |prefix| ensures prefix[j].pcdLink.Keep? {
        assert prefix[j] == b[j];
      }
    }
    UpsertAllKeepsPcd(sa, prefix, name);
    UpsertAllKeepsPcd(st, prefix, name);
    UpsertAllKeepsPcd(st, a, name);
  }

  /** Rows handed over before `b` do not change what `b` leaves under a name it
      writes. */
  lemma EarlierRowsIrrelevant(st: ContestStore, a: seq<Option<Row>>, b: seq<Option<Row>>, name: string)
    requires Valid(st)
    requires exists k :: 0 <= k < |Updates(b)| && Updates(b)[k].name == name
    ensures Find(UpsertRows(st, a + b), name) == Find(UpsertRows(st, b), name)
  {
    UpdatesAppend(a, b);
    LaterBatchDecides(st, Updates(a), Updates(b), name);
  }

  /** Failure isolation: for a name CodeChef or Codeforces writes, the store ends the
      same whether the LeetCode adapter succeeded or threw. */
  lemma LeetCodeFailureIrrelevant(lc: Option<seq<LeetCodeCard>>, cc: Option<seq<CodeChefCard>>,
                                  cf: CfResponse, now: int, tz: int, st: ContestStore, name: string)
    requires Valid(st)
    requires var later := Updates(CodeChefRows(cc, now) + CodeforcesContests(cf));
             exists k :: 0 <= k < |later| && later[k].name == name
    ensures Find(UpsertRows(st, RunRows(lc, cc, cf, now, tz)), name)
            == Find(UpsertRows(st, RunRows(None, cc, cf, now, tz)), name)
  {
    RunRowsSplit(lc, cc, cf, now, tz);
    RunRowsSplit(None, cc, cf, now, tz);
    EarlierRowsIrrelevant(st, LeetCodeRows(lc, now, tz), CodeChefRows(cc, now) + CodeforcesContests(cf), name);
  }

  lemma RunRowsSplit(lc: Option<seq<LeetCodeCard>>, cc: Option<seq<CodeChefCard>>, cf: CfResponse,
                     now: int, tz: int)
    ensures RunRows(lc, cc, cf, now, tz) == LeetCodeRows(lc, now, tz) + (CodeChefRows(cc, now) + CodeforcesContests(cf))
    ensures RunRows(None, cc, cf, now, tz) == CodeChefRows(cc, now) + CodeforcesContests(cf)
  {
    var a, b, c := LeetCodeRows(lc, now, tz), CodeChefRows(cc, now), CodeforcesContests(cf);
    assert LeetCodeRows(None, now, tz) == [];
    assert a + b + c == a + (b + c) && [] + b + c == b + c;
  }

  // ---------------------------------------------------------------- schedule

  /** One field of a five-field cron expression: `*`, a number, or a step (`*` slash `n`). */
  datatype CronField = Every | At(v: nat) | Step(n: nat)

  function FieldMatches(f: CronField, x: nat): bool {
    match f
    case Every => true
    case At(v) => x == v
    case Step(n) => n > 0 && x % n == 0
  }

  /** A cron expression: minute, hour, day of month, month, day of week. */
  datatype CronSpec = CronSpec(minute: CronField, hour: CronField, dayOfMonth: CronField,
                               month: CronField, dayOfWeek: CronField)

  /** A local wall-clock minute. */
  datatype WallClock = WallClock(minute: nat, hour: nat, dayOfMonth: nat, month: nat, dayOfWeek: nat)

  predicate Fires(spec: CronSpec, c: WallClock) {
    FieldMatches(spec.minute, c.minute) && FieldMatches(spec.hour, c.hour)
    && FieldMatches(spec.dayOfMonth, c.dayOfMonth) && FieldMatches(spec.month, c.month)
    && FieldMatches(spec.dayOfWeek, c.dayOfWeek)
  }

  // The expression "0 */12 * * *".
  const Schedule: CronSpec := CronSpec(At(0), Step(12), Every, Every, Every)

  /** The job fires at 00:00 and 12:00 of every day, and at no other minute. */
  lemma ScheduleTimes(c: WallClock)
    requires c.hour < 24
    ensures Fires(Schedule, c) <==> c.minute == 0 && (c.hour == 0 || c.hour == 12)
  {
    if c.hour >= 12 {
      assert c.hour % 12 == c.hour - 12;
    }
  }

  /** Counted in local minutes `t` since midnight of some day, the job fires exactly
      when `t` is a multiple of 720: firings are twelve hours apart. */
  lemma ScheduleEvery720(t: nat, dayOfMonth: nat, month: nat, dayOfWeek: nat)
    ensures Fires(Schedule, WallClock(t % 60, (t / 60) % 24, dayOfMonth, month, dayOfWeek))
            <==> t % 720 == 0
  {
    var q, r := t / 720, t % 720;
    var h, m := r / 60, r % 60;
    ClockOfMinutes(t, q, h, m);
    ScheduleTimes(WallClock(m, 12 * (q % 2) + h, dayOfMonth, month, dayOfWeek));
  }

  /** Minute and hour of day of `t = 720q + 60h + m`. */
  lemma ClockOfMinutes(t: nat, q: nat, h: nat, m: nat)
    requires t == 720 * q + 60 * h + m && h < 12 && m < 60
    ensures t % 60 == m && (t / 60) % 24 == 12 * (q % 2) + h
  {
    var p := q / 2;
    var x := 24 * p + 12 * (q % 2) + h;
    assert t == 60 * x + m;
    DivBy60(t, x, m);
    DivBy24(x, p, 12 * (q % 2) + h);
  }

  lemma DivBy60(x: int, a: int, b: int)
    requires 0 <= b < 60 && x == 60 * a + b
    ensures x / 60 == a && x % 60 == b
  {
  }

  lemma DivBy24(x: int, a: int, b: int)
    requires 0 <= b < 24 && x == 24 * a + b
    ensures x / 24 == a && x % 24 == b
  {
  }
}
