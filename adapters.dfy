/** The three contest adapters of the scraping service. Each one turns what it reads
    (LeetCode's contest cards, CodeChef's contest rows, the Codeforces `contest.list`
    response) into contest objects, normalises their times, and upserts every
    non-null object by name with `$set`, catching and logging a failed upsert. The
    browser, the page's DOM and the HTTP client are replaced by the values they
    yield. */
module Adapters {
  import opened Text
  import opened Schema
  import opened TimeNormalizer
  import opened Reconciler

  /** A contest object as an adapter hands it to `$set`. */
  datatype Row = Row(name: string, url: string, start: StartTime, duration: string, platform: string)

  /** What an adapter call does: it rejects (the browser or the page failed before any
      contest was read), or it resolves to the list of contest objects it built, with
      `undefined` entries as `None`. */
  datatype Outcome = Threw | Returned(contests: seq<Option<Row>>)

  // ------------------------------------------------------------ upsert loop

  /** The update `findOneAndUpdate({ name }, { $set: row }, { upsert: true })` applies,
      or `None` when it throws: an Invalid Date fails the cast of `start_time`. A null
      start is written as null, and `pcdLink` is never part of the object. */
  function RowUpdate(r: Row): (u: Option<SetFields>)
    ensures u.None? <==> r.start.InvalidDate?
    ensures u.Some? ==> u.value.name == r.name && u.value.pcdLink.Keep?
  {
    match r.start
    case InvalidDate => None
    case Null => Some(SetFields(r.name, r.platform, r.url, None, r.duration, Keep))
    case Instant(ms) => Some(SetFields(r.name, r.platform, r.url, Some(ms), r.duration, Keep))
  }

  /** The updates the loop applies, in list order: one per non-null object whose
      upsert does not throw. */
  function Updates(rows: seq<Option<Row>>): (us: seq<SetFields>)
    ensures KeepsPcd(us)
    ensures |us| <= |rows|
  {
    if rows == [] then []
    else
      var last := rows[|rows| - 1];
      Updates(rows[..|rows| - 1])
      + (if last.Some? && RowUpdate(last.value).Some? then [RowUpdate(last.value).value] else [])
  }

  /** The store after the adapter's upsert loop. */
  function UpsertRows(st: ContestStore, rows: seq<Option<Row>>): ContestStore {
    UpsertAll(st, Updates(rows))
  }

  /** `for (const contest of contests) { if (contest != null) { try { upsert } catch { log } } }` */
  method UpsertEach(rows: seq<Option<Row>>, st: ContestStore) returns (st': ContestStore)
    ensures st' == UpsertRows(st, rows)
  {
    st' := st;
    for i := 0 to |rows|
      invariant st' == UpsertAll(st, Updates(rows[..i]))
    {
      UpdatesStep(rows, i);
      if rows[i].Some? {
        var u := RowUpdate(rows[i].value);
        if u.Some? {
          UpsertAllSnoc(st, Updates(rows[..i]), u.value);
          st' := Upsert(st', u.value);
        }
      }
    }
    assert rows[..|rows|] == rows;
  }

  lemma UpdatesStep(rows: seq<Option<Row>>, i: nat)
    requires i < |rows|
    ensures rows[i].Some? && RowUpdate(rows[i].value).Some? ==>
              Updates(rows[..i + 1]) == Updates(rows[..i]) + [RowUpdate(rows[i].value).value]
    ensures !(rows[i].Some? && RowUpdate(rows[i].value).Some?) ==> Updates(rows[..i + 1]) == Updates(rows[..i])
  {
    assert rows[..i + 1][..i] == rows[..i] && rows[..i + 1][i] == rows[i];
  }

  /** The written names are exactly the names of the non-null objects whose start
      time is not an Invalid Date. */
  lemma UpdatesNames(rows: seq<Option<Row>>, name: string)
    ensures (exists k :: 0 <= k < |Updates(rows)| && Updates(rows)[k].name == name) <==>
            (exists j :: 0 <= j < |rows| && rows[j].Some? && !rows[j].value.start.InvalidDate?
                                          && rows[j].value.name == name)
  {
    if exists k :: 0 <= k < |Updates(rows)| && Updates(rows)[k].name == name {
      var k :| 0 <= k < |Updates(rows)| && Updates(rows)[k].name == name;
      UpdateFromRow(rows, k);
    }
    if exists j :: 0 <= j < |rows| && rows[j].Some? && !rows[j].value.start.InvalidDate?
                                   && rows[j].value.name == name {
      var j :| 0 <= j < |rows| && rows[j].Some? && !rows[j].value.start.InvalidDate?
                               && rows[j].value.name == name;
      RowGivesUpdate(rows, j);
    }
  }

  /** Every update comes from a non-null object without an Invalid Date. */
  lemma {:induction false} UpdateFromRow(rows: seq<Option<Row>>, k: nat)
    requires k < |Updates(rows)|
    ensures exists j :: 0 <= j < |rows| && rows[j].Some? && !rows[j].value.start.InvalidDate?
                                        && rows[j].value.name == Updates(rows)[k].name
  {
    var init := rows[..|rows| - 1];
    var us, vs := Updates(rows), Updates(init);
    assert us[..|vs|] == vs;
    if k < |vs| {
      UpdateFromRow(init, k);
      var j :| 0 <= j < |init| && init[j].Some? && !init[j].value.start.InvalidDate?
                               && init[j].value.name == vs[k].name;
      assert rows[j] == init[j] && us[k] == vs[k];
    } else {
      var j := |rows| - 1;
      assert rows[j].Some? && !rows[j].value.start.InvalidDate? && rows[j].value.name == us[k].name;
    }
  }

  /** Every non-null object without an Invalid Date gives an update under its name. */
  lemma {:induction false} RowGivesUpdate(rows: seq<Option<Row>>, j: nat)
    requires j < |rows| && rows[j].Some? && !rows[j].value.start.InvalidDate?
    ensures exists k :: 0 <= k < |Updates(rows)| && Updates(rows)[k].name == rows[j].value.name
  {
    var init := rows[..|rows| - 1];
    var us, vs := Updates(rows), Updates(init);
    assert us[..|vs|] == vs;
    if j < |init| {
      assert init[j] == rows[j];
      RowGivesUpdate(init, j);
      var k :| 0 <= k < |vs| && vs[k].name == init[j].value.name;
      assert us[k] == vs[k];
    } else {
      assert us[|vs|].name == rows[j].value.name;
    }
  }

  /** What a run of the upsert loop guarantees: the store stays valid, every stored
      `pcdLink` survives, a name no written object carries keeps its document, and a
      second run over the same objects changes no lookup. */
  lemma UpsertRowsSpec(st: ContestStore, rows: seq<Option<Row>>, name: string)
    requires Valid(st)
    ensures Valid(UpsertRows(st, rows))
    ensures PcdOf(Find(UpsertRows(st, rows), name)) == PcdOf(Find(st, name))
    ensures (forall j :: 0 <= j < |rows| && rows[j].Some? && !rows[j].value.start.InvalidDate?
                         ==> rows[j].value.name != name)
            ==> Find(UpsertRows(st, rows), name) == Find(st, name)
    ensures Find(UpsertRows(UpsertRows(st, rows), rows), name) == Find(UpsertRows(st, rows), name)
  {
    var us := Updates(rows);
    UpsertAllValid(st, us);
    UpsertAllKeepsPcd(st, us, name);
    UpsertAllRerun(st, us, name);
    UpdatesNames(rows, name);
    if !exists k :: 0 <= k < |us| && us[k].name == name {
      UpsertAllOthers(st, us, name);
    }
  }

  /** A non-null object without an Invalid Date leaves a document under its name. */
  lemma UpsertRowsStores(st: ContestStore, rows: seq<Option<Row>>, j: nat)
    requires Valid(st)
    requires j < |rows| && rows[j].Some? && !rows[j].value.start.InvalidDate?
    ensures Find(UpsertRows(st, rows), rows[j].value.name).Some?
  {
    var us, name := Updates(rows), rows[j].value.name;
    UpdatesNames(rows, name);
    var k := LastIndexOfName(us, name);
    UpsertAllLastWins(st, us, k);
  }

  /** A single object is written under its name with exactly its fields, a null
      start as null, and the old `pcdLink` kept; an Invalid Date leaves the store as
      it was. */
  lemma UpsertOneRow(st: ContestStore, r: Row)
    requires Valid(st)
    ensures r.start.InvalidDate? ==> UpsertRows(st, [Some(r)]) == st
    ensures !r.start.InvalidDate? ==>
      Find(UpsertRows(st, [Some(r)]), r.name)
        == Some(Contest(r.name, r.platform, r.url, if r.start.Instant? then Some(r.start.ms) else None,
                        r.duration, PcdOf(Find(st, r.name))))
  {
    assert [Some(r)][..0] == [];
    if !r.start.InvalidDate? {
      var u := RowUpdate(r).value;
      assert Updates([Some(r)]) == [] + [u];
      assert [] + [u] == [u];
      assert [u][1..] == [];
      assert UpsertAll(st, [u]) == UpsertAll(Upsert(st, u), []);
      assert UpsertAll(Upsert(st, u), []) == Upsert(st, u);
      assert UpsertRows(st, [Some(r)]) == Upsert(st, u);
      UpsertFound(st, u);
      assert Written(Find(st, r.name), u).pcdLink == PcdOf(Find(st, r.name));
      assert u.startTime == if r.start.Instant? then Some(r.start.ms) else None;
    } else {
      assert Updates([Some(r)]) == [] + [];
    }
  }

  // ---------------------------------------------------------------- LeetCode

  /** What the page script reads from one `.swiper-slide` card: the text of `.truncate`,
      the `href` of the first link and the text of `.text-label-2`, each absent when
      the element is. */
  datatype LeetCodeCard = LeetCodeCard(title: Option<string>, href: Option<string>, time: Option<string>)

  /** A contest object before its time is normalised. */
  datatype Scraped = Scraped(name: string, url: string, when: string, duration: string, platform: string)

  /** The card callback of `page.evaluate`: no object without a time element; "Unknown"
      and "#" stand in for a missing title and link. */
  function LeetCodeScrape(card: LeetCodeCard): (s: Option<Scraped>)
    ensures s.None? <==> card.time.None?
    ensures s.Some? ==> s.value.duration == "01:30" && s.value.platform == "Leetcode"
    ensures s.Some? ==> s.value.name == (if card.title.Some? then Trim(card.title.value) else "Unknown")
    ensures s.Some? ==> s.value.url == (if card.href.Some? then "https://leetcode.com" + card.href.value else "#")
  {
    if card.time.None? then None
    else Some(Scraped(if card.title.Some? then Trim(card.title.value) else "Unknown",
                      if card.href.Some? then "https://leetcode.com" + card.href.value else "#",
                      Trim(card.time.value), "01:30", "Leetcode"))
  }

  /** The object after `contest.start_time = convertLeetCodeTimeToDate(contest.start_time)`. */
  function LeetCodeRow(s: Option<Scraped>, now: int, tz: int): Option<Row> {
    if s.None? then None
    else Some(Row(s.value.name, s.value.url, LeetCodeStart(s.value.when, now, tz), s.value.duration, s.value.platform))
  }

  /** The `forEach` callback: `if (contest != null) contest.start_time = convertLeetCodeTimeToDate(contest.start_time)`. */
  method NormalizeLeetCode(s: Option<Scraped>, now: int, tz: int) returns (r: Option<Row>)
    ensures r == LeetCodeRow(s, now, tz)
  {
    if s == None {
      return None;
    }
    var start := ConvertLeetCodeTimeToDate(s.value.when, now, tz);
    r := Some(Row(s.value.name, s.value.url, start, s.value.duration, s.value.platform));
  }

  /** `contests.forEach(...)` over the scraped list. */
  method NormalizeLeetCodeAll(scraped: seq<Option<Scraped>>, now: int, tz: int) returns (contests: seq<Option<Row>>)
    ensures |contests| == |scraped|
    ensures forall j :: 0 <= j < |scraped| ==> contests[j] == LeetCodeRow(scraped[j], now, tz)
  {
    contests := [];
    for i := 0 to |scraped|
      invariant |contests| == i
      invariant forall j :: 0 <= j < i ==> contests[j] == LeetCodeRow(scraped[j], now, tz)
    {
      var row := NormalizeLeetCode(scraped[i], now, tz);
      contests := contests + [row];
    }
  }

  /** The list `fetchLeetcodeContestsPuppeteer` resolves to. */
  function LeetCodeContests(cards: seq<LeetCodeCard>, now: int, tz: int): (rows: seq<Option<Row>>)
    ensures |rows| == |cards|
  {
    seq(|cards|, i requires 0 <= i < |cards| => LeetCodeRow(LeetCodeScrape(cards[i]), now, tz))
  }

  /** `fetchLeetcodeContestsPuppeteer`: `page` is `None` when launching the browser,
      loading the page or waiting for the cards fails. */
  method FetchLeetcodeContests(page: Option<seq<LeetCodeCard>>, now: int, tz: int, st: ContestStore)
    returns (r: Outcome, st': ContestStore)
    ensures page.None? ==> r == Threw && st' == st
    ensures page.Some? ==> r == Returned(LeetCodeContests(page.value, now, tz))
                           && st' == UpsertRows(st, LeetCodeContests(page.value, now, tz))
  {
    if page.None? {
      return Threw, st;
    }
    var cards := page.value;
    var scraped := seq(|cards|, i requires 0 <= i < |cards| => LeetCodeScrape(cards[i]));
    var contests := NormalizeLeetCodeAll(scraped, now, tz);
    assert contests == LeetCodeContests(cards, now, tz);
    st' := UpsertEach(contests, st);
    r := Returned(contests);
  }

  /** A card whose time text matches nowhere is still written, with a null start and
      its old `pcdLink`; a card without a time element writes nothing. */
  lemma LeetCodeUnmatchedTime(card: LeetCodeCard, now: int, tz: int, st: ContestStore)
    requires Valid(st)
    ensures card.time.None? ==> UpsertRows(st, LeetCodeContests([card], now, tz)) == st
    ensures card.time.Some? &&
            (forall k, pieces :: 0 <= k <= |Trim(card.time.value)| ==>
               !Regex.Matches(LeetCodePattern, pieces, Trim(card.time.value)[k..]))
            ==> var s := LeetCodeScrape(card).value;
                Find(UpsertRows(st, LeetCodeContests([card], now, tz)), s.name)
                  == Some(Contest(s.name, "Leetcode", s.url, None, "01:30", PcdOf(Find(st, s.name))))
  {
    var rows := LeetCodeContests([card], now, tz);
    assert rows[..0] == [];
    if card.time.Some? {
      var s := LeetCodeScrape(card).value;
      LeetCodeStartNullIffNoMatch(s.when, now, tz);
      assert rows == [Some(Row(s.name, s.url, LeetCodeStart(s.when, now, tz), "01:30", "Leetcode"))];
      UpsertOneRow(st, rows[0].value);
    }
  }

  // ---------------------------------------------------------------- CodeChef

  /** What the page script reads from one contest row: the text of `a span`, the link's
      `href`, and the texts of the timer paragraphs. */
  datatype CodeChefCard = CodeChefCard(title: string, href: string, timers: seq<string>)

  /** The row callback of `page.evaluate`: an object only for a row with exactly two
      timer paragraphs, whose trimmed texts are joined by a space. */
  function CodeChefScrape(card: CodeChefCard): (s: Option<Scraped>)
    ensures s.None? <==> |card.timers| != 2
    ensures s.Some? ==> s.value.name == Trim(card.title) && s.value.url == card.href
    ensures s.Some? ==> s.value.when == Trim(card.timers[0]) + " " + Trim(card.timers[1])
    ensures s.Some? ==> s.value.duration == "02:00" && s.value.platform == "Codechef"
  {
    if |card.timers| != 2 then None
    else Some(Scraped(Trim(card.title), card.href, Trim(card.timers[0]) + " " + Trim(card.timers[1]),
                      "02:00", "Codechef"))
  }

  /** The object after `contest.start_time = convertRelativeTimeToDate(contest.starts_in)`
      and `delete contest.starts_in`. */
  function CodeChefRow(s: Option<Scraped>, now: int): Option<Row> {
    if s.None? then None
    else
      var start := RelativeStart(s.value.when, now);
      Some(Row(s.value.name, s.value.url, if start.Some? then Instant(start.value) else Null,
               s.value.duration, s.value.platform))
  }

  /** The `forEach` callback: `contest.start_time = convertRelativeTimeToDate(contest.starts_in); delete contest.starts_in`. */
  method NormalizeCodeChef(s: Option<Scraped>, now: int) returns (r: Option<Row>)
    ensures r == CodeChefRow(s, now)
  {
    if s == None {
      return None;
    }
    var start := ConvertRelativeTimeToDate(s.value.when, now);
    r := Some(Row(s.value.name, s.value.url, if start.Some? then Instant(start.value) else Null,
                  s.value.duration, s.value.platform));
  }

  /** `contests.forEach(...)` over the scraped list. */
  method NormalizeCodeChefAll(scraped: seq<Option<Scraped>>, now: int) returns (contests: seq<Option<Row>>)
    ensures |contests| == |scraped|
    ensures forall j :: 0 <= j < |scraped| ==> contests[j] == CodeChefRow(scraped[j], now)
  {
    contests := [];
    for i := 0 to |scraped|
      invariant |contests| == i
      invariant forall j :: 0 <= j < i ==> contests[j] == CodeChefRow(scraped[j], now)
    {
      var row := NormalizeCodeChef(scraped[i], now);
      contests := contests + [row];
    }
  }

  /** The list `fetchCodeChefContests` resolves to. */
  function CodeChefContests(cards: seq<CodeChefCard>, now: int): (rows: seq<Option<Row>>)
    ensures |rows| == |cards|
  {
    seq(|cards|, i requires 0 <= i < |cards| => CodeChefRow(CodeChefScrape(cards[i]), now))
  }

  /** `fetchCodeChefContests`: `page` is `None` when launching the browser or loading
      the page fails. */
  method FetchCodeChefContests(page: Option<seq<CodeChefCard>>, now: int, st: ContestStore)
    returns (r: Outcome, st': ContestStore)
    ensures page.None? ==> r == Threw && st' == st
    ensures page.Some? ==> r == Returned(CodeChefContests(page.value, now))
                           && st' == UpsertRows(st, CodeChefContests(page.value, now))
  {
    if page.None? {
      return Threw, st;
    }
    var cards := page.value;
    var scraped := seq(|cards|, i requires 0 <= i < |cards| => CodeChefScrape(cards[i]));
    var contests := NormalizeCodeChefAll(scraped, now);
    assert contests == CodeChefContests(cards, now);
    st' := UpsertEach(contests, st);
    r := Returned(contests);
  }

  // -------------------------------------------------------------- Codeforces

  /** One entry of the Codeforces `contest.list` result; `startTimeSeconds` and
      `durationSeconds` may be absent. */
  datatype CfContest = CfContest(id: nat, name: string, phase: string,
                                 startTimeSeconds: Option<int>, durationSeconds: Option<nat>)

  /** The response: the fetch or the JSON parse failed, or a body with its status. */
  datatype CfResponse = FetchFailed | Response(status: string, result: seq<CfContest>)

  /** A contest object of the `.map` step, before its duration is formatted. */
  datatype CfObject = CfObject(name: string, url: string, start: StartTime, durationSeconds: Option<nat>)

  /** The prefix of a contest page's URL. */
  const CfContestUrl: string := "https://codeforces.com/contest/"

  /** The `.map` callback: the contest page URL, and `new Date(startTimeSeconds * 1000)`,
      an Invalid Date when the field is absent. */
  function CfMap(c: CfContest): (o: CfObject)
    ensures o.name == c.name && o.durationSeconds == c.durationSeconds
    ensures o.url == CfContestUrl + NatToString(c.id)
    ensures o.start == if c.startTimeSeconds.Some? then Instant(c.startTimeSeconds.value * 1000) else InvalidDate
  {
    CfObject(c.name, CfContestUrl + NatToString(c.id),
             if c.startTimeSeconds.Some? then Instant(c.startTimeSeconds.value * 1000) else InvalidDate,
             c.durationSeconds)
  }

  /** `data.result.filter(c => c.phase === "BEFORE").map(...)`. */
  function CfUpcoming(cs: seq<CfContest>): seq<CfObject> {
    if cs == [] then []
    else CfUpcoming(cs[..|cs| - 1]) + (if cs[|cs| - 1].phase == "BEFORE" then [CfMap(cs[|cs| - 1])] else [])
  }

  /** The upcoming list holds exactly the mapped contests in phase "BEFORE". */
  lemma {:induction false} CfUpcomingMembers(cs: seq<CfContest>, o: CfObject)
    ensures o in CfUpcoming(cs) <==> exists c :: c in cs && c.phase == "BEFORE" && o == CfMap(c)
  {
    if cs != [] {
      var init := cs[..|cs| - 1];
      var last := cs[|cs| - 1];
      CfUpcomingMembers(init, o);
      assert cs == init + [last];
      if exists c :: c in init && c.phase == "BEFORE" && o == CfMap(c) {
        var c :| c in init && c.phase == "BEFORE" && o == CfMap(c);
        assert c in cs;
      }
      if exists c :: c in cs && c.phase == "BEFORE" && o == CfMap(c) {
        var c :| c in cs && c.phase == "BEFORE" && o == CfMap(c);
        if c != last {
          assert c in init;
        }
      }
    }
  }

  /** `convertDurationToHHMM(undefined)`: both fields are `String(NaN)`. */
  const NaNDuration: string := "NaN:NaN"

  /** `convertDurationToHHMM(contest.durationSeconds)`, the field present or not. */
  function CfDuration(d: Option<nat>): string {
    if d.Some? then DurationToHHMM(d.value) else NaNDuration
  }

  /** The object after `contest.duration = convertDurationToHHMM(contest.durationSeconds)`
      and `delete contest.durationSeconds`. */
  function CfRow(o: CfObject): Row {
    Row(o.name, o.url, o.start, CfDuration(o.durationSeconds), "Codeforces")
  }

  /** The list `fetchCodeforcesContests` resolves to: empty when the fetch fails or
      the status is not "OK". */
  function CodeforcesContests(resp: CfResponse): seq<Option<Row>> {
    if resp.FetchFailed? || resp.status != "OK" then []
    else
      CfRows(CfUpcoming(resp.result))
  }

  /** `fetchCodeforcesContests`: it never rejects; any failure resolves to `[]` with no
      write. */
  method FetchCodeforcesContests(resp: CfResponse, st: ContestStore)
    returns (r: seq<Option<Row>>, st': ContestStore)
    ensures r == CodeforcesContests(resp)
    ensures resp.FetchFailed? || resp.status != "OK" ==> r == [] && st' == st
    ensures st' == UpsertRows(st, r)
  {
    if resp.FetchFailed? || resp.status != "OK" {
      assert UpsertRows(st, []) == st;
      return [], st;
    }
    var contests := NormalizeCodeforcesAll(CfUpcoming(resp.result));
    st' := UpsertEach(contests, st);
    r := contests;
  }

  /** The contest objects of the upcoming list, in order. */
  function CfRows(up: seq<CfObject>): (rows: seq<Option<Row>>)
    ensures |rows| == |up|
    ensures forall i :: 0 <= i < |up| ==> rows[i] == Some(CfRow(up[i]))
  {
    seq(|up|, i requires 0 <= i < |up| => Some(CfRow(up[i])))
  }

  /** The `forEach` callback: the duration in seconds becomes an "HH:MM" string. */
  method NormalizeCodeforces(o: CfObject) returns (row: Row)
    ensures row == CfRow(o)
  {
    var duration := if o.durationSeconds.Some? then DurationToHHMM(o.durationSeconds.value) else NaNDuration;
    row := Row(o.name, o.url, o.start, duration, "Codeforces");
  }

  /** `upcomingContests.forEach(...)`. */
  method NormalizeCodeforcesAll(upcoming: seq<CfObject>) returns (contests: seq<Option<Row>>)
    ensures contests == CfRows(upcoming)
  {
    contests := [];
    for i := 0 to |upcoming|
      invariant |contests| == i
      invariant forall j :: 0 <= j < i ==> contests[j] == Some(CfRow(upcoming[j]))
    {
      var row := NormalizeCodeforces(upcoming[i]);
      contests := contests + [Some(row)];
    }
  }

  /** `row` is what the Codeforces adapter writes for `c`. */
  predicate CfRowFrom(c: CfContest, row: Row) {
    row.name == c.name
    && row.url == CfContestUrl + NatToString(c.id)
    && row.start == (if c.startTimeSeconds.Some? then Instant(c.startTimeSeconds.value * 1000) else InvalidDate)
    && (if c.durationSeconds.Some?
        then HHMMSeconds(row.duration) == Some(c.durationSeconds.value - c.durationSeconds.value % 60)
        else row.duration == NaNDuration)
    && row.platform == "Codeforces"
  }

  /** Every Codeforces object comes from a contest in phase "BEFORE", with the contest
      page as URL, the start at `startTimeSeconds * 1000` ms, and a duration that
      reads back as the contest's length in whole minutes, or "NaN:NaN" when the
      length is absent. */
  lemma CodeforcesRowsSpec(resp: CfResponse, row: Row)
    requires Some(row) in CodeforcesContests(resp)
    ensures resp.Response? && resp.status == "OK"
    ensures exists c :: c in resp.result && c.phase == "BEFORE" && CfRowFrom(c, row)
  {
    var rows := CodeforcesContests(resp);
    var i :| 0 <= i < |rows| && rows[i] == Some(row);
    var up := CfUpcoming(resp.result);
    assert row == CfRow(up[i]);
    CfUpcomingMembers(resp.result, up[i]);
    var c :| c in resp.result && c.phase == "BEFORE" && up[i] == CfMap(c);
    CfRowOfMap(c);
  }

  lemma CfRowOfMap(c: CfContest)
    ensures CfRowFrom(c, CfRow(CfMap(c)))
  {
    CfDurationReads(c.durationSeconds);
  }

  /** The duration text reads back as the whole minutes of the length, or is
      "NaN:NaN" when the length is absent. */
  lemma CfDurationReads(d: Option<nat>)
    ensures d.Some? ==> HHMMSeconds(CfDuration(d)) == Some(d.value - d.value % 60)
    ensures d.None? ==> CfDuration(d) == NaNDuration
  {
    match d
    case Some(seconds) =>
      DurationRoundTrip(seconds);
    case None =>
  }

  /** ... and every "BEFORE" contest of an OK response is among them. */
  lemma CodeforcesKeepsUpcoming(resp: CfResponse, c: CfContest)
    requires resp.Response? && resp.status == "OK" && c in resp.result && c.phase == "BEFORE"
    ensures Some(CfRow(CfMap(c))) in CodeforcesContests(resp)
  {
    var up := CfUpcoming(resp.result);
    CfUpcomingMembers(resp.result, CfMap(c));
    var i :| 0 <= i < |up| && up[i] == CfMap(c);
    assert CodeforcesContests(resp)[i] == Some(CfRow(CfMap(c)));
  }

  /** ... and one that has a start time is stored: the upsert loop leaves a document
      under its name. One without `startTimeSeconds` is returned but not written,
      since its Invalid Date fails the cast. */
  lemma CodeforcesStoresUpcoming(st: ContestStore, resp: CfResponse, c: CfContest)
    requires Valid(st)
    requires resp.Response? && resp.status == "OK" && c in resp.result && c.phase == "BEFORE"
    requires c.startTimeSeconds.Some?
    ensures Find(UpsertRows(st, CodeforcesContests(resp)), c.name).Some?
  {
    var rows := CodeforcesContests(resp);
    CodeforcesKeepsUpcoming(resp, c);
    var j :| 0 <= j < |rows| && rows[j] == Some(CfRow(CfMap(c)));
    UpsertRowsStores(st, rows, j);
  }
}
