/** The contest list page: the platform filter, the past/upcoming split of a page of
    contests, which contests the user has bookmarked, and the page state those
    update. Instants are integer milliseconds. */
module ContestsView {
  import opened Text
  import opened ClientDuration

  /** A contest as the client receives it. */
  datatype ClientContest = ClientContest(id: string, name: string, platform: string,
                                         startTime: Option<int>, duration: string,
                                         pcdLink: Option<string>)

  /** A bookmark as the client receives it: its own id and its populated contest,
      null when the contest no longer exists. */
  datatype ClientBookmark = ClientBookmark(id: string, contest: Option<ClientContest>)

  const HourMs: int := 3600000

  // --------------------------------------------------------- platform filter

  const AllPlatforms: string := "All"

  predicate NoDuplicates(xs: seq<string>) {
    forall i, j :: 0 <= i < j < |xs| ==> xs[i] != xs[j]
  }

  /** What the selection always is: never empty, "All" only on its own, each platform
      once. */
  predicate SelectionValid(sel: seq<string>) {
    sel != [] && (AllPlatforms in sel ==> sel == [AllPlatforms]) && NoDuplicates(sel)
  }

  /** `prev.filter(p => p !== platform)`. */
  function Without(xs: seq<string>, x: string): (r: seq<string>)
    ensures forall y :: y in r <==> y in xs && y != x
    ensures |r| <= |xs|
  {
    if xs == [] then []
    else (if xs[0] == x then [] else [xs[0]]) + Without(xs[1..], x)
  }

  /** The updater `handlePlatformSelect` passes to `setSelectedPlatforms`. */
  function SelectPlatform(prev: seq<string>, platform: string): seq<string> {
    if platform == AllPlatforms then [AllPlatforms]
    else
      var newSelected :=
        if AllPlatforms in prev then [platform]
        else if platform in prev then Without(prev, platform)
        else prev + [platform];
      if |newSelected| == 0 then [AllPlatforms] else newSelected
  }

  lemma {:induction false} WithoutKeepsDistinct(xs: seq<string>, x: string)
    requires NoDuplicates(xs)
    ensures NoDuplicates(Without(xs, x))
  {
    if xs != [] {
      WithoutKeepsDistinct(xs[1..], x);
      var rest := Without(xs[1..], x);
      assert xs[0] !in xs[1..] by {
        forall i | 0 <= i < |xs[1..]| ensures xs[1..][i] != xs[0] { assert xs[1..][i] == xs[i + 1]; }
      }
      var r := Without(xs, x);
      if xs[0] != x {
        assert r == [xs[0]] + rest;
        forall i, j | 0 <= i < j < |r| ensures r[i] != r[j] {
          if i == 0 { assert r[j] == rest[j - 1] && r[j] in xs[1..]; }
          else { assert r[i] == rest[i - 1] && r[j] == rest[j - 1]; }
        }
      }
    }
  }

  /** Choosing "All" selects exactly ["All"]; choosing a platform while "All" is
      selected selects just that platform; otherwise a selected platform is dropped
      and an unselected one appended, and an empty result becomes ["All"]. */
  lemma SelectPlatformCases(prev: seq<string>, platform: string)
    requires SelectionValid(prev)
    ensures var r := SelectPlatform(prev, platform);
      && (platform == AllPlatforms ==> r == [AllPlatforms])
      && (platform != AllPlatforms && prev == [AllPlatforms] ==> r == [platform])
      && (platform != AllPlatforms && prev != [AllPlatforms] && platform !in prev ==> r == prev + [platform])
      && (platform != AllPlatforms && prev != [AllPlatforms] && platform in prev ==>
            (forall y :: y in r <==> (y in prev && y != platform) || (prev == [platform] && y == AllPlatforms)))
  {
    if platform != AllPlatforms && prev != [AllPlatforms] && platform in prev {
      var w := Without(prev, platform);
      if prev == [platform] {
        assert w == [];
      } else {
        var k :| 0 <= k < |prev| && prev[k] == platform;
        var j := if k == 0 then 1 else 0;
        assert j < |prev| && prev[j] != platform;
        assert prev[j] in w;
      }
    }
  }

  /** The selection stays valid whatever is chosen, so "All" never appears next to
      another platform. */
  lemma SelectPlatformKeepsValid(prev: seq<string>, platform: string)
    requires SelectionValid(prev)
    ensures SelectionValid(SelectPlatform(prev, platform))
  {
    if platform != AllPlatforms && AllPlatforms !in prev {
      if platform in prev {
        WithoutKeepsDistinct(prev, platform);
        var w := Without(prev, platform);
        assert AllPlatforms !in w;
      } else {
        var r := prev + [platform];
        forall i, j | 0 <= i < j < |r| ensures r[i] != r[j] {
          if j == |prev| { assert r[i] == prev[i] && prev[i] in prev; }
        }
      }
    }
  }

  /** Choosing a platform that is not selected, and then choosing it again, restores
      the selection; from ["All"] the two choices give [platform] and then ["All"]. */
  lemma SelectPlatformTwice(prev: seq<string>, platform: string)
    requires SelectionValid(prev) && platform != AllPlatforms && platform !in prev
    ensures SelectPlatform(SelectPlatform(prev, platform), platform) == prev
  {
    if prev == [AllPlatforms] {
      assert SelectPlatform(prev, platform) == [platform];
      assert Without([platform], platform) == [];
    } else {
      var once := prev + [platform];
      assert AllPlatforms !in once;
      WithoutSnoc(prev, platform);
    }
  }

  /** Choosing a selected platform twice, when another platform is selected too, does
      not restore the selection: the platform moves to the end. */
  lemma SelectPlatformTwiceMovesToEnd(prev: seq<string>, platform: string)
    requires SelectionValid(prev) && platform != AllPlatforms && platform in prev
    requires prev != [platform]
    ensures SelectPlatform(SelectPlatform(prev, platform), platform) == Without(prev, platform) + [platform]
  {
    assert AllPlatforms !in prev;
    var k :| 0 <= k < |prev| && prev[k] == platform;
    var j := if k == 0 then 1 else 0;
    assert j < |prev| && prev[j] != platform;
    assert prev[j] in prev;
    var w := Without(prev, platform);
    assert prev[j] in w;
    assert platform !in w && AllPlatforms !in w;
  }

  lemma {:induction false} WithoutSnoc(xs: seq<string>, x: string)
    requires x !in xs
    ensures Without(xs + [x], x) == xs
  {
    if xs != [] {
      assert (xs + [x])[1..] == xs[1..] + [x];
      WithoutSnoc(xs[1..], x);
      assert xs == [xs[0]] + xs[1..];
    }
  }

  // ------------------------------------------------------- past and upcoming

  /** `addHours(parseISO(start_time), parseDuration(duration))`. */
  function EndMs(c: ClientContest): int
    requires c.startTime.Some?
  {
    c.startTime.value + ListHours(c.duration) * HourMs
  }

  /** The filter in `fetchContests`: entries without a start time are dropped; a past
      listing keeps the contests that have ended by `now`, an upcoming one those that
      end after it. */
  function ShownContests(page: seq<Option<ClientContest>>, isPast: bool, now: int): seq<ClientContest> {
    if page == [] then []
    else
      var c := page[0];
      (if c.Some? && c.value.startTime.Some? && (isPast <==> EndMs(c.value) <= now) then [c.value] else [])
      + ShownContests(page[1..], isPast, now)
  }

  /** The contests of a page that carry a start time. */
  function DatedContests(page: seq<Option<ClientContest>>): seq<ClientContest> {
    if page == [] then []
    else (if page[0].Some? && page[0].value.startTime.Some? then [page[0].value] else []) + DatedContests(page[1..])
  }

  /** Shown as past iff dated and ended by `now`; shown as upcoming iff dated and
      ending after it. */
  lemma {:induction false} ShownContestsMembers(page: seq<Option<ClientContest>>, now: int, c: ClientContest)
    ensures c in ShownContests(page, true, now) <==> Some(c) in page && c.startTime.Some? && EndMs(c) <= now
    ensures c in ShownContests(page, false, now) <==> Some(c) in page && c.startTime.Some? && EndMs(c) > now
  {
    if page != [] {
      ShownContestsMembers(page[1..], now, c);
      assert Some(c) in page <==> page[0] == Some(c) || Some(c) in page[1..] by {
        assert page == [page[0]] + page[1..];
      }
    }
  }

  /** The past and upcoming listings of one page split its dated contests: together
      they hold each dated contest exactly once. */
  lemma {:induction false} ShownContestsSplit(page: seq<Option<ClientContest>>, now: int)
    ensures multiset(ShownContests(page, true, now)) + multiset(ShownContests(page, false, now))
            == multiset(DatedContests(page))
  {
    if page != [] {
      ShownContestsSplit(page[1..], now);
    }
  }

  // -------------------------------------------------------------- bookmarks

  /** The test of `isBookmarked` for one bookmark. */
  predicate Refers(b: ClientBookmark, contestId: string) {
    (b.contest.Some? && b.contest.value.id == contestId) || b.id == contestId
  }

  /** `isBookmarked(contestId)`. */
  predicate IsBookmarked(bs: seq<ClientBookmark>, contestId: string) {
    exists i :: 0 <= i < |bs| && Refers(bs[i], contestId)
  }

  /** The list `toggleBookmark` keeps after a removal, written as the code reads: the
      predicate reads `bookmark.contest._id` for every bookmark, so a bookmark whose
      contest is null throws (`None`) before anything is kept. */
  function UnbookmarkAsWritten(bs: seq<ClientBookmark>, contestId: string): Option<seq<ClientBookmark>> {
    if bs == [] then Some([])
    else if bs[0].contest.None? then None
    else match UnbookmarkAsWritten(bs[1..], contestId)
      case None => None
      case Some(rest) =>
        Some((if bs[0].contest.value.id != contestId && bs[0].id != contestId then [bs[0]] else []) + rest)
  }

  /** The list `toggleBookmark` should keep: exactly the bookmarks `isBookmarked` does
      not match, in order. */
  function Unbookmark(bs: seq<ClientBookmark>, contestId: string): (r: seq<ClientBookmark>)
    ensures |r| <= |bs|
  {
    if bs == [] then []
    else (if Refers(bs[0], contestId) then [] else [bs[0]]) + Unbookmark(bs[1..], contestId)
  }

  /** As written, one bookmark of a deleted contest makes every removal throw. */
  lemma UnbookmarkAsWrittenThrows(bs: seq<ClientBookmark>, contestId: string)
    requires exists i :: 0 <= i < |bs| && bs[i].contest.None?
    ensures UnbookmarkAsWritten(bs, contestId).None?
  {
    var i :| 0 <= i < |bs| && bs[i].contest.None?;
    UnbookmarkAsWrittenThrowsAt(bs, contestId, i);
  }

  lemma {:induction false} UnbookmarkAsWrittenThrowsAt(bs: seq<ClientBookmark>, contestId: string, i: nat)
    requires i < |bs| && bs[i].contest.None?
    ensures UnbookmarkAsWritten(bs, contestId).None?
  {
    if i > 0 {
      UnbookmarkAsWrittenThrowsAt(bs[1..], contestId, i - 1);
    }
  }

  /** A concrete case: a single bookmark whose contest was deleted. */
  lemma UnbookmarkAsWrittenExample()
    ensures UnbookmarkAsWritten([ClientBookmark("b1", None)], "c1") == None
  {
  }

  /** Where no bookmark has lost its contest, the code as written and the guarded
      filter agree. */
  lemma {:induction false} UnbookmarkAgrees(bs: seq<ClientBookmark>, contestId: string)
    requires forall i :: 0 <= i < |bs| ==> bs[i].contest.Some?
    ensures UnbookmarkAsWritten(bs, contestId) == Some(Unbookmark(bs, contestId))
  {
    if bs != [] {
      UnbookmarkAgrees(bs[1..], contestId);
    }
  }

  /** After a removal the contest is no longer bookmarked, and every other bookmark is
      kept. */
  lemma {:induction false} UnbookmarkClears(bs: seq<ClientBookmark>, contestId: string)
    ensures !IsBookmarked(Unbookmark(bs, contestId), contestId)
    ensures forall b :: b in Unbookmark(bs, contestId) <==> b in bs && !Refers(b, contestId)
  {
    if bs != [] {
      UnbookmarkClears(bs[1..], contestId);
      assert bs == [bs[0]] + bs[1..];
      var r := Unbookmark(bs, contestId);
      forall i | 0 <= i < |r| ensures !Refers(r[i], contestId) {
        assert r[i] in r;
      }
    }
  }

  /** The removal keeps the order of what it keeps: it works element by element, a
      bookmark staying iff it does not refer to the contest. */
  lemma {:induction false} UnbookmarkAppend(a: seq<ClientBookmark>, b: seq<ClientBookmark>, contestId: string)
    ensures Unbookmark(a + b, contestId) == Unbookmark(a, contestId) + Unbookmark(b, contestId)
  {
    if a == [] {
      assert a + b == b;
    } else {
      assert (a + b)[1..] == a[1..] + b;
      UnbookmarkAppend(a[1..], b, contestId);
    }
  }

  /** ... and on one bookmark it keeps it iff it does not refer to the contest. */
  lemma UnbookmarkSingle(x: ClientBookmark, contestId: string)
    ensures Unbookmark([x], contestId) == if Refers(x, contestId) then [] else [x]
  {
    assert [x][1..] == [];
  }

  /** Adding the bookmark the server returns makes its contest bookmarked. */
  lemma AddedIsBookmarked(bs: seq<ClientBookmark>, b: ClientBookmark, contestId: string)
    requires Refers(b, contestId)
    ensures IsBookmarked(bs + [b], contestId)
  {
    assert (bs + [b])[|bs|] == b;
  }

  // ------------------------------------------------------------- page state

  /** The component's state. */
  class ContestsPage {
    var selectedPlatforms: seq<string>
    var bookmarkedContests: seq<ClientBookmark>
    var upcomingContests: seq<ClientContest>
    var pastContests: seq<ClientContest>
    var upcomingPage: int
    var pastPage: int

    predicate Valid()
      reads this
    {
      SelectionValid(selectedPlatforms)
    }

    /** The initial state: "All" selected, nothing loaded, page 1 of both listings. */
    constructor ()
      ensures Valid()
      ensures selectedPlatforms == [AllPlatforms] && bookmarkedContests == []
      ensures upcomingContests == [] && pastContests == [] && upcomingPage == 1 && pastPage == 1
    {
      selectedPlatforms := [AllPlatforms];
      bookmarkedContests := [];
      upcomingContests := [];
      pastContests := [];
      upcomingPage := 1;
      pastPage := 1;
    }

    /** `handlePlatformSelect`. */
    method HandlePlatformSelect(platform: string)
      requires Valid()
      modifies this
      ensures Valid()
      ensures selectedPlatforms == SelectPlatform(old(selectedPlatforms), platform)
      ensures bookmarkedContests == old(bookmarkedContests)
      ensures upcomingContests == old(upcomingContests) && pastContests == old(pastContests)
      ensures upcomingPage == old(upcomingPage) && pastPage == old(pastPage)
    {
      SelectPlatformKeepsValid(selectedPlatforms, platform);
      selectedPlatforms := SelectPlatform(selectedPlatforms, platform);
    }

    /** `loadInitialData`: the bookmark list is replaced when `fetchBookmarks` got one
        (`None` when signed out or when the request failed), and both listings are
        replaced by page 1's contests of their kind; `fetchContests` answers an empty
        page when its request fails. The page counters are left alone. */
    method LoadInitialData(bookmarks: Option<seq<ClientBookmark>>, upcoming: seq<Option<ClientContest>>,
                           past: seq<Option<ClientContest>>, now: int)
      modifies this
      ensures bookmarkedContests == if bookmarks.Some? then bookmarks.value else old(bookmarkedContests)
      ensures upcomingContests == ShownContests(upcoming, false, now)
      ensures pastContests == ShownContests(past, true, now)
      ensures selectedPlatforms == old(selectedPlatforms)
      ensures upcomingPage == old(upcomingPage) && pastPage == old(pastPage)
    {
      if bookmarks.Some? {
        bookmarkedContests := bookmarks.value;
      }
      upcomingContests := ShownContests(upcoming, false, now);
      pastContests := ShownContests(past, true, now);
    }

    /** The effect that runs when the selection changes: both listings go back to
        page 1, are emptied, and are loaded afresh for the new selection. */
    method SelectionChanged(bookmarks: Option<seq<ClientBookmark>>, upcoming: seq<Option<ClientContest>>,
                            past: seq<Option<ClientContest>>, now: int)
      requires Valid()
      modifies this
      ensures Valid()
      ensures upcomingPage == 1 && pastPage == 1
      ensures upcomingContests == ShownContests(upcoming, false, now)
      ensures pastContests == ShownContests(past, true, now)
      ensures bookmarkedContests == if bookmarks.Some? then bookmarks.value else old(bookmarkedContests)
      ensures selectedPlatforms == old(selectedPlatforms)
    {
      upcomingPage := 1;
      pastPage := 1;
      upcomingContests := [];
      pastContests := [];
      LoadInitialData(bookmarks, upcoming, past, now);
    }

    /** The bookmark list after a successful delete, with the null guard of
        `isBookmarked`. */
    method RemoveBookmarked(contestId: string)
      modifies this
      ensures bookmarkedContests == Unbookmark(old(bookmarkedContests), contestId)
      ensures !IsBookmarked(bookmarkedContests, contestId)
      ensures selectedPlatforms == old(selectedPlatforms)
      ensures upcomingContests == old(upcomingContests) && pastContests == old(pastContests)
      ensures upcomingPage == old(upcomingPage) && pastPage == old(pastPage)
    {
      UnbookmarkClears(bookmarkedContests, contestId);
      bookmarkedContests := Unbookmark(bookmarkedContests, contestId);
    }

    /** The bookmark list after a successful create that returned a bookmark. */
    method AppendBookmark(b: ClientBookmark)
      modifies this
      ensures bookmarkedContests == old(bookmarkedContests) + [b]
      ensures selectedPlatforms == old(selectedPlatforms)
      ensures upcomingContests == old(upcomingContests) && pastContests == old(pastContests)
      ensures upcomingPage == old(upcomingPage) && pastPage == old(pastPage)
    {
      bookmarkedContests := bookmarkedContests + [b];
    }

    /** `fetchMoreUpcoming`: the next page's upcoming contests go after those shown. */
    method FetchMoreUpcoming(page: seq<Option<ClientContest>>, now: int)
      modifies this
      ensures upcomingPage == old(upcomingPage) + 1
      ensures upcomingContests == old(upcomingContests) + ShownContests(page, false, now)
      ensures selectedPlatforms == old(selectedPlatforms) && bookmarkedContests == old(bookmarkedContests)
      ensures pastContests == old(pastContests) && pastPage == old(pastPage)
    {
      upcomingPage := upcomingPage + 1;
      upcomingContests := upcomingContests + ShownContests(page, false, now);
    }

    /** `fetchMorePast`: the next page's past contests go after those shown. */
    method FetchMorePast(page: seq<Option<ClientContest>>, now: int)
      modifies this
      ensures pastPage == old(pastPage) + 1
      ensures pastContests == old(pastContests) + ShownContests(page, true, now)
      ensures selectedPlatforms == old(selectedPlatforms) && bookmarkedContests == old(bookmarkedContests)
      ensures upcomingContests == old(upcomingContests) && upcomingPage == old(upcomingPage)
    {
      pastPage := pastPage + 1;
      pastContests := pastContests + ShownContests(page, true, now);
    }
  }
}
