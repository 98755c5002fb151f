/** The bookmark page: its past/upcoming split of the user's bookmarks and the list it
    keeps after a removal. Instants are milliseconds; the page's durations are real
    numbers of hours, since a duration in minutes becomes minutes / 60. */
module BookmarksView {
  import opened Text
  import opened ClientDuration
  import opened ContestsView

  /** `xs.filter(p)`. */
  function Filter<T>(xs: seq<T>, p: T -> bool): (r: seq<T>)
    ensures |r| <= |xs|
    ensures forall i :: 0 <= i < |r| ==> p(r[i])
  {
    if xs == [] then []
    else
      var rest := Filter(xs[1..], p);
      if p(xs[0]) then [xs[0]] + rest else rest
  }

  /** Each element is kept as often as it occurs, when it passes the test, and never
      otherwise. */
  lemma {:induction false} FilterCount<T>(xs: seq<T>, p: T -> bool, x: T)
    ensures multiset(Filter(xs, p))[x] == if p(x) then multiset(xs)[x] else 0
  {
    if xs != [] {
      FilterCount(xs[1..], p, x);
      assert xs == [xs[0]] + xs[1..];
    }
  }

  lemma FilterMembers<T>(xs: seq<T>, p: T -> bool, x: T)
    ensures x in Filter(xs, p) <==> x in xs && p(x)
  {
    FilterCount(xs, p, x);
    assert x in Filter(xs, p) <==> multiset(Filter(xs, p))[x] > 0;
  }

  /** `filter` keeps the order of what it keeps: it works element by element. */
  lemma {:induction false} FilterAppend<T>(xs: seq<T>, ys: seq<T>, p: T -> bool)
    ensures Filter(xs + ys, p) == Filter(xs, p) + Filter(ys, p)
    ensures forall x :: Filter([x], p) == if p(x) then [x] else []
  {
    if xs == [] {
      assert xs + ys == ys;
    } else {
      assert (xs + ys)[1..] == xs[1..] + ys;
      FilterAppend(xs[1..], ys, p);
    }
    forall x ensures Filter([x], p) == if p(x) then [x] else [] {
      assert [x][1..] == [];
    }
  }

  /** Filtering two orders of the same elements keeps the same elements. */
  lemma FilterIgnoresOrder(xs: seq<ClientBookmark>, ys: seq<ClientBookmark>, p: ClientBookmark -> bool)
    requires multiset(xs) == multiset(ys)
    ensures multiset(Filter(xs, p)) == multiset(Filter(ys, p))
  {
    forall x ensures multiset(Filter(xs, p))[x] == multiset(Filter(ys, p))[x] {
      FilterCount(xs, p, x);
      FilterCount(ys, p, x);
      assert multiset(xs)[x] == multiset(ys)[x];
    }
    assert multiset(Filter(xs, p)) == multiset(Filter(ys, p));
  }

  // ------------------------------------------------------- past and upcoming

  /** `addHours(parseISO(start_time), parseDuration(duration))` in milliseconds. */
  function PageEnd(c: ClientContest): real
    requires c.startTime.Some?
  {
    c.startTime.value as real + PageHours(c.duration) * (HourMs as real)
  }

  /** A bookmark the page can place: it has a contest, and the contest a start time. */
  predicate Dated(b: ClientBookmark) {
    b.contest.Some? && b.contest.value.startTime.Some?
  }

  /** The test of `filterBookmarks(isPast)`: past when the contest ended before `now`,
      upcoming when it ends at `now` or later. */
  predicate ShownAs(b: ClientBookmark, isPast: bool, now: int) {
    Dated(b) && (if isPast then PageEnd(b.contest.value) < now as real
                 else PageEnd(b.contest.value) >= now as real)
  }

  /** `filterBookmarks(isPast)` applied to the sorted copy `sorted`. */
  function FilterBookmarks(sorted: seq<ClientBookmark>, isPast: bool, now: int): seq<ClientBookmark> {
    Filter(sorted, b => ShownAs(b, isPast, now))
  }

  /** A bookmark is listed as past iff it is dated and its contest ended before `now`,
      and as upcoming iff it is dated and ends at `now` or later: a contest ending
      exactly now is upcoming. */
  lemma FilterBookmarksMembers(sorted: seq<ClientBookmark>, now: int, b: ClientBookmark)
    ensures b in FilterBookmarks(sorted, true, now) <==>
              b in sorted && Dated(b) && PageEnd(b.contest.value) < now as real
    ensures b in FilterBookmarks(sorted, false, now) <==>
              b in sorted && Dated(b) && PageEnd(b.contest.value) >= now as real
  {
    FilterMembers(sorted, b => ShownAs(b, true, now), b);
    FilterMembers(sorted, b => ShownAs(b, false, now), b);
  }

  /** The two tabs split the dated bookmarks: together they hold each exactly as often
      as the list does, and the undated ones appear in neither. */
  lemma FilterBookmarksSplit(sorted: seq<ClientBookmark>, now: int)
    ensures multiset(FilterBookmarks(sorted, true, now)) + multiset(FilterBookmarks(sorted, false, now))
            == multiset(Filter(sorted, Dated))
  {
    var past, upcoming := b => ShownAs(b, true, now), b => ShownAs(b, false, now);
    forall x ensures (multiset(Filter(sorted, past)) + multiset(Filter(sorted, upcoming)))[x]
                     == multiset(Filter(sorted, Dated))[x]
    {
      FilterCount(sorted, past, x);
      FilterCount(sorted, upcoming, x);
      FilterCount(sorted, Dated, x);
    }
  }

  /** Whatever order the sort leaves the copy in, each tab shows the same bookmarks. */
  lemma FilterBookmarksIgnoreOrder(sorted: seq<ClientBookmark>, state: seq<ClientBookmark>,
                                   isPast: bool, now: int)
    requires multiset(sorted) == multiset(state)
    ensures multiset(FilterBookmarks(sorted, isPast, now)) == multiset(FilterBookmarks(state, isPast, now))
  {
    FilterIgnoresOrder(sorted, state, b => ShownAs(b, isPast, now));
  }

  // ----------------------------------------------------------------- removal

  /** The test of `removeBookmark`'s filter, with the null guard it lacks. */
  predicate KeptAfterRemove(b: ClientBookmark, contestId: string) {
    !(b.contest.Some? && b.contest.value.id == contestId)
  }

  /** The list `removeBookmark` keeps, written as the code reads: the predicate reads
      `bookmark.contest._id` for every bookmark, so a bookmark whose contest is null
      throws (`None`). */
  function RemoveAsWritten(bs: seq<ClientBookmark>, contestId: string): Option<seq<ClientBookmark>> {
    if bs == [] then Some([])
    else if bs[0].contest.None? then None
    else match RemoveAsWritten(bs[1..], contestId)
      case None => None
      case Some(rest) => Some((if bs[0].contest.value.id != contestId then [bs[0]] else []) + rest)
  }

  /** The list `removeBookmark` should keep. */
  function RemoveFrom(bs: seq<ClientBookmark>, contestId: string): seq<ClientBookmark> {
    Filter(bs, b => KeptAfterRemove(b, contestId))
  }

  /** As written, one bookmark of a deleted contest makes the removal throw. */
  lemma {:induction false} RemoveAsWrittenThrows(bs: seq<ClientBookmark>, contestId: string, i: nat)
    requires i < |bs| && bs[i].contest.None?
    ensures RemoveAsWritten(bs, contestId).None?
  {
    if i > 0 {
      RemoveAsWrittenThrows(bs[1..], contestId, i - 1);
    }
  }

  /** Where every bookmark still has its contest, the code as written and the guarded
      filter agree. */
  lemma {:induction false} RemoveAgrees(bs: seq<ClientBookmark>, contestId: string)
    requires forall i :: 0 <= i < |bs| ==> bs[i].contest.Some?
    ensures RemoveAsWritten(bs, contestId) == Some(RemoveFrom(bs, contestId))
  {
    if bs != [] {
      RemoveAgrees(bs[1..], contestId);
      var p := b => KeptAfterRemove(b, contestId);
      assert RemoveFrom(bs, contestId) == Filter(bs, p);
      assert RemoveFrom(bs[1..], contestId) == Filter(bs[1..], p);
      assert Filter(bs, p) == (if p(bs[0]) then [bs[0]] else []) + Filter(bs[1..], p);
    }
  }

  /** The guarded removal keeps exactly the bookmarks of other contests, each as often
      as before, and leaves none of the removed contest. */
  lemma RemoveFromKeepsOthers(bs: seq<ClientBookmark>, contestId: string, b: ClientBookmark)
    ensures multiset(RemoveFrom(bs, contestId))[b] ==
              if KeptAfterRemove(b, contestId) then multiset(bs)[b] else 0
  {
    FilterCount(bs, x => KeptAfterRemove(x, contestId), b);
  }

  // -------------------------------------------------------------- page state

  class BookmarksPage {
    var bookmarkedContests: seq<ClientBookmark>

    constructor ()
      ensures bookmarkedContests == []
    {
      bookmarkedContests := [];
    }

    /** `fetchBookmarks` after a successful reply. */
    method Loaded(bookmarks: seq<ClientBookmark>)
      modifies this
      ensures bookmarkedContests == bookmarks
    {
      bookmarkedContests := bookmarks;
    }

    /** `removeBookmark` after a successful delete, with the null guard. */
    method RemoveBookmark(contestId: string)
      modifies this
      ensures bookmarkedContests == RemoveFrom(old(bookmarkedContests), contestId)
      ensures forall b :: b in bookmarkedContests ==> KeptAfterRemove(b, contestId)
    {
      bookmarkedContests := RemoveFrom(bookmarkedContests, contestId);
    }
  }
}
