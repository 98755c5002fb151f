/** The bookmark handlers: `addBookmark` validates the request, stores the bookmark and,
    when the reminder instant is still ahead, enqueues a delayed reminder job;
    `removeBookmark` deletes a bookmark; `getBookmarks` lists the caller's bookmarks,
    newest first, one page at a time. A request without an authenticated user id is
    modelled with `userId == ""`. */
module BookmarkController {
  import opened Text
  import opened Schema
  import opened Reconciler
  import opened Query

  // ------------------------------------------------------------------ queue

  /** What a reminder job carries: a snapshot of the user's address and of the
      contest, taken when the job is enqueued. */
  datatype ReminderData = ReminderData(email: string, contestTitle: string, contestUrl: string,
                                       startTime: Option<int>)

  datatype JobOptions = JobOptions(delay: int, attempts: nat, removeOnComplete: bool, removeOnFail: bool)

  datatype Job = Job(name: string, data: ReminderData, opts: JobOptions)

  /** A BullMQ queue: its name and the jobs added to it, in order. */
  datatype Queue = Queue(name: string, jobs: seq<Job>)

  /** The name `addBookmark` gives every job it adds. */
  const ReminderJobName: string := "bookmarkReminderQueue"

  /** Fifteen minutes, the default lead time of a reminder. */
  const DefaultLeadMs: int := 15 * 60000

  // -------------------------------------------------------------- bookmarks

  /** Some bookmark of `user` refers to `contest`. */
  predicate HasPair(bs: seq<Bookmark>, user: UserKey, contest: ContestId) {
    exists i :: 0 <= i < |bs| && bs[i].user == user && bs[i].contest == contest
  }

  /** `new Date(contest.start_time)` in milliseconds: a null start is the epoch. */
  function StartMs(c: Contest): int {
    if c.startTime.Some? then c.startTime.value else 0
  }

  /** The reminder instant: the custom one when the request supplies it, otherwise
      fifteen minutes before the contest starts. */
  function ReminderAt(c: Contest, customRemainder: Option<int>): (r: int)
    ensures customRemainder.Some? ==> r == customRemainder.value
    ensures customRemainder.None? ==> r + DefaultLeadMs == StartMs(c)
  {
    if customRemainder.Some? then customRemainder.value else StartMs(c) - DefaultLeadMs
  }

  /** The job `addBookmark` adds for a reminder `delay` ms ahead. */
  function ReminderJob(user: User, c: Contest, delay: int): Job {
    Job(ReminderJobName, ReminderData(user.emailId, c.name, c.url, c.startTime),
        JobOptions(delay, 3, true, false))
  }

  /** `addBookmark`. The checks run in order: 401 without a user id, 400 without a
      contest id, 404 for an unknown user, 404 for an unknown contest, 409 when the
      user already bookmarked the contest; a failed check changes nothing. Otherwise
      the bookmark is stored, and a job is added exactly when the reminder is still
      ahead, delayed by the time left until it. */
  method AddBookmark(userId: string, contestId: Option<ContestId>, customRemainder: Option<int>,
                     now: int, users: seq<User>, contests: ContestStore,
                     bs: seq<Bookmark>, q: Queue)
    returns (reply: Reply<(Bookmark, Contest)>, bs': seq<Bookmark>, q': Queue)
    ensures userId == "" ==> reply == Fail(401, "Unauthorized Request")
    ensures userId != "" && contestId.None? ==> reply == Fail(400, "Contest ID is required")
    ensures userId != "" && contestId.Some? && FindUser(users, userId).None? ==>
              reply == Fail(404, "User not found")
    ensures (userId != "" && contestId.Some? && FindUser(users, userId).Some?
             && FindById(contests, contestId.value).None?) ==> reply == Fail(404, "Contest not found")
    ensures (userId != "" && contestId.Some? && FindUser(users, userId).Some?
             && FindById(contests, contestId.value).Some?
             && HasPair(bs, FindUser(users, userId).value.key, contestId.value)) ==>
              reply == Fail(409, "Bookmark already exists")
    ensures reply.Fail? ==> bs' == bs && q' == q
    ensures reply.Ok? <==>
              userId != "" && contestId.Some? && FindUser(users, userId).Some?
              && FindById(contests, contestId.value).Some?
              && !HasPair(bs, FindUser(users, userId).value.key, contestId.value)
    ensures reply.Ok? ==>
              var user, c := FindUser(users, userId).value, FindById(contests, contestId.value).value;
              var b := Bookmark(user.key, contestId.value, now, Some(ReminderAt(c, customRemainder)));
              && reply == Ok(201, "Bookmark added successfully", (b, c))
              && bs' == bs + [b]
              && q'.name == q.name
              && q'.jobs == if ReminderAt(c, customRemainder) - now > 0
                            then q.jobs + [ReminderJob(user, c, ReminderAt(c, customRemainder) - now)]
                            else q.jobs
  {
    if userId == "" {
      return Fail(401, "Unauthorized Request"), bs, q;
    }
    if contestId.None? {
      return Fail(400, "Contest ID is required"), bs, q;
    }
    var user := FindUser(users, userId);
    if user.None? {
      return Fail(404, "User not found"), bs, q;
    }
    var contest := FindById(contests, contestId.value);
    if contest.None? {
      return Fail(404, "Contest not found"), bs, q;
    }
    if HasPair(bs, user.value.key, contestId.value) {
      return Fail(409, "Bookmark already exists"), bs, q;
    }
    var c := contest.value;
    var remainder := if customRemainder.Some? then customRemainder.value else StartMs(c) - DefaultLeadMs;
    var b := NewBookmark(user.value.key, contestId.value, None, Some(remainder), now);
    bs' := bs + [b];
    var delay := remainder - now;
    q' := q;
    if delay > 0 {
      q' := q'.(jobs := q'.jobs + [Job(ReminderJobName,
                                       ReminderData(user.value.emailId, c.name, c.url, c.startTime),
                                       JobOptions(delay, 3, true, false))]);
    }
    reply := Ok(201, "Bookmark added successfully", (b, c));
  }

  /** The check before `Bookmark.create` keeps (user, contest) pairs unique, although
      the schema does not. */
  lemma AddBookmarkKeepsPairsUnique(bs: seq<Bookmark>, b: Bookmark)
    requires !HasDuplicatePair(bs) && !HasPair(bs, b.user, b.contest)
    ensures !HasDuplicatePair(bs + [b])
  {
    var r := bs + [b];
    forall i, j | 0 <= i < j < |r| ensures !(r[i].user == r[j].user && r[i].contest == r[j].contest) {
      if j == |bs| {
        assert r[i] == bs[i];
      } else {
        assert r[i] == bs[i] && r[j] == bs[j];
      }
    }
  }

  /** A job's delay is the time left until the reminder, so it fires at the reminder
      instant; and the default reminder of a contest that has not started within the
      next fifteen minutes is always enqueued. */
  lemma ReminderFiresOnTime(user: User, c: Contest, customRemainder: Option<int>, now: int)
    ensures var j := ReminderJob(user, c, ReminderAt(c, customRemainder) - now);
            now + j.opts.delay == ReminderAt(c, customRemainder)
            && j.data.email == user.emailId && j.data.contestTitle == c.name
    ensures customRemainder.None? && StartMs(c) > now + DefaultLeadMs ==>
              ReminderAt(c, customRemainder) - now > 0
  {
  }

  // ----------------------------------------------------------------- remove

  /** Position of the first bookmark of `user` for `contest`, or -1. */
  function IndexOfPair(bs: seq<Bookmark>, user: UserKey, contest: ContestId): (r: int)
    ensures -1 <= r < |bs|
    ensures r >= 0 ==> bs[r].user == user && bs[r].contest == contest
    ensures r >= 0 ==> forall i :: 0 <= i < r ==> !(bs[i].user == user && bs[i].contest == contest)
    ensures r == -1 <==> !HasPair(bs, user, contest)
  {
    if bs == [] then -1
    else if bs[0].user == user && bs[0].contest == contest then 0
    else
      var k := IndexOfPair(bs[1..], user, contest);
      assert forall i :: 1 <= i < |bs| ==> bs[i] == bs[1..][i - 1];
      if k == -1 then -1 else k + 1
  }

  /** `Bookmark.findOneAndDelete({ contest, user })`: the first match is removed. */
  function DeletePair(bs: seq<Bookmark>, user: UserKey, contest: ContestId): seq<Bookmark> {
    var k := IndexOfPair(bs, user, contest);
    if k < 0 then bs else bs[..k] + bs[k + 1..]
  }

  /** `removeBookmark`: 401 without a user id, 404 for an unknown user, 404 when the
      user has no bookmark for the contest; otherwise that bookmark is deleted. The
      reminder queue is not touched: a job already added stays. */
  method RemoveBookmark(userId: string, contestId: ContestId, users: seq<User>, bs: seq<Bookmark>)
    returns (reply: Reply<()>, bs': seq<Bookmark>)
    ensures userId == "" ==> reply == Fail(401, "Unauthorized Request") && bs' == bs
    ensures userId != "" && FindUser(users, userId).None? ==> reply == Fail(404, "User not found") && bs' == bs
    ensures userId != "" && FindUser(users, userId).Some? ==>
              var key := FindUser(users, userId).value.key;
              && (HasPair(bs, key, contestId) ==>
                    reply == Ok(200, "Bookmark removed successfully", ()) && bs' == DeletePair(bs, key, contestId))
              && (!HasPair(bs, key, contestId) ==> reply == Fail(404, "Bookmark not found") && bs' == bs)
  {
    if userId == "" {
      return Fail(401, "Unauthorized Request"), bs;
    }
    var user := FindUser(users, userId);
    if user.None? {
      return Fail(404, "User not found"), bs;
    }
    var k := IndexOfPair(bs, user.value.key, contestId);
    if k < 0 {
      return Fail(404, "Bookmark not found"), bs;
    }
    bs' := bs[..k] + bs[k + 1..];
    reply := Ok(200, "Bookmark removed successfully", ());
  }

  /** Removing the bookmark just added restores the bookmark list. */
  lemma RemoveAfterAdd(bs: seq<Bookmark>, b: Bookmark)
    requires !HasPair(bs, b.user, b.contest)
    ensures DeletePair(bs + [b], b.user, b.contest) == bs
  {
    var r := bs + [b];
    assert r[|bs|] == b;
    assert r[..|bs|] == bs;
  }

  /** Deleting removes one bookmark, and when pairs are unique the pair is gone
      afterwards while every other bookmark stays, in order. */
  lemma DeletePairEffect(bs: seq<Bookmark>, user: UserKey, contest: ContestId)
    requires !HasDuplicatePair(bs) && HasPair(bs, user, contest)
    ensures var r := DeletePair(bs, user, contest);
      && |r| == |bs| - 1
      && !HasPair(r, user, contest)
      && (forall x :: x in bs && !(x.user == user && x.contest == contest) ==> x in r)
  {
    var k := IndexOfPair(bs, user, contest);
    var r := DeletePair(bs, user, contest);
    assert r == bs[..k] + bs[k + 1..];
    forall i | 0 <= i < |r| ensures !(r[i].user == user && r[i].contest == contest) {
      if i < k {
        assert r[i] == bs[i];
      } else {
        assert r[i] == bs[i + 1];
      }
    }
    forall x | x in bs && !(x.user == user && x.contest == contest) ensures x in r {
      var i :| 0 <= i < |bs| && bs[i] == x;
      if i < k {
        assert r[i] == x;
      } else {
        assert r[i - 1] == x;
      }
    }
  }

  // -------------------------------------------------------------------- list

  /** A listed bookmark with its contest populated (`None` when the contest is gone). */
  datatype Listed = Listed(bookmark: Bookmark, contest: Option<Contest>)

  datatype BookmarkPage = BookmarkPage(bookmarks: seq<Listed>, pagination: Pagination)

  /** `Bookmark.find({ user })`, in storage order. */
  function OwnBookmarks(bs: seq<Bookmark>, user: UserKey): (r: seq<Bookmark>)
    ensures forall i :: 0 <= i < |r| ==> r[i].user == user
    ensures forall b :: b in bs && b.user == user ==> b in r
    ensures forall b :: b in r ==> b in bs
  {
    if bs == [] then []
    else
      assert forall b :: b in bs ==> b == bs[0] || b in bs[1..];
      (if bs[0].user == user then [bs[0]] else []) + OwnBookmarks(bs[1..], user)
  }

  /** `sort({ createdAt: -1 })`: the newest bookmark first. */
  function NewestFirst(b: Bookmark): SortKey {
    IntKey(-b.createdAt)
  }

  function Populate(contests: ContestStore, bs: seq<Bookmark>): (r: seq<Listed>)
    ensures |r| == |bs|
    ensures forall i :: 0 <= i < |bs| ==> r[i] == Listed(bs[i], FindById(contests, bs[i].contest))
  {
    seq(|bs|, i requires 0 <= i < |bs| => Listed(bs[i], FindById(contests, bs[i].contest)))
  }

  /** `getBookmarks`: 401 without a user id, 404 for an unknown user; otherwise the
      page of the caller's bookmarks, newest first, with `skip = (page - 1) * limit`
      (page 1 and limit 1000 by default) and the page count. A negative skip makes the
      query reject. */
  method GetBookmarks(userId: string, page: Option<int>, limit: Option<int>, users: seq<User>,
                      contests: ContestStore, bs: seq<Bookmark>)
    returns (reply: Reply<BookmarkPage>)
    ensures userId == "" ==> reply == Fail(401, "Unauthorized Request")
    ensures userId != "" && FindUser(users, userId).None? ==> reply == Fail(404, "User not found")
    ensures userId != "" && FindUser(users, userId).Some? ==>
      var p := if page.Some? then page.value else 1;
      var l := if limit.Some? then limit.value else 1000;
      && (Skip(p, l) < 0 ==> reply.Fail?)
      && (Skip(p, l) >= 0 ==>
            reply == Ok(200, "Bookmarks retrieved successfully",
                        Listing(contests, bs, FindUser(users, userId).value.key, p, l)))
  {
    if userId == "" {
      return Fail(401, "Unauthorized Request");
    }
    var user := FindUser(users, userId);
    if user.None? {
      return Fail(404, "User not found");
    }
    var pageNumber := if page.Some? then page.value else 1;
    var limitNumber := if limit.Some? then limit.value else 1000;
    var skip := (pageNumber - 1) * limitNumber;
    if skip < 0 {
      return Fail(500, "skip must be non-negative");
    }
    reply := Ok(200, "Bookmarks retrieved successfully",
                Listing(contests, bs, user.value.key, pageNumber, limitNumber));
  }

  /** The page `getBookmarks` answers with: the caller's bookmarks sorted newest first,
      the window `skip = (page - 1) * limit`, and the count of all of them. */
  function Listing(contests: ContestStore, bs: seq<Bookmark>, key: UserKey, page: int, limit: int): BookmarkPage
    requires Skip(page, limit) >= 0
  {
    var own := OwnBookmarks(bs, key);
    BookmarkPage(Populate(contests, Window(SortBy(own, NewestFirst), Skip(page, limit), limit)),
                 Pagination(|own|, page, limit, TotalPages(|own|, limit)))
  }

  /** A listed page holds only the caller's bookmarks, newest first. */
  lemma ListedPageIsOwnAndNewestFirst(bs: seq<Bookmark>, key: UserKey, skip: nat, limit: int)
    ensures var w := Window(SortBy(OwnBookmarks(bs, key), NewestFirst), skip, limit);
      && (forall i :: 0 <= i < |w| ==> w[i].user == key && w[i] in bs)
      && (forall i, j :: 0 <= i < j < |w| ==> w[i].createdAt >= w[j].createdAt)
  {
    var own := OwnBookmarks(bs, key);
    var sorted := SortBy(own, NewestFirst);
    var w := Window(sorted, skip, limit);
    forall i | 0 <= i < |w| ensures w[i].user == key && w[i] in bs {
      assert w[i] == sorted[skip + i];
      assert sorted[skip + i] in multiset(sorted);
    }
    forall i, j | 0 <= i < j < |w| ensures w[i].createdAt >= w[j].createdAt {
      assert w[i] == sorted[skip + i] && w[j] == sorted[skip + j];
      assert KeyLe(NewestFirst(sorted[skip + i]), NewestFirst(sorted[skip + j]));
    }
  }
}
