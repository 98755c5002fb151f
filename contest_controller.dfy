/** The contest handlers. The four that change the collection (create, update, delete,
    add a discussion link) first require an authenticated user (401) who is an admin
    (403); reading one contest or a page of contests needs no user. A request without
    an authenticated user id is modelled with `userId == ""`, and a missing or empty
    text field of the body with `""`. */
module ContestController {
  import opened Text
  import opened Schema
  import opened Reconciler
  import opened Query

  /** `user && user.role === "admin"` for `User.findOne({ userId })`. */
  predicate IsAdmin(users: seq<User>, userId: string) {
    FindUser(users, userId).Some? && FindUser(users, userId).value.role == AdminRole
  }

  /** The gate of the mutating handlers: `Some` failure, or `None` to go on. */
  function AdminGate<T>(users: seq<User>, userId: string): (r: Option<Reply<T>>)
    ensures r.None? <==> userId != "" && IsAdmin(users, userId)
    ensures userId == "" ==> r == Some(Fail(401, "Unauthorized Request"))
    ensures userId != "" && !IsAdmin(users, userId) ==> r == Some(Fail(403, "Admin access required"))
  {
    if userId == "" then Some(Fail(401, "Unauthorized Request"))
    else if !IsAdmin(users, userId) then Some(Fail(403, "Admin access required"))
    else None
  }

  // ------------------------------------------------------------------ create

  /** `createContest`: after the gate, 409 when name, platform, url, start time or
      duration is missing; otherwise an upsert by name that sets all six fields (a
      `pcdLink` left out of the body is not part of the `$set`), answering with the
      document written. No other name's document changes. */
  method CreateContest(userId: string, name: string, platform: string, url: string,
                       startTime: Option<int>, duration: string, pcdLink: PcdField,
                       users: seq<User>, st: ContestStore)
    returns (reply: Reply<Contest>, st': ContestStore)
    ensures AdminGate<Contest>(users, userId).Some? ==> reply == AdminGate<Contest>(users, userId).value && st' == st
    ensures AdminGate<Contest>(users, userId).None?
            && (name == "" || platform == "" || url == "" || startTime.None? || duration == "") ==>
              reply == Fail(409, "Required fields are missing") && st' == st
    ensures reply.Ok? <==>
              AdminGate<Contest>(users, userId).None?
              && name != "" && platform != "" && url != "" && startTime.Some? && duration != ""
    ensures reply.Ok? ==>
              var u := SetFields(name, platform, url, startTime, duration, pcdLink);
              && st' == Upsert(st, u)
              && reply == Ok(201, "Contest created successfully", Written(Find(st, name), u))
    ensures reply.Ok? ==> forall other :: other != name ==> Find(st', other) == Find(st, other)
    ensures Valid(st) ==> Valid(st')
    ensures Valid(st) && reply.Ok? ==> Find(st', name) == Some(reply.data)
  {
    var gate := AdminGate<Contest>(users, userId);
    if gate.Some? {
      return gate.value, st;
    }
    if name == "" || platform == "" || url == "" || startTime.None? || duration == "" {
      return Fail(409, "Required fields are missing"), st;
    }
    var u := SetFields(name, platform, url, startTime, duration, pcdLink);
    st' := Upsert(st, u);
    forall other | other != name ensures Find(st', other) == Find(st, other) {
      UpsertOthers(st, u, other);
    }
    if Valid(st) {
      UpsertValid(st, u);
      UpsertFound(st, u);
    }
    reply := Ok(201, "Contest created successfully", Written(Find(st, name), u));
  }

  // ------------------------------------------------------------------ update

  /** The `updateData` object: each key present or not. */
  datatype Patch = Patch(name: Option<string>, platform: Option<string>, url: Option<string>,
                         startTime: Option<int>, duration: Option<string>, pcdLink: PcdField)

  /** The keys `updateContest` puts in `updateData`: the truthy fields of the body, and
      `pcdLink` whenever the body has it. */
  function UpdateData(name: string, platform: string, url: string, startTime: Option<int>,
                      duration: string, pcdLink: PcdField): Patch {
    Patch(if name != "" then Some(name) else None,
          if platform != "" then Some(platform) else None,
          if url != "" then Some(url) else None,
          startTime,
          if duration != "" then Some(duration) else None,
          pcdLink)
  }

  /** `findByIdAndUpdate(id, updateData)`: the keys present overwrite the document. */
  function ApplyPatch(c: Contest, p: Patch): Contest {
    Contest(if p.name.Some? then p.name.value else c.name,
            if p.platform.Some? then p.platform.value else c.platform,
            if p.url.Some? then p.url.value else c.url,
            if p.startTime.Some? then p.startTime else c.startTime,
            if p.duration.Some? then p.duration.value else c.duration,
            ApplyPcd(c.pcdLink, p.pcdLink))
  }

  /** Replace the fields of the document at position `i`, keeping its id. */
  function RewriteAt(st: ContestStore, i: nat, c: Contest): (r: ContestStore)
    requires i < |st.docs|
    ensures |r.docs| == |st.docs| && r.nextId == st.nextId
    ensures r.docs[i] == ContestDoc(st.docs[i].id, c)
    ensures forall j :: 0 <= j < |st.docs| && j != i ==> r.docs[j] == st.docs[j]
  {
    st.(docs := st.docs[i := ContestDoc(st.docs[i].id, c)])
  }

  /** Two document lists with the same ids position by position agree on every lookup
      by id. */
  lemma {:induction false} SameIdsSameIndex(a: seq<ContestDoc>, b: seq<ContestDoc>, id: ContestId)
    requires |a| == |b| && forall j :: 0 <= j < |a| ==> a[j].id == b[j].id
    ensures IndexOfId(a, id) == IndexOfId(b, id)
  {
    if a != [] {
      SameIdsSameIndex(a[1..], b[1..], id);
    }
  }

  /** After rewriting the document found by id, the lookup by id finds the new
      fields; the store stays valid when the new name is the old one or is held by no
      document. */
  lemma RewriteFound(st: ContestStore, id: ContestId, c: Contest)
    requires IndexOfId(st.docs, id) >= 0
    ensures var i := IndexOfId(st.docs, id);
      FindById(RewriteAt(st, i, c), id) == Some(c)
    ensures var i := IndexOfId(st.docs, id);
      Valid(st) && (c.name == st.docs[i].contest.name || Find(st, c.name).None?) ==> Valid(RewriteAt(st, i, c))
  {
    var i := IndexOfId(st.docs, id);
    var r := RewriteAt(st, i, c);
    SameIdsSameIndex(r.docs, st.docs, id);
    if Valid(st) && (c.name == st.docs[i].contest.name || Find(st, c.name).None?) {
      var cs, rs := Contests(st), Contests(r);
      forall a, b | 0 <= a < b < |rs| ensures rs[a].name != rs[b].name {
        if a != i && b != i {
          assert rs[a] == cs[a] && rs[b] == cs[b];
        } else if a == i {
          assert rs[b] == cs[b];
        } else {
          assert rs[a] == cs[a];
        }
      }
    }
  }

  /** `updateContest`: after the gate, 400 without a contest id and 404 for an unknown
      one. Truthy name, platform, url, start time and duration are copied, and
      `pcdLink` whenever the body has the key (null clears it). Renaming to a name
      another contest holds answers 409 and changes nothing. Only the document with
      that id changes, and the store stays valid. */
  method UpdateContest(userId: string, contestId: Option<ContestId>, name: string, platform: string,
                       url: string, startTime: Option<int>, duration: string, pcdLink: PcdField,
                       users: seq<User>, st: ContestStore)
    returns (reply: Reply<Contest>, st': ContestStore)
    ensures AdminGate<Contest>(users, userId).Some? ==> reply == AdminGate<Contest>(users, userId).value && st' == st
    ensures AdminGate<Contest>(users, userId).None? && contestId.None? ==>
              reply == Fail(400, "Contest ID is required") && st' == st
    ensures (AdminGate<Contest>(users, userId).None? && contestId.Some?
             && FindById(st, contestId.value).None?) ==> reply == Fail(404, "Contest not found") && st' == st
    ensures (AdminGate<Contest>(users, userId).None? && contestId.Some? && FindById(st, contestId.value).Some?
             && name != "" && name != FindById(st, contestId.value).value.name && Find(st, name).Some?) ==>
              reply == Fail(409, "Contest with this name already exists") && st' == st
    ensures reply.Ok? <==>
              AdminGate<Contest>(users, userId).None? && contestId.Some? && FindById(st, contestId.value).Some?
              && !(name != "" && name != FindById(st, contestId.value).value.name && Find(st, name).Some?)
    ensures reply.Ok? ==>
              var id := contestId.value;
              var c := FindById(st, id).value;
              var c' := Contest(if name != "" then name else c.name,
                                if platform != "" then platform else c.platform,
                                if url != "" then url else c.url,
                                if startTime.Some? then startTime else c.startTime,
                                if duration != "" then duration else c.duration,
                                ApplyPcd(c.pcdLink, pcdLink));
              && reply == Ok(200, "Contest updated successfully", c')
              && FindById(st', id) == Some(c')
              && |st'.docs| == |st.docs| && st'.nextId == st.nextId
              && (forall j :: 0 <= j < |st.docs| && st.docs[j].id != id ==> st'.docs[j] == st.docs[j])
    ensures Valid(st) ==> Valid(st')
  {
    var gate := AdminGate<Contest>(users, userId);
    if gate.Some? {
      return gate.value, st;
    }
    if contestId.None? {
      return Fail(400, "Contest ID is required"), st;
    }
    var id := contestId.value;
    var i := IndexOfId(st.docs, id);
    if i < 0 {
      return Fail(404, "Contest not found"), st;
    }
    var c := st.docs[i].contest;
    var updateData := UpdateData(name, platform, url, startTime, duration, pcdLink);
    if name != "" && name != c.name && Find(st, name).Some? {
      return Fail(409, "Contest with this name already exists"), st;
    }
    var updated := ApplyPatch(c, updateData);
    st' := RewriteAt(st, i, updated);
    RewriteFound(st, id, updated);
    reply := Ok(200, "Contest updated successfully", updated);
  }

  // ------------------------------------------------------------------ delete

  /** `findByIdAndDelete(id)`: the document at position `i` is removed. */
  function RemoveAt(st: ContestStore, i: nat): (r: ContestStore)
    requires i < |st.docs|
    ensures |r.docs| == |st.docs| - 1 && r.nextId == st.nextId
    ensures forall k :: 0 <= k < |r.docs| ==> r.docs[k] == st.docs[if k < i then k else k + 1]
  {
    st.(docs := st.docs[..i] + st.docs[i + 1..])
  }

  /** Removing a document from a valid store leaves it valid. */
  lemma RemoveAtKeepsValid(st: ContestStore, i: nat)
    requires Valid(st) && i < |st.docs|
    ensures Valid(RemoveAt(st, i))
  {
    var r := RemoveAt(st, i);
    var cs, rs := Contests(st), Contests(r);
    forall a, b | 0 <= a < b < |rs| ensures rs[a].name != rs[b].name {
      var a', b' := if a < i then a else a + 1, if b < i then b else b + 1;
      assert rs[a] == cs[a'] && rs[b] == cs[b'];
    }
    forall a, b | 0 <= a < b < |r.docs| ensures r.docs[a].id != r.docs[b].id {
      var a', b' := if a < i then a else a + 1, if b < i then b else b + 1;
      assert r.docs[a] == st.docs[a'] && r.docs[b] == st.docs[b'];
    }
  }

  /** In a valid store, no document but the removed one carries its id. */
  lemma RemoveAtDropsId(st: ContestStore, i: nat)
    requires Valid(st) && i < |st.docs|
    ensures var r := RemoveAt(st, i);
      forall k :: 0 <= k < |r.docs| ==> r.docs[k].id != st.docs[i].id
  {
    var r := RemoveAt(st, i);
    forall k | 0 <= k < |r.docs| ensures r.docs[k].id != st.docs[i].id {
      var k' := if k < i then k else k + 1;
      assert r.docs[k] == st.docs[k'];
    }
  }

  /** In a valid store, removing the document with an id leaves no document with that
      id, and the store stays valid. */
  lemma RemoveAtValid(st: ContestStore, id: ContestId)
    requires Valid(st) && IndexOfId(st.docs, id) >= 0
    ensures var r := RemoveAt(st, IndexOfId(st.docs, id));
      FindById(r, id).None? && Valid(r)
  {
    var i := IndexOfId(st.docs, id);
    RemoveAtKeepsValid(st, i);
    RemoveAtDropsId(st, i);
  }

  /** `deleteContest`: after the gate, 400 without a contest id and 404 for an unknown
      one; otherwise exactly the document with that id is removed. */
  method DeleteContest(userId: string, contestId: Option<ContestId>, users: seq<User>, st: ContestStore)
    returns (reply: Reply<()>, st': ContestStore)
    ensures AdminGate<()>(users, userId).Some? ==> reply == AdminGate<()>(users, userId).value && st' == st
    ensures AdminGate<()>(users, userId).None? && contestId.None? ==>
              reply == Fail(400, "Contest ID is required") && st' == st
    ensures (AdminGate<()>(users, userId).None? && contestId.Some? && FindById(st, contestId.value).None?) ==>
              reply == Fail(404, "Contest not found") && st' == st
    ensures reply.Ok? <==> AdminGate<()>(users, userId).None? && contestId.Some? && FindById(st, contestId.value).Some?
    ensures reply.Ok? ==>
              && reply == Ok(200, "Contest deleted successfully", ())
              && |st'.docs| == |st.docs| - 1
              && (forall d :: d in st.docs && d.id != contestId.value ==> d in st'.docs)
              && (forall d :: d in st'.docs ==> d in st.docs)
    ensures Valid(st) ==> Valid(st')
    ensures Valid(st) && reply.Ok? ==> FindById(st', contestId.value).None?
  {
    var gate := AdminGate<()>(users, userId);
    if gate.Some? {
      return gate.value, st;
    }
    if contestId.None? {
      return Fail(400, "Contest ID is required"), st;
    }
    var i := IndexOfId(st.docs, contestId.value);
    if i < 0 {
      return Fail(404, "Contest not found"), st;
    }
    st' := RemoveAt(st, i);
    forall d | d in st.docs && d.id != contestId.value ensures d in st'.docs {
      var j :| 0 <= j < |st.docs| && st.docs[j] == d;
      assert st'.docs[if j < i then j else j - 1] == d;
    }
    forall d | d in st'.docs ensures d in st.docs {
      var k :| 0 <= k < |st'.docs| && st'.docs[k] == d;
    }
    if Valid(st) {
      RemoveAtValid(st, contestId.value);
    }
    reply := Ok(200, "Contest deleted successfully", ());
  }

  // ---------------------------------------------------------------- pcd link

  /** `addPcdLink`: after the gate, 400 without a contest id, 409 for an empty link,
      then 404 for an unknown id; otherwise only the contest's `pcdLink` changes. */
  method AddPcdLink(userId: string, contestId: Option<ContestId>, pcdLink: string,
                    users: seq<User>, st: ContestStore)
    returns (reply: Reply<Contest>, st': ContestStore)
    ensures AdminGate<Contest>(users, userId).Some? ==> reply == AdminGate<Contest>(users, userId).value && st' == st
    ensures AdminGate<Contest>(users, userId).None? && contestId.None? ==>
              reply == Fail(400, "Contest ID is required") && st' == st
    ensures AdminGate<Contest>(users, userId).None? && contestId.Some? && pcdLink == "" ==>
              reply == Fail(409, "PCD link is required") && st' == st
    ensures (AdminGate<Contest>(users, userId).None? && contestId.Some? && pcdLink != ""
             && FindById(st, contestId.value).None?) ==> reply == Fail(404, "Contest not found") && st' == st
    ensures reply.Ok? <==>
              AdminGate<Contest>(users, userId).None? && contestId.Some? && pcdLink != ""
              && FindById(st, contestId.value).Some?
    ensures reply.Ok? ==>
              var c' := FindById(st, contestId.value).value.(pcdLink := Some(pcdLink));
              && reply == Ok(200, "PCD link added successfully", c')
              && FindById(st', contestId.value) == Some(c')
              && |st'.docs| == |st.docs|
              && (forall j :: 0 <= j < |st.docs| && st.docs[j].id != contestId.value ==> st'.docs[j] == st.docs[j])
    ensures Valid(st) ==> Valid(st')
  {
    var gate := AdminGate<Contest>(users, userId);
    if gate.Some? {
      return gate.value, st;
    }
    if contestId.None? {
      return Fail(400, "Contest ID is required"), st;
    }
    if pcdLink == "" {
      return Fail(409, "PCD link is required"), st;
    }
    var i := IndexOfId(st.docs, contestId.value);
    if i < 0 {
      return Fail(404, "Contest not found"), st;
    }
    var updated := st.docs[i].contest.(pcdLink := Some(pcdLink));
    st' := RewriteAt(st, i, updated);
    RewriteFound(st, contestId.value, updated);
    reply := Ok(200, "PCD link added successfully", updated);
  }

  // ------------------------------------------------------------------- reads

  /** `getContest`: 400 without a contest id, 404 for an unknown one, else the
      contest. */
  method GetContest(contestId: Option<ContestId>, st: ContestStore) returns (reply: Reply<Contest>)
    ensures contestId.None? ==> reply == Fail(400, "Contest ID is required")
    ensures contestId.Some? && FindById(st, contestId.value).None? ==> reply == Fail(404, "Contest not found")
    ensures contestId.Some? && FindById(st, contestId.value).Some? ==>
              reply == Ok(200, "Contest retrieved successfully", FindById(st, contestId.value).value)
  {
    if contestId.None? {
      return Fail(400, "Contest ID is required");
    }
    var contest := FindById(st, contestId.value);
    if contest.None? {
      return Fail(404, "Contest not found");
    }
    reply := Ok(200, "Contest retrieved successfully", contest.value);
  }

  /** The query filter of `getAllContests`: an exact platform when one is given, and
      inclusive bounds on the start time (a null start time meets no bound). */
  predicate MatchesFilter(c: Contest, platform: string, startAfter: Option<int>, startBefore: Option<int>) {
    (platform != "" ==> c.platform == platform)
    && (startAfter.Some? ==> c.startTime.Some? && c.startTime.value >= startAfter.value)
    && (startBefore.Some? ==> c.startTime.Some? && c.startTime.value <= startBefore.value)
  }

  /** `Contest.find(filter)`, in storage order. */
  function Filtered(docs: seq<ContestDoc>, platform: string, startAfter: Option<int>,
                    startBefore: Option<int>): (r: seq<ContestDoc>)
    ensures forall d :: d in r <==> d in docs && MatchesFilter(d.contest, platform, startAfter, startBefore)
  {
    if docs == [] then []
    else
      assert forall d :: d in docs <==> d == docs[0] || d in docs[1..];
      (if MatchesFilter(docs[0].contest, platform, startAfter, startBefore) then [docs[0]] else [])
      + Filtered(docs[1..], platform, startAfter, startBefore)
  }

  /** `sort({ start_time: 1 })`: earliest first, null start times before all others. */
  function EarliestFirst(d: ContestDoc): SortKey {
    if d.contest.startTime.Some? then IntKey(d.contest.startTime.value) else NullKey
  }

  datatype ContestPage = ContestPage(contests: seq<ContestDoc>, pagination: Pagination)

  /** The page `getAllContests` answers with. */
  function ContestListing(st: ContestStore, page: int, limit: int, platform: string,
                          startAfter: Option<int>, startBefore: Option<int>): ContestPage
    requires Skip(page, limit) >= 0
  {
    var matching := Filtered(st.docs, platform, startAfter, startBefore);
    ContestPage(Window(SortBy(matching, EarliestFirst), Skip(page, limit), limit),
                Pagination(|matching|, page, limit, TotalPages(|matching|, limit)))
  }

  /** `getAllContests`: page 1 and limit 100 by default; a negative skip makes the
      query reject. */
  method GetAllContests(page: Option<int>, limit: Option<int>, platform: string,
                        startAfter: Option<int>, startBefore: Option<int>, st: ContestStore)
    returns (reply: Reply<ContestPage>)
    ensures var p := if page.Some? then page.value else 1;
            var l := if limit.Some? then limit.value else 100;
            && (Skip(p, l) < 0 ==> reply.Fail?)
            && (Skip(p, l) >= 0 ==>
                  reply == Ok(200, "Contests retrieved successfully",
                              ContestListing(st, p, l, platform, startAfter, startBefore)))
  {
    var pageNumber := if page.Some? then page.value else 1;
    var limitNumber := if limit.Some? then limit.value else 100;
    var skip := (pageNumber - 1) * limitNumber;
    if skip < 0 {
      return Fail(500, "skip must be non-negative");
    }
    reply := Ok(200, "Contests retrieved successfully",
                ContestListing(st, pageNumber, limitNumber, platform, startAfter, startBefore));
  }

  /** Every listed contest meets the filter, and the page is in start-time order. */
  lemma ListingMatchesAndIsOrdered(st: ContestStore, page: int, limit: int, platform: string,
                                   startAfter: Option<int>, startBefore: Option<int>)
    requires Skip(page, limit) >= 0
    ensures var cs := ContestListing(st, page, limit, platform, startAfter, startBefore).contests;
      && (forall i :: 0 <= i < |cs| ==> cs[i] in st.docs
                                         && MatchesFilter(cs[i].contest, platform, startAfter, startBefore))
      && (forall i, j :: 0 <= i < j < |cs| ==> KeyLe(EarliestFirst(cs[i]), EarliestFirst(cs[j])))
  {
    var matching := Filtered(st.docs, platform, startAfter, startBefore);
    var sorted := SortBy(matching, EarliestFirst);
    var skip: nat := Skip(page, limit);
    var cs := Window(sorted, skip, limit);
    WindowSorted(sorted, EarliestFirst, skip, limit);
    WindowFrom(sorted, skip, limit);
    forall i | 0 <= i < |cs|
      ensures cs[i] in st.docs && MatchesFilter(cs[i].contest, platform, startAfter, startBefore)
    {
      assert cs[i] in multiset(sorted);
    }
  }

  /** Each page request sorts on its own, and MongoDB fixes no order among equal
      start times. When no two matching contests share a start time, every order a
      request can see is the model's, so pages 1 to `totalPages` together return
      every matching contest exactly once, earliest first. */
  lemma ListingComplete(st: ContestStore, limit: nat, platform: string,
                        startAfter: Option<int>, startBefore: Option<int>, orders: seq<seq<ContestDoc>>)
    requires limit > 0
    requires var matching := Filtered(st.docs, platform, startAfter, startBefore);
      && KeysDistinct(matching, EarliestFirst)
      && |orders| == TotalPages(|matching|, limit).value
      && forall i :: 0 <= i < |orders| ==>
           multiset(orders[i]) == multiset(matching) && SortedBy(orders[i], EarliestFirst)
    ensures var matching := Filtered(st.docs, platform, startAfter, startBefore);
      ServedPages(orders, limit) == SortBy(matching, EarliestFirst)
    ensures forall d :: d in st.docs && MatchesFilter(d.contest, platform, startAfter, startBefore)
                        ==> d in ServedPages(orders, limit)
  {
    var matching := Filtered(st.docs, platform, startAfter, startBefore);
    ServedPagesSorted(orders, matching, EarliestFirst, limit);
    forall d | d in st.docs && MatchesFilter(d.contest, platform, startAfter, startBefore)
      ensures d in ServedPages(orders, limit)
    {
      assert d in multiset(SortBy(matching, EarliestFirst));
    }
  }
}
