/** The three document schemas of the server: Contest, Bookmark and User, with the
    constraints the schemas declare (required, enum, unique, trim, defaults). */
module Schema {
  import opened Text

  type ContestId = nat
  type UserKey = nat

  /** The `platform` enum of the Contest schema. */
  const Platforms: seq<string> := ["Codeforces", "Codechef", "Leetcode", "Atcoder", "HackerRank", "HackerEarth"]

  /** A stored contest. `startTime` is `None` when the stored value is null; the
      adapters can write null (see Adapters). `pcdLink` is optional. */
  datatype Contest = Contest(
    name: string,
    platform: string,
    url: string,
    startTime: Option<int>,
    duration: string,
    pcdLink: Option<string>)

  /** Mongoose's `required` rejects a missing value and, for strings, the empty string. */
  predicate Present(s: string) { s != "" }

  /** What the Contest schema's validators accept (name, platform, url, duration
      required; platform in the enum). */
  predicate ContestValid(c: Contest) {
    Present(c.name) && c.platform in Platforms && Present(c.url) && Present(c.duration)
  }

  /** A contest document built through the schema: required fields and the enum are
      checked, and an omitted start time defaults to the creation time. */
  function NewContest(name: string, platform: string, url: string, startTime: Option<int>,
                      duration: string, pcdLink: Option<string>, now: int): (r: Option<Contest>)
    ensures r.Some? <==> Present(name) && platform in Platforms && Present(url) && Present(duration)
    ensures r.Some? ==> ContestValid(r.value) && r.value.name == name && r.value.pcdLink == pcdLink
    ensures r.Some? ==> r.value.platform == platform && r.value.url == url && r.value.duration == duration
    ensures r.Some? ==> r.value.startTime == Some(if startTime.Some? then startTime.value else now)
  {
    if Present(name) && platform in Platforms && Present(url) && Present(duration) then
      Some(Contest(name, platform, url, Some(match startTime case Some(t) => t case None => now),
                   duration, pcdLink))
    else None
  }

  /** `name` is unique across contests. */
  predicate UniqueContestNames(cs: seq<Contest>) {
    forall i, j :: 0 <= i < j < |cs| ==> cs[i].name != cs[j].name
  }

  datatype Role = UserRole | AdminRole | ModeratorRole

  /** The `role` enum. */
  function ParseRole(s: string): (r: Option<Role>)
    ensures r.Some? <==> s in ["user", "admin", "moderator"]
    ensures r == Some(AdminRole) <==> s == "admin"
  {
    if s == "user" then Some(UserRole)
    else if s == "admin" then Some(AdminRole)
    else if s == "moderator" then Some(ModeratorRole)
    else None
  }

  /** A user; `key` stands for the document's `_id`, `userId` for the identity
      provider's id. */
  datatype User = User(key: UserKey, userId: string, emailId: string, role: Role, avatar: Option<string>)

  /** A user document built through the schema: the e-mail is trimmed before the
      `required` check, the role defaults to "user" and must be in the enum. */
  function NewUser(key: UserKey, userId: string, emailId: string, role: Option<string>,
                   avatar: Option<string>): (r: Option<User>)
    ensures r.Some? <==> Present(userId) && Present(Trim(emailId))
                         && (role.Some? ==> ParseRole(role.value).Some?)
    ensures r.Some? ==> r.value.key == key && r.value.userId == userId
    ensures r.Some? ==> r.value.emailId == Trim(emailId) && r.value.avatar == avatar
    ensures r.Some? && role.None? ==> r.value.role == UserRole
    ensures r.Some? && role.Some? ==> Some(r.value.role) == ParseRole(role.value)
  {
    var email := Trim(emailId);
    if !Present(userId) || !Present(email) then None
    else match role
      case None => Some(User(key, userId, email, UserRole, avatar))
      case Some(s) =>
        match ParseRole(s)
        case None => None
        case Some(rl) => Some(User(key, userId, email, rl, avatar))
  }

  /** `userId` and `emailId` are unique across users. */
  predicate UniqueUsers(us: seq<User>) {
    forall i, j :: 0 <= i < j < |us| ==>
      us[i].userId != us[j].userId && us[i].emailId != us[j].emailId && us[i].key != us[j].key
  }

  /** A bookmark: required references to a user and a contest, a creation time and an
      optional reminder instant. */
  datatype Bookmark = Bookmark(user: UserKey, contest: ContestId, createdAt: int, remainder: Option<int>)

  /** A bookmark document built through the schema: `createdAt` defaults to now. */
  function NewBookmark(user: UserKey, contest: ContestId, createdAt: Option<int>,
                       remainder: Option<int>, now: int): (r: Bookmark)
    ensures r.user == user && r.contest == contest && r.remainder == remainder
    ensures r.createdAt == if createdAt.Some? then createdAt.value else now
  {
    Bookmark(user, contest, match createdAt case Some(t) => t case None => now, remainder)
  }

  /** The bookmark schema declares no uniqueness on (user, contest); a repeated pair
      is a well-formed set of documents, and only the controller's lookup keeps pairs
      apart (see BookmarkController.AddBookmarkKeepsPairsUnique). */
  predicate HasDuplicatePair(bs: seq<Bookmark>) {
    exists i, j :: 0 <= i < j < |bs| && bs[i].user == bs[j].user && bs[i].contest == bs[j].contest
  }
}
