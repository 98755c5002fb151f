/** The post-contest-discussion backfill: `extractContestName` reads a contest name out
    of a video title with `/^(Leetcode|CodeChef|Codeforces)\s+(.+?)\s*\|/i`, and
    `processVideos` copies the video's URL into the `pcdLink` of the contest with
    that name, if there is one. The YouTube request is replaced by its response. */
module PcdBackfill {
  import opened Text
  import opened Schema
  import opened Reconciler

  // ------------------------------------------------------- the title regex

  /** The `/i` flag folds case by upper-casing; outside ASCII nothing folds onto an
      ASCII letter, so folding ASCII letters is exact for these words. */
  function UpperAscii(c: char): char {
    if 'a' <= c <= 'z' then (c as int - 32) as char else c
  }

  /** `s` starts with `word`, compared case-insensitively. */
  predicate StartsWithFolded(s: string, word: string) {
    |word| <= |s| && forall i :: 0 <= i < |word| ==> UpperAscii(s[i]) == UpperAscii(word[i])
  }

  /** Length of the platform word `^(Leetcode|CodeChef|Codeforces)` matches, or 0. */
  function PlatformWord(s: string): (n: nat)
    ensures n == 0 || n == 8 || n == 10
    ensures n <= |s|
  {
    if StartsWithFolded(s, "Leetcode") then 8
    else if StartsWithFolded(s, "CodeChef") then 8
    else if StartsWithFolded(s, "Codeforces") then 10
    else 0
  }

  /** At most one alternative can match a title, so backtracking into the group
      never finds a second one. */
  lemma PlatformWordsExclusive(s: string)
    ensures StartsWithFolded(s, "Leetcode") ==> !StartsWithFolded(s, "CodeChef")
    ensures StartsWithFolded(s, "Leetcode") ==> !StartsWithFolded(s, "Codeforces")
    ensures StartsWithFolded(s, "CodeChef") ==> !StartsWithFolded(s, "Codeforces")
  {
    if StartsWithFolded(s, "Leetcode") {
      assert UpperAscii(s[0]) == 'L';
    }
    if StartsWithFolded(s, "CodeChef") {
      assert UpperAscii(s[4]) == 'C';
    }
  }

  /** `\s*\|` at position `p`: whitespace up to a bar. A bar is not whitespace, so the
      greedy `\s*` gives back nothing: the bar must follow its longest run. */
  predicate BarAt(s: string, p: nat)
    decreases |s| - p
  {
    p < |s| && (s[p] == '|' || (IsJsSpace(s[p]) && BarAt(s, p + 1)))
  }

  /** The lazy group `(.+?)` starting at `start`, tried with end `p`, `p + 1`, ...: the
      first end after which `\s*\|` matches, as long as no character taken is a line
      terminator. */
  function LazyEnd(s: string, start: nat, p: nat): (r: Option<nat>)
    requires start < p
    ensures r.Some? ==> p <= r.value <= |s| && BarAt(s, r.value)
    decreases |s| + 1 - p
  {
    if p > |s| || IsLineTerminator(s[p - 1]) then None
    else if BarAt(s, p) then Some(p)
    else LazyEnd(s, start, p + 1)
  }

  /** The greedy `\s+` after the platform word, tried with `n` whitespace characters,
      then `n - 1`, ... down to one. */
  function GreedySpaces(s: string, word: nat, n: nat): (r: Option<string>)
    requires word + n <= |s|
  {
    if n == 0 then None
    else match LazyEnd(s, word + n, word + n + 1)
      case Some(p) => Some(s[word + n..p])
      case None => GreedySpaces(s, word, n - 1)
  }

  /** The second capture group of the title regex, or `None` when it does not match. */
  function TitleCapture(title: string): Option<string> {
    var word := PlatformWord(title);
    if word == 0 then None
    else GreedySpaces(title, word, RunLength(title[word..], IsJsSpace))
  }

  /** `extractContestName`: the trimmed capture, or null. */
  function ExtractContestName(title: string): Option<string> {
    match TitleCapture(title)
    case None => None
    case Some(c) => Some(Trim(c))
  }

  // ---------------------------------------------------------- its properties

  lemma {:induction false} BarAtNoBar(s: string, p: nat)
    requires '|' !in s
    ensures !BarAt(s, p)
    decreases |s| - p
  {
    if p < |s| {
      assert s[p] in s;
      BarAtNoBar(s, p + 1);
    }
  }

  lemma {:induction false} LazyEndNoBar(s: string, start: nat, p: nat)
    requires start < p && '|' !in s
    ensures LazyEnd(s, start, p).None?
    decreases |s| + 1 - p
  {
    if p <= |s| {
      BarAtNoBar(s, p);
      if !IsLineTerminator(s[p - 1]) {
        LazyEndNoBar(s, start, p + 1);
      }
    }
  }

  lemma {:induction false} GreedySpacesNoBar(s: string, word: nat, n: nat)
    requires word + n <= |s| && '|' !in s
    ensures GreedySpaces(s, word, n).None?
  {
    if n > 0 {
      LazyEndNoBar(s, word + n, word + n + 1);
      GreedySpacesNoBar(s, word, n - 1);
    }
  }

  /** A title without a bar yields null, whatever it starts with. */
  lemma NoBarNoName(title: string)
    requires '|' !in title
    ensures ExtractContestName(title).None?
  {
    var word := PlatformWord(title);
    if word != 0 {
      GreedySpacesNoBar(title, word, RunLength(title[word..], IsJsSpace));
    }
  }

  /** A title that does not start with one of the platform words yields null. */
  lemma NoPlatformNoName(title: string)
    requires !StartsWithFolded(title, "Leetcode") && !StartsWithFolded(title, "CodeChef")
             && !StartsWithFolded(title, "Codeforces")
    ensures ExtractContestName(title).None?
  {
  }

  /** Before the whitespace that precedes the first bar, `\s*\|` cannot match. */
  lemma {:induction false} NoBarBefore(s: string, p: nat, w: nat, b: nat)
    requires p < w <= b < |s|
    requires forall i :: p <= i < b ==> s[i] != '|'
    requires !IsJsSpace(s[w - 1])
    ensures !BarAt(s, p)
    decreases w - p
  {
    if p + 1 < w {
      NoBarBefore(s, p + 1, w, b);
    }
  }

  /** From the start of that whitespace, `\s*\|` matches. */
  lemma {:induction false} BarAtRunStart(s: string, w: nat, b: nat)
    requires w <= b < |s| && s[b] == '|'
    requires forall i :: w <= i < b ==> IsJsSpace(s[i])
    ensures BarAt(s, w)
    decreases b - w
  {
    if w < b {
      BarAtRunStart(s, w + 1, b);
    }
  }

  /** The lazy group stops where the whitespace before the first bar begins. */
  lemma {:induction false} LazyEndAt(s: string, start: nat, p: nat, w: nat, b: nat)
    requires start < p <= w <= b < |s| && s[b] == '|'
    requires forall i :: start < i < b ==> s[i] != '|'
    requires forall i :: w <= i < b ==> IsJsSpace(s[i])
    requires !IsJsSpace(s[w - 1])
    requires forall i :: start <= i < w ==> !IsLineTerminator(s[i])
    ensures LazyEnd(s, start, p) == Some(w)
    decreases w - p
  {
    assert !IsLineTerminator(s[p - 1]);
    if p < w {
      NoBarBefore(s, p, w, b);
      LazyEndAt(s, start, p + 1, w, b);
    } else {
      BarAtRunStart(s, w, b);
    }
  }

  /** The whitespace run after the platform word ends at the first non-space `i0`. */
  lemma SpaceRun(title: string, word: nat, i0: nat)
    requires word < i0 < |title| && !IsJsSpace(title[i0])
    requires forall i :: word <= i < i0 ==> IsJsSpace(title[i])
    ensures RunLength(title[word..], IsJsSpace) == i0 - word
  {
    var t := title[word..];
    forall i | 0 <= i < i0 - word ensures IsJsSpace(t[i]) { assert t[i] == title[word + i]; }
    assert t[i0 - word] == title[i0];
    RunLengthOf(t, IsJsSpace, i0 - word);
  }

  /** The capture group, for a platform word of length `word` followed by whitespace,
      then `title[i..j]`, then whitespace up to the first bar at `b`. */
  lemma CaptureBetween(title: string, word: nat, i: nat, j: nat, b: nat)
    requires 0 < word < i < j <= b < |title| && title[b] == '|'
    requires forall k :: word <= k < b ==> title[k] != '|' && !IsLineTerminator(title[k])
    requires forall k :: word <= k < i ==> IsJsSpace(title[k])
    requires forall k :: j <= k < b ==> IsJsSpace(title[k])
    requires !IsJsSpace(title[i]) && !IsJsSpace(title[j - 1])
    ensures GreedySpaces(title, word, RunLength(title[word..], IsJsSpace)) == Some(title[i..j])
  {
    SpaceRun(title, word, i);
    LazyEndAt(title, i, i + 1, j, b);
    GreedySpacesAt(title, word, i - word, j);
  }

  /** One step of `GreedySpaces`: when the lazy group succeeds at once, its text is the
      capture. */
  lemma GreedySpacesAt(title: string, word: nat, n: nat, p: nat)
    requires 0 < n && word + n <= |title|
    requires LazyEnd(title, word + n, word + n + 1) == Some(p)
    ensures GreedySpaces(title, word, n) == Some(title[word + n..p])
  {
  }

  /** The name is the text between the platform word and the first bar with the
      whitespace around it removed ("Leetcode Weekly 300 | Solutions" gives
      "Weekly 300"): if `title[word..b]` is whitespace, then
      `title[i..j]` (non-space at both ends), then whitespace, and `title[b]` is the
      first bar, with no line break before it, the name is `title[i..j]`. */
  lemma NameBetweenWordAndBar(title: string, i: nat, j: nat, b: nat)
    requires var word := PlatformWord(title);
      && 0 < word < i < j <= b < |title| && title[b] == '|'
      && (forall k :: word <= k < b ==> title[k] != '|' && !IsLineTerminator(title[k]))
      && (forall k :: word <= k < i ==> IsJsSpace(title[k]))
      && (forall k :: j <= k < b ==> IsJsSpace(title[k]))
      && !IsJsSpace(title[i]) && !IsJsSpace(title[j - 1])
    ensures ExtractContestName(title) == Some(title[i..j])
  {
    CaptureBetween(title, PlatformWord(title), i, j, b);
    TrimNoopSlice(title, i, j);
  }

  // ------------------------------------------------------------ processVideos

  /** A playlist item: its snippet's title and video id. */
  datatype Video = Video(title: string, videoId: string)

  /** The playlist request: it failed, or returned a body whose `items` may be absent. */
  datatype PlaylistResponse = RequestFailed | Page(items: Option<seq<Video>>)

  /** `fetchPlaylistVideos`: the items, or `[]` when the request fails or the body has
      none. The request asks for `maxResults=5`, which the service honours. */
  function FetchPlaylistVideos(resp: PlaylistResponse): (vs: seq<Video>)
    ensures |vs| <= 5
    ensures resp.RequestFailed? || resp.items.None? ==> vs == []
    ensures resp.Page? && resp.items.Some? ==>
              |vs| <= |resp.items.value| && vs == resp.items.value[..|vs|] && (|vs| == 5 || vs == resp.items.value)
  {
    if resp.RequestFailed? || resp.items.None? then []
    else if |resp.items.value| <= 5 then resp.items.value
    else resp.items.value[..5]
  }

  const WatchUrl: string := "https://www.youtube.com/watch?v="

  /** The name `processVideos` looks up for a video, or `None` when it skips it (no
      name, or an empty one after trimming). */
  function LookupName(v: Video): Option<string> {
    var name := ExtractContestName(v.title);
    if name.None? || name.value == "" then None else name
  }

  /** One video: set the link on the contest so named, if there is one. */
  function Backfill(st: ContestStore, v: Video): ContestStore {
    var name := LookupName(v);
    if name.None? then st else SetPcdLinkByName(st, name.value, WatchUrl + v.videoId)
  }

  /** The loop over the videos, in list order. */
  function BackfillAll(st: ContestStore, vs: seq<Video>): ContestStore
    decreases |vs|
  {
    if vs == [] then st else Backfill(BackfillAll(st, vs[..|vs| - 1]), vs[|vs| - 1])
  }

  /** The names looked up in the store, in order: skipped videos cause no lookup. */
  function Lookups(vs: seq<Video>): seq<string> {
    if vs == [] then []
    else
      var name := LookupName(vs[|vs| - 1]);
      Lookups(vs[..|vs| - 1]) + (if name.Some? then [name.value] else [])
  }

  /** `processVideos(platform, playlistId)`: returns the new store and the names it
      looked up. */
  method ProcessVideos(resp: PlaylistResponse, st: ContestStore) returns (st': ContestStore, lookups: seq<string>)
    ensures st' == BackfillAll(st, FetchPlaylistVideos(resp))
    ensures lookups == Lookups(FetchPlaylistVideos(resp))
  {
    var videos := FetchPlaylistVideos(resp);
    st' := st;
    lookups := [];
    for i := 0 to |videos|
      invariant st' == BackfillAll(st, videos[..i])
      invariant lookups == Lookups(videos[..i])
    {
      var video := videos[i];
      BackfillStep(st, videos, i);
      var contestName := ExtractContestName(video.title);
      var videoUrl := WatchUrl + video.videoId;
      if contestName.None? || contestName.value == "" {
        continue;
      }
      lookups := lookups + [contestName.value];
      var contest := Find(st', contestName.value);
      if contest.Some? {
        st' := SetPcdLinkByName(st', contestName.value, videoUrl);
      }
    }
    assert videos[..|videos|] == videos;
  }

  /** One more video extends the fold and the lookups by that video alone. */
  lemma BackfillStep(st: ContestStore, vs: seq<Video>, i: nat)
    requires i < |vs|
    ensures BackfillAll(st, vs[..i + 1]) == Backfill(BackfillAll(st, vs[..i]), vs[i])
    ensures Lookups(vs[..i + 1])
            == Lookups(vs[..i]) + (if LookupName(vs[i]).Some? then [LookupName(vs[i]).value] else [])
  {
    assert vs[..i + 1][..i] == vs[..i] && vs[..i + 1][i] == vs[i];
  }

  /** The backfill never creates or removes a contest, changes no id, changes nothing
      but `pcdLink`, and keeps the store valid. */
  lemma {:induction false} BackfillOnlyLinks(st: ContestStore, vs: seq<Video>, name: string)
    requires Valid(st)
    ensures var r := BackfillAll(st, vs);
      && Valid(r) && |r.docs| == |st.docs| && r.nextId == st.nextId
      && (forall j :: 0 <= j < |st.docs| ==> r.docs[j].id == st.docs[j].id)
      && (Find(r, name).Some? <==> Find(st, name).Some?)
      && (Find(r, name).Some? ==> Find(r, name).value.(pcdLink := None) == Find(st, name).value.(pcdLink := None))
    decreases |vs|
  {
    if vs != [] {
      var prev := BackfillAll(st, vs[..|vs| - 1]);
      BackfillOnlyLinks(st, vs[..|vs| - 1], name);
      var v := vs[|vs| - 1];
      var n := LookupName(v);
      if n.Some? {
        SetPcdLinkByNameValid(prev, n.value, WatchUrl + v.videoId);
        SetPcdLinkByNameFind(prev, n.value, WatchUrl + v.videoId, name);
      }
    }
  }

  /** A name no video yields keeps its document unchanged. */
  lemma {:induction false} BackfillOthers(st: ContestStore, vs: seq<Video>, name: string)
    requires forall k :: 0 <= k < |vs| ==> LookupName(vs[k]) != Some(name)
    ensures Find(BackfillAll(st, vs), name) == Find(st, name)
    decreases |vs|
  {
    if vs != [] {
      var init := vs[..|vs| - 1];
      assert forall k :: 0 <= k < |init| ==> init[k] == vs[k];
      BackfillOthers(st, init, name);
      var v := vs[|vs| - 1];
      if LookupName(v).Some? {
        SetPcdLinkByNameFind(BackfillAll(st, init), LookupName(v).value, WatchUrl + v.videoId, name);
      }
    }
  }

  /** For a contest that exists, the last video naming it decides its link. */
  lemma {:induction false} BackfillLastWins(st: ContestStore, vs: seq<Video>, k: nat)
    requires k < |vs| && LookupName(vs[k]).Some?
    requires forall j :: k < j < |vs| ==> LookupName(vs[j]) != LookupName(vs[k])
    requires Find(st, LookupName(vs[k]).value).Some?
    requires Valid(st)
    ensures Find(BackfillAll(st, vs), LookupName(vs[k]).value).Some?
    ensures Find(BackfillAll(st, vs), LookupName(vs[k]).value).value.pcdLink == Some(WatchUrl + vs[k].videoId)
    decreases |vs|
  {
    var name := LookupName(vs[k]).value;
    var init := vs[..|vs| - 1];
    var v := vs[|vs| - 1];
    if k == |vs| - 1 {
      BackfillOnlyLinks(st, init, name);
      SetPcdLinkByNameFind(BackfillAll(st, init), name, WatchUrl + v.videoId, name);
    } else {
      assert init[k] == vs[k];
      assert forall j :: k < j < |init| ==> init[j] == vs[j];
      BackfillLastWins(st, init, k);
      assert LookupName(v) != Some(name);
      if LookupName(v).Some? {
        SetPcdLinkByNameFind(BackfillAll(st, init), LookupName(v).value, WatchUrl + v.videoId, name);
      }
    }
  }

  /** A failed request, or a body without items, changes nothing and looks nothing up. */
  lemma FailedFetchChangesNothing(resp: PlaylistResponse, st: ContestStore)
    requires resp.RequestFailed? || resp.items.None?
    ensures BackfillAll(st, FetchPlaylistVideos(resp)) == st
    ensures Lookups(FetchPlaylistVideos(resp)) == []
  {
  }

  /** At most five store updates happen per call. */
  lemma AtMostFiveLookups(resp: PlaylistResponse)
    ensures |Lookups(FetchPlaylistVideos(resp))| <= 5
  {
    LookupsBound(FetchPlaylistVideos(resp));
  }

  lemma {:induction false} LookupsBound(vs: seq<Video>)
    ensures |Lookups(vs)| <= |vs|
  {
    if vs != [] {
      LookupsBound(vs[..|vs| - 1]);
    }
  }
}
