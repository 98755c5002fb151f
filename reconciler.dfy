/** The contest collection as the server uses it: documents with an id, looked up by
    `name` or by id, and the `findOneAndUpdate({ name }, { $set: ... }, { upsert: true })`
    call through which the adapters and `createContest` write. An upsert of this kind
    runs no schema validators. */
module Reconciler {
  import opened Text
  import opened Schema

  /** A stored document: its `_id` and its fields. */
  datatype ContestDoc = ContestDoc(id: ContestId, contest: Contest)

  /** The collection in insertion order; `nextId` is the id the next insert receives. */
  datatype ContestStore = ContestStore(docs: seq<ContestDoc>, nextId: nat)

  const EmptyStore: ContestStore := ContestStore([], 0)

  /** The contests of the store, in insertion order. */
  function Contests(st: ContestStore): (cs: seq<Contest>)
    ensures |cs| == |st.docs|
    ensures forall i :: 0 <= i < |cs| ==> cs[i] == st.docs[i].contest
  {
    seq(|st.docs|, i requires 0 <= i < |st.docs| => st.docs[i].contest)
  }

  /** Ids are distinct and below `nextId`, and `name` is unique (the schema's
      unique index). */
  predicate Valid(st: ContestStore) {
    (forall i :: 0 <= i < |st.docs| ==> st.docs[i].id < st.nextId)
    && (forall i, j :: 0 <= i < j < |st.docs| ==> st.docs[i].id != st.docs[j].id)
    && UniqueContestNames(Contests(st))
  }

  /** Position of the document called `name`, or -1. */
  function IndexOfName(docs: seq<ContestDoc>, name: string): (r: int)
    ensures -1 <= r < |docs|
    ensures r >= 0 ==> docs[r].contest.name == name
    ensures r >= 0 ==> forall i :: 0 <= i < r ==> docs[i].contest.name != name
    ensures r == -1 <==> forall i :: 0 <= i < |docs| ==> docs[i].contest.name != name
  {
    if docs == [] then -1
    else if docs[0].contest.name == name then 0
    else var k := IndexOfName(docs[1..], name); if k == -1 then -1 else k + 1
  }

  /** The first document called `name` is the one `IndexOfName` reports. */
  lemma {:induction false} IndexOfNameAt(docs: seq<ContestDoc>, name: string, k: nat)
    requires k < |docs| && docs[k].contest.name == name
    requires forall j :: 0 <= j < k ==> docs[j].contest.name != name
    ensures IndexOfName(docs, name) == k
  {
    if k > 0 {
      IndexOfNameAt(docs[1..], name, k - 1);
    }
  }

  /** Position of the document with id `id`, or -1. */
  function IndexOfId(docs: seq<ContestDoc>, id: ContestId): (r: int)
    ensures -1 <= r < |docs|
    ensures r >= 0 ==> docs[r].id == id
    ensures r == -1 <==> forall i :: 0 <= i < |docs| ==> docs[i].id != id
  {
    if docs == [] then -1
    else if docs[0].id == id then 0
    else var k := IndexOfId(docs[1..], id); if k == -1 then -1 else k + 1
  }

  /** `Contest.findOne({ name })`. */
  function Find(st: ContestStore, name: string): Option<Contest> {
    var i := IndexOfName(st.docs, name);
    if i < 0 then None else Some(st.docs[i].contest)
  }

  /** `Contest.findById(id)`. */
  function FindById(st: ContestStore, id: ContestId): Option<Contest> {
    var i := IndexOfId(st.docs, id);
    if i < 0 then None else Some(st.docs[i].contest)
  }

  /** In a valid store, the document at position `i` is the one `Find` returns for
      its name. */
  lemma FindAt(st: ContestStore, i: nat)
    requires Valid(st) && i < |st.docs|
    ensures Find(st, st.docs[i].contest.name) == Some(st.docs[i].contest)
    ensures IndexOfName(st.docs, st.docs[i].contest.name) == i
  {
    var k := IndexOfName(st.docs, st.docs[i].contest.name);
    var cs := Contests(st);
    if k < i {
      assert false;
    }
  }

  // ------------------------------------------------------------------ $set

  /** The `pcdLink` key of a `$set`: absent (undefined keys are dropped from an
      update), null, or a string. */
  datatype PcdField = Keep | Clear | SetTo(link: string)

  /** The document a `$set` describes; every field but `pcdLink` is always present. */
  datatype SetFields = SetFields(
    name: string,
    platform: string,
    url: string,
    startTime: Option<int>,
    duration: string,
    pcdLink: PcdField)

  function ApplyPcd(prev: Option<string>, f: PcdField): Option<string> {
    match f
    case Keep => prev
    case Clear => None
    case SetTo(link) => Some(link)
  }

  /** The contest a `$set` of `u` leaves behind, over the previous document (`None`
      when the upsert inserts). */
  function Written(prev: Option<Contest>, u: SetFields): Contest {
    Contest(u.name, u.platform, u.url, u.startTime, u.duration,
            ApplyPcd(if prev.Some? then prev.value.pcdLink else None, u.pcdLink))
  }

  /** `findOneAndUpdate({ name: u.name }, { $set: u }, { upsert: true })`: the matching
      document is rewritten in place under its id, or a new one is appended. */
  function Upsert(st: ContestStore, u: SetFields): ContestStore {
    var i := IndexOfName(st.docs, u.name);
    if i >= 0 then
      ContestStore(st.docs[i := ContestDoc(st.docs[i].id, Written(Some(st.docs[i].contest), u))], st.nextId)
    else
      ContestStore(st.docs + [ContestDoc(st.nextId, Written(None, u))], st.nextId + 1)
  }

  /** After the upsert the name holds exactly the `$set` fields, with `pcdLink` kept
      from before when the update does not mention it. */
  lemma UpsertFound(st: ContestStore, u: SetFields)
    requires Valid(st)
    ensures Find(Upsert(st, u), u.name) == Some(Written(Find(st, u.name), u))
    ensures u.pcdLink.Keep? && Find(st, u.name).Some? ==>
              Find(Upsert(st, u), u.name).value.pcdLink == Find(st, u.name).value.pcdLink
  {
    var r := Upsert(st, u);
    var i := IndexOfName(st.docs, u.name);
    if i >= 0 {
      forall j | 0 <= j < i ensures r.docs[j].contest.name != u.name {
        assert r.docs[j] == st.docs[j];
      }
      IndexOfNameAt(r.docs, u.name, i);
    } else {
      forall j | 0 <= j < |st.docs| ensures r.docs[j].contest.name != u.name {
        assert r.docs[j] == st.docs[j];
      }
      IndexOfNameAt(r.docs, u.name, |st.docs|);
    }
  }

  /** Every other name is looked up as before. */
  lemma UpsertOthers(st: ContestStore, u: SetFields, name: string)
    requires name != u.name
    ensures Find(Upsert(st, u), name) == Find(st, name)
  {
    var r := Upsert(st, u);
    var i := IndexOfName(st.docs, u.name);
    var k := IndexOfName(st.docs, name);
    if k >= 0 {
      forall j | 0 <= j <= k ensures r.docs[j].contest.name == st.docs[j].contest.name {}
      IndexOfNameAt(r.docs, name, k);
      assert r.docs[k] == st.docs[k];
    } else {
      assert forall j :: 0 <= j < |r.docs| ==> r.docs[j].contest.name != name;
    }
  }

  /** An upsert inserts exactly when the name is absent, keeps every existing id at
      its position and keeps the store valid. */
  lemma UpsertValid(st: ContestStore, u: SetFields)
    requires Valid(st)
    ensures Valid(Upsert(st, u))
    ensures |Upsert(st, u).docs| == |st.docs| + (if Find(st, u.name).None? then 1 else 0)
    ensures forall j :: 0 <= j < |st.docs| ==> Upsert(st, u).docs[j].id == st.docs[j].id
  {
    var r := Upsert(st, u);
    var i := IndexOfName(st.docs, u.name);
    var cs, rs := Contests(st), Contests(r);
    if i >= 0 {
      forall a, b | 0 <= a < b < |rs| ensures rs[a].name != rs[b].name {
        assert rs[a].name == cs[a].name && rs[b].name == cs[b].name;
      }
    } else {
      forall a, b | 0 <= a < b < |rs| ensures rs[a].name != rs[b].name {
        if b == |st.docs| {
          assert rs[b].name == u.name;
        } else {
          assert rs[a] == cs[a] && rs[b] == cs[b];
        }
      }
    }
  }

  /** A later `$set` of the same name carrying the same `pcdLink` key overrides an
      earlier one completely: the last write wins. */
  lemma {:induction false} LastWriteWins(st: ContestStore, u1: SetFields, u2: SetFields)
    requires u1.name == u2.name && u1.pcdLink == u2.pcdLink
    ensures Upsert(Upsert(st, u1), u2) == Upsert(st, u2)
  {
    var s1 := Upsert(st, u1);
    var i := IndexOfName(st.docs, u1.name);
    if i >= 0 {
      forall j | 0 <= j < i ensures s1.docs[j].contest.name != u1.name {
        assert s1.docs[j] == st.docs[j];
      }
      IndexOfNameAt(s1.docs, u1.name, i);
      var c := st.docs[i].contest;
      assert Written(Some(Written(Some(c), u1)), u2) == Written(Some(c), u2);
      var d := ContestDoc(st.docs[i].id, Written(Some(c), u2));
      assert s1.docs[i := d] == st.docs[i := d];
    } else {
      forall j | 0 <= j < |st.docs| ensures s1.docs[j].contest.name != u1.name {
        assert s1.docs[j] == st.docs[j];
      }
      IndexOfNameAt(s1.docs, u1.name, |st.docs|);
      assert Written(Some(Written(None, u1)), u2) == Written(None, u2);
      assert s1.docs[|st.docs| := ContestDoc(st.nextId, Written(None, u2))]
             == st.docs + [ContestDoc(st.nextId, Written(None, u2))];
    }
  }

  /** Applying the same `$set` twice equals applying it once. */
  lemma UpsertIdempotent(st: ContestStore, u: SetFields)
    ensures Upsert(Upsert(st, u), u) == Upsert(st, u)
  {
    LastWriteWins(st, u, u);
  }

  // -------------------------------------------------------------- batches

  /** The adapters' loop: upsert each update in list order. */
  function UpsertAll(st: ContestStore, us: seq<SetFields>): ContestStore
    decreases |us|
  {
    if us == [] then st else UpsertAll(Upsert(st, us[0]), us[1..])
  }

  lemma UpsertAllSnoc(st: ContestStore, us: seq<SetFields>, u: SetFields)
    ensures UpsertAll(st, us + [u]) == Upsert(UpsertAll(st, us), u)
    decreases |us|
  {
    if us != [] {
      assert (us + [u])[1..] == us[1..] + [u];
      UpsertAllSnoc(Upsert(st, us[0]), us[1..], u);
    }
  }

  /** A batch keeps the store valid. */
  lemma {:induction false} UpsertAllValid(st: ContestStore, us: seq<SetFields>)
    requires Valid(st)
    ensures Valid(UpsertAll(st, us))
    decreases |us|
  {
    if us != [] {
      UpsertValid(st, us[0]);
      UpsertAllValid(Upsert(st, us[0]), us[1..]);
    }
  }

  /** Names a batch does not mention are looked up as before. */
  lemma {:induction false} UpsertAllOthers(st: ContestStore, us: seq<SetFields>, name: string)
    requires forall k :: 0 <= k < |us| ==> us[k].name != name
    ensures Find(UpsertAll(st, us), name) == Find(st, name)
    decreases |us|
  {
    if us != [] {
      UpsertOthers(st, us[0], name);
      var rest := us[1..];
      forall k | 0 <= k < |rest| ensures rest[k].name != name {
        assert rest[k] == us[k + 1];
      }
      UpsertAllOthers(Upsert(st, us[0]), rest, name);
    }
  }

  /** After a batch, a name it mentions holds what its last update there wrote. */
  lemma {:induction false} UpsertAllLastWins(st: ContestStore, us: seq<SetFields>, k: nat)
    requires Valid(st)
    requires k < |us| && forall j :: k < j < |us| ==> us[j].name != us[k].name
    ensures Find(UpsertAll(st, us), us[k].name)
              == Some(Written(Find(UpsertAll(st, us[..k]), us[k].name), us[k]))
  {
    var u := us[k];
    var before := UpsertAll(st, us[..k]);
    var rest := us[k + 1..];
    UpsertAllValid(st, us[..k]);
    UpsertAllSnoc(st, us[..k], u);
    assert us[..k + 1] == us[..k] + [u];
    UpsertFound(before, u);
    assert us[..k + 1] + rest == us;
    UpsertAllSplit(st, us[..k + 1], rest);
    forall j | 0 <= j < |rest| ensures rest[j].name != u.name {
      assert rest[j] == us[k + 1 + j];
    }
    UpsertAllOthers(Upsert(before, u), rest, u.name);
  }

  lemma {:induction false} UpsertAllSplit(st: ContestStore, us: seq<SetFields>, vs: seq<SetFields>)
    ensures UpsertAll(st, us + vs) == UpsertAll(UpsertAll(st, us), vs)
    decreases |us|
  {
    if us == [] {
      assert us + vs == vs;
    } else {
      assert (us + vs)[0] == us[0] && (us + vs)[1..] == us[1..] + vs;
      UpsertAllSplit(Upsert(st, us[0]), us[1..], vs);
    }
  }

  /** The stored `pcdLink` of a lookup result (`None` when there is no document). */
  function PcdOf(c: Option<Contest>): Option<string> {
    if c.Some? then c.value.pcdLink else None
  }

  /** No update of the batch mentions `pcdLink` (the adapters' `$set` never does). */
  predicate KeepsPcd(us: seq<SetFields>) {
    forall k :: 0 <= k < |us| ==> us[k].pcdLink.Keep?
  }

  /** Position of the last update of `name` in the batch, or -1. */
  function LastIndexOfName(us: seq<SetFields>, name: string): (r: int)
    ensures -1 <= r < |us|
    ensures r >= 0 ==> us[r].name == name && forall j :: r < j < |us| ==> us[j].name != name
    ensures r == -1 ==> forall j :: 0 <= j < |us| ==> us[j].name != name
    decreases |us|
  {
    if us == [] then -1
    else if us[|us| - 1].name == name then |us| - 1
    else LastIndexOfName(us[..|us| - 1], name)
  }

  /** A batch that never mentions `pcdLink` leaves every name's link as it was. */
  lemma {:induction false} UpsertAllKeepsPcd(st: ContestStore, us: seq<SetFields>, name: string)
    requires Valid(st) && KeepsPcd(us)
    ensures PcdOf(Find(UpsertAll(st, us), name)) == PcdOf(Find(st, name))
    decreases |us|
  {
    if us != [] {
      var u := us[0];
      if u.name == name {
        UpsertFound(st, u);
      } else {
        UpsertOthers(st, u, name);
      }
      UpsertValid(st, u);
      var rest := us[1..];
      assert KeepsPcd(rest) by {
        forall k | 0 <= k < |rest| ensures rest[k].pcdLink.Keep? {
          assert rest[k] == us[k + 1];
        }
      }
      UpsertAllKeepsPcd(Upsert(st, u), rest, name);
    }
  }

  /** Running the same batch a second time changes no lookup: re-scraping an
      unchanged page is a no-op. */
  lemma {:induction false} UpsertAllRerun(st: ContestStore, us: seq<SetFields>, name: string)
    requires Valid(st) && KeepsPcd(us)
    ensures Find(UpsertAll(UpsertAll(st, us), us), name) == Find(UpsertAll(st, us), name)
  {
    var s1 := UpsertAll(st, us);
    UpsertAllValid(st, us);
    var k := LastIndexOfName(us, name);
    if k < 0 {
      UpsertAllOthers(s1, us, name);
    } else {
      var prefix := us[..k];
      assert KeepsPcd(prefix) by {
        forall j | 0 <= j < |prefix| ensures prefix[j].pcdLink.Keep? {
          assert prefix[j] == us[j];
        }
      }
      UpsertAllLastWins(st, us, k);
      UpsertAllLastWins(s1, us, k);
      UpsertAllKeepsPcd(s1, prefix, name);
      UpsertAllKeepsPcd(st, prefix, name);
      UpsertAllKeepsPcd(st, us, name);
    }
  }

  // ------------------------------------------------------- single-field writes

  /** `contest.pcdLink = link; contest.save()` on the document called `name`, if any:
      nothing is created, and no other field or document changes. */
  function SetPcdLinkByName(st: ContestStore, name: string, link: string): ContestStore {
    var i := IndexOfName(st.docs, name);
    if i < 0 then st
    else st.(docs := st.docs[i := ContestDoc(st.docs[i].id, st.docs[i].contest.(pcdLink := Some(link)))])
  }

  /** Two document lists with the same names position by position agree on every
      lookup by name. */
  lemma {:induction false} SameNamesSameIndex(a: seq<ContestDoc>, b: seq<ContestDoc>, name: string)
    requires |a| == |b| && forall j :: 0 <= j < |a| ==> a[j].contest.name == b[j].contest.name
    ensures IndexOfName(a, name) == IndexOfName(b, name)
  {
    if a != [] {
      SameNamesSameIndex(a[1..], b[1..], name);
    }
  }

  /** Setting the link keeps the number of documents, every id and the validity of
      the store. */
  lemma SetPcdLinkByNameValid(st: ContestStore, name: string, link: string)
    requires Valid(st)
    ensures var r := SetPcdLinkByName(st, name, link);
      && Valid(r)
      && |r.docs| == |st.docs| && r.nextId == st.nextId
      && (forall j :: 0 <= j < |st.docs| ==> r.docs[j].id == st.docs[j].id)
  {
    var r := SetPcdLinkByName(st, name, link);
    var cs, rs := Contests(st), Contests(r);
    assert forall j :: 0 <= j < |rs| ==> rs[j].name == cs[j].name;
  }

  /** The named contest, if present, gains the link and nothing else; no name appears
      or disappears, and every other name keeps its document. */
  lemma SetPcdLinkByNameFind(st: ContestStore, name: string, link: string, other: string)
    ensures var r := SetPcdLinkByName(st, name, link);
      && Find(r, name) == (if Find(st, name).None? then None else Some(Find(st, name).value.(pcdLink := Some(link))))
      && (Find(r, other).Some? <==> Find(st, other).Some?)
      && (other != name ==> Find(r, other) == Find(st, other))
  {
    var r := SetPcdLinkByName(st, name, link);
    if IndexOfName(st.docs, name) >= 0 {
      SameNamesSameIndex(r.docs, st.docs, other);
      SameNamesSameIndex(r.docs, st.docs, name);
    }
  }
}
