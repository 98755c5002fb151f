/** The reminder worker: it consumes the jobs of one named queue and sends, for each
    job, one mail built from the job's data. The queue `addBookmark` adds to and the
    queue the worker consumes are named separately, and the two names differ. */
module ReminderWorker {
  import opened Text
  import opened Schema
  import opened BookmarkController

  /** The name the producer's queue is created with. */
  const ProducerQueue: string := "bookmarkRem5inderQueue"

  /** The name of the queue the worker consumes. */
  const WorkerQueue: string := "bookmarkReminderQueue"

  /** The one name both sides should share. */
  const ReminderQueue: string := WorkerQueue

  /** The `requestOption` handed to `sendMail`. */
  datatype Mail = Mail(to: string, subject: string, text: string, html: string)

  /** `${startTime}` in the worker. Job data travel through the queue as JSON, so the
      contest's start arrives as its ISO 8601 text, rendered here by `iso`, and a null
      start as `null`. */
  function StartText(startTime: Option<int>, iso: int -> string): string {
    if startTime.Some? then iso(startTime.value) else "null"
  }

  /** `part` occurs in `s` at position `k`. */
  predicate IsAt(s: string, part: string, k: nat) {
    k + |part| <= |s| && s[k..k + |part|] == part
  }

  predicate Contains(s: string, part: string) {
    exists k: nat | k <= |s| :: IsAt(s, part, k)
  }

  predicate EndsWith(s: string, part: string) {
    |part| <= |s| && IsAt(s, part, |s| - |part|)
  }

  /** A template literal: its pieces, one after the other. */
  function Join(parts: seq<string>): string {
    if parts == [] then "" else parts[0] + Join(parts[1..])
  }

  /** Each piece of a template literal occurs in the result, after the pieces before
      it. */
  lemma {:induction false} JoinAt(parts: seq<string>, i: nat)
    requires i < |parts|
    ensures IsAt(Join(parts), parts[i], |Join(parts[..i])|)
    ensures |Join(parts)| == |Join(parts[..i])| + |parts[i]| + |Join(parts[i + 1..])|
  {
    var rest := parts[1..];
    if i == 0 {
      assert parts[..0] == [];
      assert Join(parts) == parts[0] + Join(rest);
    } else {
      JoinAt(rest, i - 1);
      var pre := parts[..i];
      assert pre[0] == parts[0] && pre[1..] == rest[..i - 1];
      assert rest[i - 1] == parts[i] && rest[i..] == parts[i + 1..];
      var k := |Join(rest[..i - 1])|;
      assert Join(parts) == parts[0] + Join(rest);
      assert Join(parts)[|parts[0]| + k..|parts[0]| + k + |parts[i]|]
             == Join(rest)[k..k + |parts[i]|];
    }
  }

  lemma JoinContains(parts: seq<string>, i: nat)
    requires i < |parts|
    ensures Contains(Join(parts), parts[i])
  {
    JoinAt(parts, i);
  }

  lemma JoinEndsWith(parts: seq<string>)
    requires parts != []
    ensures EndsWith(Join(parts), parts[|parts| - 1])
  {
    var i := |parts| - 1;
    JoinAt(parts, i);
    assert parts[i + 1..] == [];
    assert |Join(parts[..i])| == |Join(parts)| - |parts[i]|;
  }

  /** The fixed text of the subject, text and html template literals. */
  const SubjectHead: string := "Reminder: "
  const SubjectTail: string := " starts soon!"
  const TextAt: string := " is starting at "
  const TextJoin: string := ". Join here: "
  const HtmlHead: string := "\n      <h3>Upcoming Contest Reminder</h3>\n      <p>The contest <strong>"
  const HtmlAt: string := "</strong> is starting at <strong>"
  const HtmlClick: string := "</strong>.</p>\n      <p>Click "
  const HtmlTail: string := " target=\"_blank\">here</a> to join.</p>\n      <p>Best of luck!</p>\n  "

  /** The anchor opening tag that links to `url`. */
  function Anchor(url: string): string {
    "<a href=\"" + url + "\""
  }

  /** The three template literals, split at their placeholders. */
  function SubjectParts(d: ReminderData): seq<string> {
    [SubjectHead, d.contestTitle, SubjectTail]
  }

  function TextParts(d: ReminderData, start: string): seq<string> {
    [SubjectHead, d.contestTitle, TextAt, start, TextJoin + d.contestUrl]
  }

  function HtmlParts(d: ReminderData, start: string): seq<string> {
    [HtmlHead, d.contestTitle, HtmlAt, start, HtmlClick, Anchor(d.contestUrl), HtmlTail]
  }

  /** The mail the worker sends for one job. */
  function ReminderMail(d: ReminderData, iso: int -> string): (m: Mail)
    ensures m.to == d.email
  {
    var start := StartText(d.startTime, iso);
    Mail(d.email, Join(SubjectParts(d)), Join(TextParts(d, start)), Join(HtmlParts(d, start)))
  }

  /** The contest title a reminder subject announces, if `s` has the subject's shape. */
  function SubjectTitle(s: string): (r: Option<string>)
    ensures r.Some? ==> s == SubjectHead + r.value + SubjectTail
  {
    var h, t := |SubjectHead|, |SubjectTail|;
    if |s| >= h + t && s[..h] == SubjectHead && s[|s| - t..] == SubjectTail then
      var title := s[h..|s| - t];
      assert s == s[..h] + title + s[|s| - t..];
      Some(title)
    else None
  }

  /** The subject names the contest: reading it back gives the title. */
  lemma SubjectNamesContest(d: ReminderData, iso: int -> string)
    ensures SubjectTitle(ReminderMail(d, iso).subject) == Some(d.contestTitle)
  {
    var p := SubjectParts(d);
    assert p[1..][1..] == [SubjectTail] && [SubjectTail][1..] == [];
    assert Join(p[1..][1..]) == SubjectTail;
    assert Join(p[1..]) == d.contestTitle + SubjectTail;
    var s := ReminderMail(d, iso).subject;
    assert s == SubjectHead + d.contestTitle + SubjectTail;
    var h, t := |SubjectHead|, |SubjectTail|;
    assert s[..h] == SubjectHead;
    assert s[|s| - t..] == SubjectTail;
    assert s[h..|s| - t] == d.contestTitle;
  }

  /** The text and the html both name the contest and its start, the text ends with
      the join link, and the html links to the contest's url. */
  lemma BodiesCarryContest(d: ReminderData, iso: int -> string)
    ensures var m := ReminderMail(d, iso);
      && Contains(m.text, d.contestTitle)
      && Contains(m.text, StartText(d.startTime, iso))
      && EndsWith(m.text, TextJoin + d.contestUrl)
      && Contains(m.html, d.contestTitle)
      && Contains(m.html, StartText(d.startTime, iso))
      && Contains(m.html, Anchor(d.contestUrl))
  {
    var start := StartText(d.startTime, iso);
    JoinContains(TextParts(d, start), 1);
    JoinContains(TextParts(d, start), 3);
    JoinEndsWith(TextParts(d, start));
    JoinContains(HtmlParts(d, start), 1);
    JoinContains(HtmlParts(d, start), 3);
    JoinContains(HtmlParts(d, start), 5);
  }

  /** The mails the worker sends for the jobs of `q`: one per job when it consumes
      that queue, none otherwise. They are listed job by job; when each is sent depends
      on its job's delay, which this model does not order. */
  function Delivered(q: Queue, consumed: string, iso: int -> string): (ms: seq<Mail>)
    ensures q.name == consumed ==> |ms| == |q.jobs|
    ensures q.name != consumed ==> ms == []
  {
    if q.name == consumed then seq(|q.jobs|, i requires 0 <= i < |q.jobs| => ReminderMail(q.jobs[i].data, iso))
    else []
  }

  /** As written: no job added to the producer's queue is ever turned into a mail,
      however many reminders `addBookmark` enqueues. */
  lemma ProducerJobsNeverDelivered(q: Queue, jobs: seq<Job>, iso: int -> string)
    requires q.name == ProducerQueue
    ensures Delivered(q.(jobs := q.jobs + jobs), WorkerQueue, iso) == []
  {
    assert |ProducerQueue| != |WorkerQueue|;
  }

  /** With the shared name, the job `addBookmark` adds for a reminder still ahead
      yields exactly one more mail, to the user, naming the contest. */
  lemma ReminderDelivered(q: Queue, user: User, c: Contest, delay: int, iso: int -> string)
    requires q.name == ReminderQueue
    ensures var m := ReminderMail(ReminderJob(user, c, delay).data, iso);
      && multiset(Delivered(q.(jobs := q.jobs + [ReminderJob(user, c, delay)]), WorkerQueue, iso))
         == multiset(Delivered(q, WorkerQueue, iso)) + multiset{m}
      && m.to == user.emailId
      && SubjectTitle(m.subject) == Some(c.name)
  {
    var j := ReminderJob(user, c, delay);
    var q' := q.(jobs := q.jobs + [j]);
    var a, b := Delivered(q', WorkerQueue, iso), Delivered(q, WorkerQueue, iso);
    assert forall i :: 0 <= i < |q.jobs| ==> q'.jobs[i] == q.jobs[i];
    assert a == b + [ReminderMail(j.data, iso)];
    SubjectNamesContest(j.data, iso);
  }
}
