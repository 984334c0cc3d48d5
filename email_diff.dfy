/** The two hooks of the EmailDiff extension.

    SendNotificationEmailDiff is called once per recipient of a page-change
    notification and keeps three static fields for the whole request: the
    subject line of the first call, the diff text (computed once) and whether
    that text is a real diff.  The pure functions Step and Run say what one
    call and a sequence of calls do to those fields and to the email; the class
    EmailDiff holds the fields and its methods are proved against Step. */
module EmailDiffHooks {

  import opened Wrappers
  import opened StrReplace

  /** The placeholder an administrator puts in the notification body template. */
  const Placeholder: string := "$PAGEDIFF"

  /** Message keys of the extension's localised texts. */
  const NewPageKey: string := "emaildiff-newpage"
  const IntroKey: string := "emaildiff-intro"

  /** The preference key and the toggle it is registered as. */
  const PrefKey: string := "enotifshowdiff"

  /** The watching user: none for an impersonal notification, otherwise a user
      whose `enotifshowdiff` option is read as a boolean. */
  datatype Recipient = Impersonal | Watcher(showDiff: bool)

  /** What the host wiki and the outside world answer during one call. */
  datatype Host = Host(
    newRevisionText: Option<string>,     // text of the page's latest revision; None when there is no revision
    diffOutput: string,                  // whatever the diff command wrote; as the source is written, it compares two empty temp files
    message: (string, string) -> string, // a localised message with one parameter, as plain text
    subjectSuffix: string)               // the configured subject suffix

  /** The email triple the hook receives by reference. */
  datatype Email = Email(header: string, subject: string, body: string)

  /** The arguments of one hook call. `oldId` 0 stands for a missing old revision. */
  datatype Call = Call(recipient: Recipient, oldId: int, email: Email)

  /** The three static fields. */
  datatype Cache = Cache(subjectOriginal: Option<string>, text: Option<string>, hasDiff: bool)

  datatype Generated = Generated(text: string, isDiff: bool)
  datatype StepResult = StepResult(cache: Cache, email: Email)
  datatype RunResult = RunResult(cache: Cache, emails: seq<Email>)

  /** The fields before the first call of a request. */
  const Initial: Cache := Cache(None, None, false)

  /** The relation the fields keep: a real diff implies a cached text, and a
      cached text implies a stored subject. */
  predicate Consistent(c: Cache) {
    (c.hasDiff ==> c.text.Some?) && (c.text.Some? ==> c.subjectOriginal.Some?)
  }

  /** Whether the recipient is one for whom the diff is generated and the suffix added. */
  predicate WantsDiff(r: Recipient) {
    r.Impersonal? || r.showDiff
  }

  /** The text cached by the first qualifying call, and whether it is a real diff. */
  function Generate(oldId: int, host: Host): (g: Generated)
    ensures g.isDiff <==> host.newRevisionText.Some? && oldId != 0
    ensures host.newRevisionText.None? ==> g.text == ""
    ensures g.isDiff ==> |g.text| >= 2 && g.text[0] == '\n' && g.text[|g.text| - 1] == '\n'
  {
    match host.newRevisionText
    case None => Generated("", false)
    case Some(newText) =>
      if oldId == 0 then Generated(host.message(NewPageKey, newText) + "\n", false)
      else Generated("\n" + host.message(IntroKey, host.diffOutput) + "\n", true)
  }

  /** What replaces the placeholder: the cached text, or nothing while there is none. */
  function Substitute(c: Cache): string {
    if c.text.None? then "" else c.text.value
  }

  /** One call of SendNotificationEmailDiff: the new fields and the email sent. */
  function Step(c: Cache, call: Call, host: Host): (r: StepResult)
    ensures Consistent(c) ==> Consistent(r.cache)
    ensures r.email.header == call.email.header
    ensures r.cache.subjectOriginal.Some?
    ensures c.subjectOriginal.Some? ==> r.cache.subjectOriginal == c.subjectOriginal
    ensures c.text.Some? ==> r.cache.text == c.text && r.cache.hasDiff == c.hasDiff
  {
    var original := if c.subjectOriginal.None? then call.email.subject else c.subjectOriginal.value;
    var wants := WantsDiff(call.recipient);
    var cache :=
      if wants && c.text.None? then
        var g := Generate(call.oldId, host);
        Cache(Some(original), Some(g.text), c.hasDiff || g.isDiff)
      else
        Cache(Some(original), c.text, c.hasDiff);
    var subject :=
      if wants && cache.hasDiff && |host.subjectSuffix| > 0 then original + host.subjectSuffix else original;
    StepResult(cache, Email(call.email.header, subject, ReplaceAll(call.email.body, Placeholder, Substitute(cache))))
  }

  /** The hook called for each of `calls` in turn, with the same host answers. */
  function Run(c: Cache, calls: seq<Call>, host: Host): (r: RunResult)
    ensures |r.emails| == |calls|
    ensures Consistent(c) ==> Consistent(r.cache)
    decreases |calls|
  {
    if calls == [] then RunResult(c, [])
    else
      var first := Step(c, calls[0], host);
      var rest := Run(first.cache, calls[1..], host);
      RunResult(rest.cache, [first.email] + rest.emails)
  }

  // ---------------------------------------------------------------------------
  // One call

  /** The first call stores its subject; the subject sent is that subject, with
      at most the suffix appended. */
  lemma FirstCallStoresSubject(call: Call, host: Host)
    ensures Step(Initial, call, host).cache.subjectOriginal == Some(call.email.subject)
    ensures var s := Step(Initial, call, host).email.subject;
            s == call.email.subject || s == call.email.subject + host.subjectSuffix
  {
  }

  /** A later call ignores the subject it is given: it restarts from the stored
      original, so a suffix added for an earlier recipient is not kept. */
  lemma LaterCallResetsSubject(c: Cache, call: Call, host: Host)
    requires c.subjectOriginal.Some?
    ensures var s := Step(c, call, host).email.subject;
            s == c.subjectOriginal.value || s == c.subjectOriginal.value + host.subjectSuffix
  {
  }

  /** The suffix is appended exactly when the recipient qualifies, a real diff has
      been made and the suffix is not empty; otherwise the subject is the original. */
  lemma SuffixExactlyWhen(c: Cache, call: Call, host: Host)
    ensures var r := Step(c, call, host);
            var original := r.cache.subjectOriginal.value;
            var suffixed := WantsDiff(call.recipient) && r.cache.hasDiff && host.subjectSuffix != "";
            (suffixed ==> r.email.subject == original + host.subjectSuffix) &&
            (r.email.subject == original <==> !suffixed)
  {
    var r := Step(c, call, host);
    var original := r.cache.subjectOriginal.value;
    if WantsDiff(call.recipient) && r.cache.hasDiff && host.subjectSuffix != "" {
      assert |r.email.subject| > |original|;
    }
  }

  /** A recipient who does not qualify never triggers generation. */
  lemma NoGenerationForNonQualifying(c: Cache, call: Call, host: Host)
    requires !WantsDiff(call.recipient)
    ensures Step(c, call, host).cache.text == c.text
    ensures Step(c, call, host).cache.hasDiff == c.hasDiff
  {
  }

  /** The first qualifying call fills the cache with the generated text. */
  lemma FirstQualifyingCallGenerates(c: Cache, call: Call, host: Host)
    requires WantsDiff(call.recipient) && c.text.None?
    ensures Step(c, call, host).cache.text == Some(Generate(call.oldId, host).text)
  {
  }

  /** Without a new revision the cache becomes empty text and no diff is recorded. */
  lemma MissingRevisionCachesEmpty(c: Cache, call: Call, host: Host)
    requires WantsDiff(call.recipient) && c.text.None? && Consistent(c)
    requires host.newRevisionText.None?
    ensures Step(c, call, host).cache.text == Some("")
    ensures !Step(c, call, host).cache.hasDiff
  {
  }

  /** Without an old revision the cache becomes the new-page message and a newline,
      and no diff is recorded. */
  lemma NewPageCachesMessage(c: Cache, call: Call, host: Host)
    requires WantsDiff(call.recipient) && c.text.None? && Consistent(c)
    requires host.newRevisionText.Some? && call.oldId == 0
    ensures Step(c, call, host).cache.text == Some(host.message(NewPageKey, host.newRevisionText.value) + "\n")
    ensures !Step(c, call, host).cache.hasDiff
  {
  }

  /** A diff is recorded by a call exactly when one was recorded before, or the call
      is the first qualifying one and both revisions exist. */
  lemma HasDiffOnlyFromDiffCommand(c: Cache, call: Call, host: Host)
    ensures Step(c, call, host).cache.hasDiff <==>
            c.hasDiff ||
            (WantsDiff(call.recipient) && c.text.None? && host.newRevisionText.Some? && call.oldId != 0)
  {
  }

  /** When the diff command runs, the cache holds its output wrapped in the intro message. */
  lemma DiffCachesIntro(c: Cache, call: Call, host: Host)
    requires WantsDiff(call.recipient) && c.text.None?
    requires host.newRevisionText.Some? && call.oldId != 0
    ensures Step(c, call, host).cache.text == Some("\n" + host.message(IntroKey, host.diffOutput) + "\n")
    ensures Step(c, call, host).cache.hasDiff
  {
  }

  /** Every placeholder is replaced by the text cached after the call, or removed
      while nothing is cached. */
  lemma BodyUsesCache(c: Cache, call: Call, host: Host)
    ensures var r := Step(c, call, host);
            r.email.body == ReplaceAll(call.email.body, Placeholder, Substitute(r.cache))
  {
  }

  /** Once the cache is filled, the body does not depend on the recipient at all:
      a recipient who did not opt in receives the same diff as one who did. */
  lemma BodyIgnoresPreference(c: Cache, call1: Call, call2: Call, host: Host)
    requires c.text.Some? && call1.email.body == call2.email.body
    ensures Step(c, call1, host).email.body == Step(c, call2, host).email.body
    ensures Step(c, call1, host).email.body == ReplaceAll(call1.email.body, Placeholder, c.text.value)
  {
  }

  /** A body without the placeholder is sent unchanged. */
  lemma BodyWithoutPlaceholderUnchanged(c: Cache, call: Call, host: Host)
    requires !Contains(call.email.body, Placeholder)
    ensures Step(c, call, host).email.body == call.email.body
  {
  }

  // ---------------------------------------------------------------------------
  // A sequence of calls within one request

  /** Once a subject is stored, every subject sent is that subject, with at most
      one copy of the suffix. */
  lemma {:induction false} SubjectsStayAnchored(c: Cache, calls: seq<Call>, host: Host)
    requires c.subjectOriginal.Some?
    ensures forall i :: 0 <= i < |calls| ==>
              Run(c, calls, host).emails[i].subject in {c.subjectOriginal.value, c.subjectOriginal.value + host.subjectSuffix}
    decreases |calls|
  {
    if calls != [] {
      var first := Step(c, calls[0], host);
      SubjectsStayAnchored(first.cache, calls[1..], host);
      LaterCallResetsSubject(c, calls[0], host);
    }
  }

  /** Over a whole request the subject never accumulates suffixes: each recipient
      gets the first call's subject, with the suffix at most once. */
  lemma SubjectNeverAccumulates(calls: seq<Call>, host: Host)
    requires |calls| > 0
    ensures forall i :: 0 <= i < |calls| ==>
              Run(Initial, calls, host).emails[i].subject in {calls[0].email.subject, calls[0].email.subject + host.subjectSuffix}
  {
    var first := Step(Initial, calls[0], host);
    SubjectsStayAnchored(first.cache, calls[1..], host);
    FirstCallStoresSubject(calls[0], host);
  }

  /** Once the cache holds a text, no later call recomputes or changes it, and
      every later body gets exactly that text. */
  lemma {:induction false} CacheNeverRecomputed(c: Cache, calls: seq<Call>, host: Host)
    requires c.text.Some?
    ensures var r := Run(c, calls, host);
            r.cache.text == c.text && r.cache.hasDiff == c.hasDiff &&
            forall i :: 0 <= i < |calls| ==>
              r.emails[i].body == ReplaceAll(calls[i].email.body, Placeholder, c.text.value)
    decreases |calls|
  {
    if calls != [] {
      var first := Step(c, calls[0], host);
      CacheNeverRecomputed(first.cache, calls[1..], host);
    }
  }

  /** While no recipient qualifies, nothing is generated and every placeholder is
      replaced by whatever was cached before (nothing, at the start of a request). */
  lemma {:induction false} NoOptInNoGeneration(c: Cache, calls: seq<Call>, host: Host)
    requires forall i :: 0 <= i < |calls| ==> !WantsDiff(calls[i].recipient)
    ensures var r := Run(c, calls, host);
            r.cache.text == c.text && r.cache.hasDiff == c.hasDiff &&
            forall i :: 0 <= i < |calls| ==>
              r.emails[i].body == ReplaceAll(calls[i].email.body, Placeholder, Substitute(c))
    decreases |calls|
  {
    if calls != [] {
      var first := Step(c, calls[0], host);
      NoOptInNoGeneration(first.cache, calls[1..], host);
    }
  }

  /** The diff is generated at most once per request: the text cached at the end of
      a run is the one generated for the first qualifying recipient, and every
      email from that recipient on carries it. */
  lemma {:induction false} GeneratedOnceAtFirstOptIn(c: Cache, calls: seq<Call>, host: Host, k: nat)
    requires c.text.None?
    requires k < |calls| && WantsDiff(calls[k].recipient)
    requires forall i :: 0 <= i < k ==> !WantsDiff(calls[i].recipient)
    ensures var t := Generate(calls[k].oldId, host).text;
            var r := Run(c, calls, host);
            r.cache.text == Some(t) &&
            forall i :: k <= i < |calls| ==>
              r.emails[i].body == ReplaceAll(calls[i].email.body, Placeholder, t)
    decreases k
  {
    var first := Step(c, calls[0], host);
    if k == 0 {
      CacheNeverRecomputed(first.cache, calls[1..], host);
    } else {
      GeneratedOnceAtFirstOptIn(first.cache, calls[1..], host, k - 1);
    }
  }

  // ---------------------------------------------------------------------------
  // The preference hook

  /** A preference control: its attributes by name. */
  type Descriptor = map<string, string>

  /** The toggle shown in the "Email options" section of the user profile. */
  function ToggleDescriptor(): Descriptor {
    map["type" := "toggle", "section" := "personal/email", "label-message" := "tog-emaildiff"]
  }

  // ---------------------------------------------------------------------------
  // The hooks, over the static fields

  class EmailDiff {
    var subjectOriginal: Option<string>
    var text: Option<string>
    var hasDiff: bool

    /** The three fields as a value. */
    function State(): Cache
      reads this
    {
      Cache(subjectOriginal, text, hasDiff)
    }

    ghost predicate Valid()
      reads this
    {
      Consistent(State())
    }

    /** The fields as a request starts: no subject, no text, no diff. */
    constructor ()
      ensures Valid() && State() == Initial
    {
      subjectOriginal, text, hasDiff := None, None, false;
    }

    /** The SendNotificationEmailDiff hook: the by-reference header, subject and
        body come back as out-parameters, and the hook always reports success. */
    method SendNotificationEmailDiff(watchingUser: Recipient, oldId: int, host: Host,
                                     header: string, subject: string, body: string)
      returns (ok: bool, header': string, subject': string, body': string)
      requires Valid()
      modifies this
      ensures Valid()
      ensures ok && header' == header
      ensures var r := Step(old(State()), Call(watchingUser, oldId, Email(header, subject, body)), host);
              State() == r.cache && Email(header', subject', body') == r.email
    {
      header', subject' := header, subject;
      if subjectOriginal.None? {
        subjectOriginal := Some(subject);
      } else {
        subject' := subjectOriginal.value;
      }
      if WantsDiff(watchingUser) {
        if text.None? {
          match host.newRevisionText {
            case None =>
              text := Some("");
            case Some(newText) =>
              if oldId == 0 {
                text := Some(host.message(NewPageKey, newText) + "\n");
              } else {
                text := Some("\n" + host.message(IntroKey, host.diffOutput) + "\n");
                hasDiff := true;
              }
          }
        }
        if hasDiff && |host.subjectSuffix| > 0 {
          subject' := subject' + host.subjectSuffix;
        }
      }
      body' := ReplaceAll(body, Placeholder, if text.None? then "" else text.value);
      ok := true;
    }

    /** The GetPreferences hook: registers the toggle under its key, leaves every
        other preference as it was, and always reports success. */
    static method SetEmailDiffPref(prefs: map<string, Descriptor>) returns (ok: bool, prefs': map<string, Descriptor>)
      ensures ok
      ensures PrefKey in prefs' && prefs'[PrefKey] == ToggleDescriptor()
      ensures prefs'.Keys == prefs.Keys + {PrefKey}
      ensures forall k :: k in prefs && k != PrefKey ==> prefs'[k] == prefs[k]
      ensures PrefKey in prefs && prefs[PrefKey] == ToggleDescriptor() ==> prefs' == prefs
    {
      prefs' := prefs[PrefKey := ToggleDescriptor()];
      ok := true;
    }
  }
}
