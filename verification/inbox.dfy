/**
 * The per-message loop of `process_inbox`. Each inbox message is fetched in
 * full; when its `To` header names a known alias, the email is posted to
 * that alias's Bluesky account and then archiving the message is requested,
 * whatever came of the posting; the message leaves the inbox unless the
 * mail service refuses the request. Messages for no alias are left alone,
 * and an error on one message never stops the loop.
 */
module Inbox {
  import opened Wrappers
  import opened PyStrings
  import opened Aliases
  import opened Headers
  import opened Mime
  import opened Threading

  /** A full message as the mail service returns it: the headers of its
      payload (`None` when the payload has no `headers` key) and its MIME
      tree. */
  datatype Message = Message(headers: Option<seq<Header>>, payload: Payload)

  /** How the Bluesky service answers the posting of one message. */
  datatype Service = Service(acceptsLogin: bool, failing: set<nat>)

  /** What became of one inbox message. */
  datatype Report =
    | FetchFailed
    | Skipped
    | Errored
    | Handled(posted: Result<nat, PostError>, calls: seq<Event>, archived: bool)

  /** What the loop decides for a fetched message: skip it, give up on it
      with an error, or post this email with these credentials. */
  datatype Decision =
    | Skip
    | Fail
    | Post(credentials: Credentials, sender: string, subject: string, date: string, body: string)

  const BodySeparator: string := "\n"

  /** The mail service: the messages it can return in full and the
      messages it refuses to archive. It records each archive request. */
  class Mailbox {
    const stored: map<string, Message>
    const archiveFails: set<string>
    var archiveRequests: seq<string>

    constructor (stored: map<string, Message>, archiveFails: set<string>)
      ensures this.stored == stored && this.archiveFails == archiveFails && archiveRequests == []
    {
      this.stored := stored;
      this.archiveFails := archiveFails;
      archiveRequests := [];
    }

    /** `messages().get(id=..., format='full').execute()`; `None` when it raises. */
    method Fetch(id: string) returns (m: Option<Message>)
      ensures m == if id in stored then Some(stored[id]) else None
    {
      m := if id in stored then Some(stored[id]) else None;
    }

    /** `messages().modify(id=..., removeLabelIds=['INBOX']).execute()`;
        `false` when it raises. */
    method Archive(id: string) returns (ok: bool)
      modifies this
      ensures ok == (id !in archiveFails)
      ensures archiveRequests == old(archiveRequests) + [id]
    {
      ok := id !in archiveFails;
      archiveRequests := archiveRequests + [id];
    }
  }

  /** The decision for a fetched message, given the alias mapping. A message
      is skipped exactly when its `To` header names no alias, fails exactly
      when it has no headers or its MIME walk raises, and is otherwise posted
      with the credentials of its recipient's alias, its `From`, `Subject` and
      `Date` headers and the texts of its MIME tree, one per line. */
  function Decide(aliases: map<string, Credentials>, m: Message, codecs: Codecs): (r: Decision)
    ensures r == Skip <==> m.headers.Some? && HeaderValue(m.headers.value, "to") !in aliases
    ensures r == Fail <==> (m.headers.None? ||
      (HeaderValue(m.headers.value, "to") in aliases && TextParts(m.payload, HeaderValue(m.headers.value, "to"), codecs).None?))
    ensures r.Post? ==> m.headers.Some?
    ensures r.Post? ==> var recipient := HeaderValue(m.headers.value, "to");
      && recipient in aliases
      && r.credentials == aliases[recipient]
      && TextParts(m.payload, recipient, codecs).Some?
      && r.body == Join(TextParts(m.payload, recipient, codecs).value, BodySeparator)
    ensures r.Post? ==>
      && r.sender == HeaderValue(m.headers.value, "from")
      && r.subject == HeaderValue(m.headers.value, "subject")
      && r.date == HeaderValue(m.headers.value, "date")
  {
    match m.headers
    case None => Fail
    case Some(headers) =>
      var recipient := HeaderValue(headers, "to");
      if recipient !in aliases then Skip
      else match TextParts(m.payload, recipient, codecs)
        case None => Fail
        case Some(parts) =>
          Post(aliases[recipient], HeaderValue(headers, "from"), HeaderValue(headers, "subject"),
               HeaderValue(headers, "date"), Join(parts, BodySeparator))
  }

  /** The report for inbox message `id`, posted through `service`. */
  function Expected(aliases: map<string, Credentials>, stored: map<string, Message>, archiveFails: set<string>,
                    id: string, service: Service, codecs: Codecs): Report
  {
    if id !in stored then FetchFailed
    else match Decide(aliases, stored[id], codecs)
      case Skip => Skipped
      case Fail => Errored
      case Post(c, sender, subject, date, body) =>
        Handled(PublishOutcome(service.acceptsLogin, service.failing, sender, subject, date, body),
                PublishTrace(service.acceptsLogin, service.failing, c.handle, sender, subject, date, body),
                id !in archiveFails)
  }

  /** The messages the loop asks to archive, in inbox order. */
  function ArchiveRequests(aliases: map<string, Credentials>, stored: map<string, Message>,
                       inbox: seq<string>, codecs: Codecs): seq<string>
  {
    if inbox == [] then []
    else
      var before := ArchiveRequests(aliases, stored, inbox[..|inbox| - 1], codecs);
      var id := inbox[|inbox| - 1];
      if id in stored && Decide(aliases, stored[id], codecs).Post? then before + [id] else before
  }

  /** The loop over the inbox. `env` is the environment the aliases are
      read from; `bluesky(i)` is how the Bluesky service answers for the
      `i`-th message. */
  method ProcessInbox(env: seq<(string, string)>, inbox: seq<string>, mailbox: Mailbox,
                      bluesky: nat -> Service, codecs: Codecs)
    returns (reports: seq<Report>)
    modifies mailbox
    ensures |reports| == |inbox|
    ensures forall i :: 0 <= i < |inbox| ==>
      reports[i] == Expected(Mappings(env), mailbox.stored, mailbox.archiveFails, inbox[i], bluesky(i), codecs)
    ensures mailbox.archiveRequests == old(mailbox.archiveRequests) + ArchiveRequests(Mappings(env), mailbox.stored, inbox, codecs)
  {
    var aliases := LoadAliasMappings(env);
    reports := [];
    ghost var a0 := mailbox.archiveRequests;
    ghost var stored, fails := mailbox.stored, mailbox.archiveFails;
    for i := 0 to |inbox|
      invariant reports == ExpectedReports(aliases, stored, fails, inbox[..i], bluesky, codecs)
      invariant mailbox.archiveRequests == a0 + ArchiveRequests(aliases, stored, inbox[..i], codecs)
    {
      var report := HandleMessage(aliases, inbox[i], mailbox, bluesky(i), codecs);
      LoopStep(aliases, stored, fails, inbox, bluesky, codecs, i, a0);
      reports := reports + [report];
    }
    assert inbox[..|inbox|] == inbox;
    ExpectedReportsAt(aliases, stored, fails, inbox, bluesky, codecs);
  }

  /** The reports of the loop over `inbox`, in order. */
  function ExpectedReports(aliases: map<string, Credentials>, stored: map<string, Message>, archiveFails: set<string>,
                           inbox: seq<string>, bluesky: nat -> Service, codecs: Codecs): seq<Report>
  {
    if inbox == [] then []
    else
      ExpectedReports(aliases, stored, archiveFails, inbox[..|inbox| - 1], bluesky, codecs)
        + [Expected(aliases, stored, archiveFails, inbox[|inbox| - 1], bluesky(|inbox| - 1), codecs)]
  }

  lemma {:induction false} ExpectedReportsAt(aliases: map<string, Credentials>, stored: map<string, Message>,
                                             archiveFails: set<string>, inbox: seq<string>,
                                             bluesky: nat -> Service, codecs: Codecs)
    ensures var rs := ExpectedReports(aliases, stored, archiveFails, inbox, bluesky, codecs);
      |rs| == |inbox| &&
      forall i :: 0 <= i < |inbox| ==> rs[i] == Expected(aliases, stored, archiveFails, inbox[i], bluesky(i), codecs)
    decreases |inbox|
  {
    if inbox != [] {
      var init := inbox[..|inbox| - 1];
      ExpectedReportsAt(aliases, stored, archiveFails, init, bluesky, codecs);
      var rs := ExpectedReports(aliases, stored, archiveFails, inbox, bluesky, codecs);
      var before := ExpectedReports(aliases, stored, archiveFails, init, bluesky, codecs);
      forall i | 0 <= i < |inbox|
        ensures rs[i] == Expected(aliases, stored, archiveFails, inbox[i], bluesky(i), codecs)
      {
        if i < |init| {
          assert rs[i] == before[i] && init[i] == inbox[i];
        }
      }
    }
  }

  lemma LoopStep(aliases: map<string, Credentials>, stored: map<string, Message>, archiveFails: set<string>,
                 inbox: seq<string>, bluesky: nat -> Service, codecs: Codecs, i: nat, a0: seq<string>)
    requires i < |inbox|
    ensures ExpectedReports(aliases, stored, archiveFails, inbox[..i + 1], bluesky, codecs)
      == ExpectedReports(aliases, stored, archiveFails, inbox[..i], bluesky, codecs)
         + [Expected(aliases, stored, archiveFails, inbox[i], bluesky(i), codecs)]
    ensures a0 + ArchiveRequests(aliases, stored, inbox[..i + 1], codecs)
      == a0 + ArchiveRequests(aliases, stored, inbox[..i], codecs)
         + (if inbox[i] in stored && Decide(aliases, stored[inbox[i]], codecs).Post? then [inbox[i]] else [])
  {
    assert inbox[..i + 1][..i] == inbox[..i];
  }

  /** One pass of the loop: fetch, decide, and for a known alias post and
      then request the archive. */
  method HandleMessage(aliases: map<string, Credentials>, id: string, mailbox: Mailbox,
                       service: Service, codecs: Codecs)
    returns (report: Report)
    modifies mailbox
    ensures report == Expected(aliases, mailbox.stored, mailbox.archiveFails, id, service, codecs)
    ensures mailbox.archiveRequests == old(mailbox.archiveRequests)
      + (if id in mailbox.stored && Decide(aliases, mailbox.stored[id], codecs).Post? then [id] else [])
  {
    var fetched := mailbox.Fetch(id);
    if fetched.None? {
      return FetchFailed;
    }
    var m := fetched.value;
    if m.headers.None? {
      assert Decide(aliases, m, codecs) == Fail;
      return Errored;
    }
    var recipient := GetRecipient(m.headers.value);
    if recipient !in aliases {
      assert Decide(aliases, m, codecs) == Skip;
      return Skipped;
    }
    var handle := aliases[recipient].handle;
    var password := aliases[recipient].password;
    var subject := GetSubject(m.headers.value);
    var sender := GetSender(m.headers.value);
    var date := GetDate(m.headers.value);
    var parts := ExtractAllTextParts(m.payload, recipient, codecs, []);
    if parts.None? {
      assert Decide(aliases, m, codecs) == Fail;
      return Errored;
    }
    assert parts.value == TextParts(m.payload, recipient, codecs).value by {
      assert [] + TextParts(m.payload, recipient, codecs).value == TextParts(m.payload, recipient, codecs).value;
    }
    var body := Join(parts.value, BodySeparator);
    assert Decide(aliases, m, codecs) == Post(aliases[recipient], sender, subject, date, body);
    var posted, client := PostToBluesky(service.acceptsLogin, service.failing, handle, password,
                                        sender, subject, date, body);
    var archived := mailbox.Archive(id);
    report := Handled(posted, client.trace, archived);
  }

  // ---------------------------------------------------------------------
  // Properties of the decision

  /** Archiving is requested for a message exactly when it was fetched and
      posted to; the Bluesky answer plays no part, so it is requested after
      a failed post too. It is never requested for a skipped or failed
      message. */
  lemma {:induction false} ArchiveRequestIff(aliases: map<string, Credentials>, stored: map<string, Message>,
                                       inbox: seq<string>, codecs: Codecs, id: string)
    ensures id in ArchiveRequests(aliases, stored, inbox, codecs) <==>
      id in inbox && id in stored && Decide(aliases, stored[id], codecs).Post?
    decreases |inbox|
  {
    if inbox != [] {
      var init := inbox[..|inbox| - 1];
      ArchiveRequestIff(aliases, stored, init, codecs, id);
      assert inbox == init + [inbox[|inbox| - 1]];
    }
  }

  /** A message for a known alias is abandoned exactly when one of the text
      leaves of its MIME tree cannot be read. */
  lemma DecideFails(aliases: map<string, Credentials>, m: Message, codecs: Codecs)
    ensures Decide(aliases, m, codecs) == Fail <==>
      m.headers.None? || (HeaderValue(m.headers.value, "to") in aliases && Raises(m.payload, codecs))
  {
    if m.headers.Some? {
      TextPartsRaise(m.payload, HeaderValue(m.headers.value, "to"), codecs);
    }
  }

  /** A message that is posted to is archived unless the archive call fails,
      whether or not the post itself failed, and its post never reports
      "no content": the formatted text always has the header. */
  lemma PostedIsArchived(aliases: map<string, Credentials>, stored: map<string, Message>, archiveFails: set<string>,
                         id: string, service: Service, codecs: Codecs)
    requires id in stored && Decide(aliases, stored[id], codecs).Post?
    ensures var r := Expected(aliases, stored, archiveFails, id, service, codecs);
      r.Handled? && r.archived == (id !in archiveFails) && r.posted != Err(NoContent)
  {
    var d := Decide(aliases, stored[id], codecs);
    PublishShape(service.failing, d.credentials.handle, d.sender, d.subject, d.date, d.body);
  }
}
