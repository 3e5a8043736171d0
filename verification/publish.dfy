/**
 * `post_to_bluesky` and `post_chunks`: log in, format the email, split the
 * post text into chunks and publish them as one thread. The first chunk is
 * the root post; every later chunk replies to the previous post, names the
 * root as the thread's root, and is preceded by a five-second pause.
 *
 * The remote service is a `Client` object that records every call it
 * receives. A post it accepts is referred to by the number of the call that
 * created it; which calls fail, and whether the login is accepted, is fixed
 * when the client is made.
 */
module Threading {
  import opened Wrappers
  import opened PyStrings
  import opened PostFormat
  import opened Chunking

  /** The pause before each reply, in seconds. */
  const PauseSeconds: nat := 5

  /** A strong reference to an accepted post: the number of the `send_post`
      call that created it. */
  datatype Ref = Ref(call: nat)

  /** The `reply_to` of a reply: the post it answers and the thread's root. */
  datatype ReplyRef = ReplyRef(parent: Ref, root: Ref)

  /** What the client saw, in order. A `Posted` event whose `result` is
      `None` is a `send_post` call that raised. */
  datatype Event =
    | LoginAttempt(handle: string, accepted: bool)
    | Posted(text: string, replyTo: Option<ReplyRef>, result: Option<Ref>)
    | Slept(seconds: nat)

  /** Why a thread was not published; each is an exception in the source. */
  datatype PostError = LoginFailed | NoContent | SendFailed

  /** The remote client: a recorder of calls whose answers are fixed by
      `acceptsLogin` and by the set of call numbers that fail. */
  class Client {
    const acceptsLogin: bool
    const failing: set<nat>
    var trace: seq<Event>
    var calls: nat

    constructor (acceptsLogin: bool, failing: set<nat>)
      ensures this.acceptsLogin == acceptsLogin && this.failing == failing
      ensures trace == [] && calls == 0
    {
      this.acceptsLogin := acceptsLogin;
      this.failing := failing;
      trace := [];
      calls := 0;
    }

    /** `client.login(handle, password)`; `false` when it raises. */
    method Login(handle: string, password: string) returns (ok: bool)
      modifies this
      ensures ok == acceptsLogin
      ensures trace == old(trace) + [LoginAttempt(handle, ok)] && calls == old(calls)
    {
      ok := acceptsLogin;
      trace := trace + [LoginAttempt(handle, ok)];
    }

    /** `client.send_post(text=..., reply_to=...)` followed by
        `create_strong_ref`: the reference of the new post, or `None`
        when the call raises. Every call is numbered, failed ones too. */
    method SendPost(text: string, replyTo: Option<ReplyRef>) returns (r: Option<Ref>)
      modifies this
      ensures r == Sent(failing, old(calls))
      ensures trace == old(trace) + [Posted(text, replyTo, r)] && calls == old(calls) + 1
    {
      r := if calls in failing then None else Some(Ref(calls));
      trace := trace + [Posted(text, replyTo, r)];
      calls := calls + 1;
    }

    /** `time.sleep(seconds)`, recorded and not waited for. */
    method Sleep(seconds: nat)
      modifies this
      ensures trace == old(trace) + [Slept(seconds)] && calls == old(calls)
    {
      trace := trace + [Slept(seconds)];
    }
  }

  /** The answer of call number `call`. */
  function Sent(failing: set<nat>, call: nat): (r: Option<Ref>)
    ensures r.None? <==> call in failing
    ensures r.Some? ==> r.value.call == call
  {
    if call in failing then None else Some(Ref(call))
  }

  /** The `j`-th post of a thread whose calls are numbered from `base`:
      the root has no `reply_to`; a reply names the previous post as
      parent and the root as root. */
  function PostEvent(chunks: seq<string>, base: nat, failing: set<nat>, j: nat): Event
    requires j < |chunks|
  {
    Posted(chunks[j],
           if j == 0 then None else Some(ReplyRef(Ref(base + j - 1), Ref(base))),
           Sent(failing, base + j))
  }

  /** The events of the first `u` posts of a thread: each post after the
      root is preceded by a pause. */
  function Thread(chunks: seq<string>, base: nat, failing: set<nat>, u: nat): seq<Event>
    requires u <= |chunks|
  {
    if u == 0 then []
    else
      var pause := if u == 1 then [] else [Slept(PauseSeconds)];
      Thread(chunks, base, failing, u - 1) + pause + [PostEvent(chunks, base, failing, u - 1)]
  }

  /** Index of the first of `n` posts whose call fails, or `n` when none does. */
  function FirstFailure(failing: set<nat>, base: nat, n: nat): (k: nat)
    ensures k <= n
    ensures forall call :: base <= call < base + k ==> call !in failing
    ensures k < n ==> base + k in failing
  {
    if n == 0 then 0
    else
      var k := FirstFailure(failing, base, n - 1);
      if k < n - 1 then k
      else if base + n - 1 in failing then n - 1
      else n
  }

  /** How many `send_post` calls a thread of `chunks` makes when its calls
      are numbered from `base`: all of them, or up to the first that fails. */
  function Attempted(chunks: seq<string>, base: nat, failing: set<nat>): (u: nat)
    ensures u <= |chunks|
    ensures chunks != [] ==> u >= 1
  {
    var k := FirstFailure(failing, base, |chunks|);
    if k < |chunks| then k + 1 else k
  }

  /** What `post_chunks` returns or raises. */
  function Outcome(chunks: seq<string>, base: nat, failing: set<nat>): Result<nat, PostError>
  {
    if chunks == [] then Err(NoContent)
    else if FirstFailure(failing, base, |chunks|) < |chunks| then Err(SendFailed)
    else Ok(|chunks|)
  }

  /** `post_chunks`: split the text, refuse an empty result, then post
      the chunks as a thread. */
  method PostChunks(postText: string, client: Client) returns (r: Result<nat, PostError>)
    modifies client
    ensures var chunks := SplitDefault(postText);
      var u := Attempted(chunks, old(client.calls), client.failing);
      && r == Outcome(chunks, old(client.calls), client.failing)
      && client.calls == old(client.calls) + u
      && client.trace == old(client.trace) + Thread(chunks, old(client.calls), client.failing, u)
  {
    var chunks := SplitText(postText, MaxChunk);
    if chunks == [] {
      assert client.trace + [] == client.trace;
      return Err(NoContent);
    }
    r := PostThread(chunks, client);
  }

  /** The posting part of `post_chunks`: the first chunk as the root, each
      later chunk as a reply after a pause, stopping at the first call that
      fails. */
  method PostThread(chunks: seq<string>, client: Client) returns (r: Result<nat, PostError>)
    requires chunks != []
    modifies client
    ensures var u := Attempted(chunks, old(client.calls), client.failing);
      && r == Outcome(chunks, old(client.calls), client.failing)
      && client.calls == old(client.calls) + u
      && client.trace == old(client.trace) + Thread(chunks, old(client.calls), client.failing, u)
  {
    ghost var base := client.calls;
    ghost var t0 := client.trace;
    ghost var n := |chunks|;
    ghost var k := FirstFailure(client.failing, base, n);
    var rootPost := client.SendPost(chunks[0], None);
    assert Thread(chunks, base, client.failing, 1) == [PostEvent(chunks, base, client.failing, 0)];
    if rootPost.None? {
      assert base in client.failing && k == 0;
      return Err(SendFailed);
    }
    var rootRef := rootPost.value;
    var parentRef := rootRef;
    var i := 1;
    while i < |chunks|
      invariant 1 <= i <= n && i <= k
      invariant rootRef == Ref(base) && parentRef == Ref(base + i - 1)
      invariant client.calls == base + i
      invariant client.trace == t0 + Thread(chunks, base, client.failing, i)
    {
      client.Sleep(PauseSeconds);
      var replyTo := ReplyRef(parentRef, rootRef);
      var parentPost := client.SendPost(chunks[i], Some(replyTo));
      ThreadStep(chunks, base, client.failing, i, t0);
      if parentPost.None? {
        assert base + i in client.failing && k == i;
        return Err(SendFailed);
      }
      assert base + i !in client.failing && k != i;
      parentRef := parentPost.value;
      i := i + 1;
    }
    r := Ok(|chunks|);
  }

  /** One more reply extends the recorded thread by a pause and a post. */
  lemma ThreadStep(chunks: seq<string>, base: nat, failing: set<nat>, i: nat, t0: seq<Event>)
    requires 1 <= i < |chunks|
    ensures t0 + Thread(chunks, base, failing, i) + [Slept(PauseSeconds)]
      + [Posted(chunks[i], Some(ReplyRef(Ref(base + i - 1), Ref(base))), Sent(failing, base + i))]
      == t0 + Thread(chunks, base, failing, i + 1)
  {
  }

  /** What `post_to_bluesky` returns or raises when the service answers the
      login with `acceptsLogin` and fails the calls in `failing`. */
  function PublishOutcome(acceptsLogin: bool, failing: set<nat>,
                          sender: string, subject: string, date: string, body: string): Result<nat, PostError>
  {
    if !acceptsLogin then Err(LoginFailed)
    else Outcome(SplitDefault(FormatPost(sender, subject, date, body)), 0, failing)
  }

  /** The calls `post_to_bluesky` makes on its client, in order. */
  function PublishTrace(acceptsLogin: bool, failing: set<nat>, handle: string,
                        sender: string, subject: string, date: string, body: string): seq<Event>
  {
    if !acceptsLogin then [LoginAttempt(handle, false)]
    else
      var chunks := SplitDefault(FormatPost(sender, subject, date, body));
      [LoginAttempt(handle, true)] + Thread(chunks, 0, failing, Attempted(chunks, 0, failing))
  }

  /** `post_to_bluesky` on a fresh client: log in, format the email and post
      it as a thread. */
  method PostToBluesky(acceptsLogin: bool, failing: set<nat>,
                       handle: string, password: string,
                       sender: string, subject: string, date: string, body: string)
    returns (r: Result<nat, PostError>, client: Client)
    ensures fresh(client) && client.failing == failing
    ensures r == PublishOutcome(acceptsLogin, failing, sender, subject, date, body)
    ensures client.trace == PublishTrace(acceptsLogin, failing, handle, sender, subject, date, body)
  {
    client := new Client(acceptsLogin, failing);
    var ok := client.Login(handle, password);
    if !ok {
      return Err(LoginFailed), client;
    }
    var postText := FormatPost(sender, subject, date, body);
    ghost var chunks := SplitDefault(postText);
    assert client.calls == 0 && client.trace == [LoginAttempt(handle, true)];
    r := PostChunks(postText, client);
    assert client.trace == [LoginAttempt(handle, true)] + Thread(chunks, 0, failing, Attempted(chunks, 0, failing));
  }

  /** A rejected login ends the call before any formatting or posting: the
      login is the only call made. */
  lemma LoginFailureStops(failing: set<nat>, handle: string,
                          sender: string, subject: string, date: string, body: string)
    ensures PublishOutcome(false, failing, sender, subject, date, body) == Err(LoginFailed)
    ensures PostCount(PublishTrace(false, failing, handle, sender, subject, date, body)) == 0
  {
  }

  /** After an accepted login, the formatted email always yields a thread:
      `post_to_bluesky` never reports an empty text. It returns the number
      of chunks exactly when no call fails, and that number is the number
      of posts made. Every call before the last one succeeded. */
  lemma PublishShape(failing: set<nat>, handle: string,
                     sender: string, subject: string, date: string, body: string)
    ensures var chunks := SplitDefault(FormatPost(sender, subject, date, body));
      var r := PublishOutcome(true, failing, sender, subject, date, body);
      var t := PublishTrace(true, failing, handle, sender, subject, date, body);
      var u := Attempted(chunks, 0, failing);
      && chunks != []
      && r != Err(NoContent)
      && 1 <= u <= |chunks| && u <= FirstFailure(failing, 0, |chunks|) + 1
      && t == [LoginAttempt(handle, true)] + Thread(chunks, 0, failing, u)
      && (r.Ok? <==> forall call :: 0 <= call < |chunks| ==> call !in failing)
      && (r.Ok? ==> r.value == |chunks| && PostCount(t) == r.value)
  {
    var chunks := SplitDefault(FormatPost(sender, subject, date, body));
    FormattedHasChunks(sender, subject, date, body);
    var u := Attempted(chunks, 0, failing);
    var t := [LoginAttempt(handle, true)] + Thread(chunks, 0, failing, u);
    ThreadPostCount(chunks, 0, failing, u);
    PostCountAppend([LoginAttempt(handle, true)], Thread(chunks, 0, failing, u));
  }

  // ---------------------------------------------------------------------
  // The shape of a thread

  /** The formatted email is never empty, so it always yields a chunk. */
  lemma FormattedHasChunks(sender: string, subject: string, date: string, body: string)
    ensures Split(FormatPost(sender, subject, date, body), MaxChunk).Some?
    ensures |SplitDefault(FormatPost(sender, subject, date, body))| >= 1
  {
    var text := FormatPost(sender, subject, date, body);
    assert |text| > 0;
    SplitNonEmpty(text, MaxChunk);
  }

  /** A non-empty text yields at least one chunk. */
  lemma SplitNonEmpty(text: string, m: nat)
    requires m >= BreakSlack && |text| > 0
    ensures Split(text, m).Some? && |Split(text, m).value| >= 1
  {
    PiecesTerminate(text, 0, m);
    PieceFirst(text, 0, m);
  }

  /** `post_chunks` raises its "no content" error exactly for the empty
      text, and then it makes no call at all. */
  lemma NoContentIff(text: string, base: nat, failing: set<nat>)
    ensures Outcome(SplitDefault(text), base, failing) == Err(NoContent) <==> text == []
    ensures text == [] ==> Thread(SplitDefault(text), base, failing, Attempted(SplitDefault(text), base, failing)) == []
  {
    if text != [] {
      SplitNonEmpty(text, MaxChunk);
    }
  }

  /** `u` posts take `2u - 1` events: one per post and one pause per reply. */
  lemma {:induction false} ThreadLength(chunks: seq<string>, base: nat, failing: set<nat>, u: nat)
    requires 1 <= u <= |chunks|
    ensures |Thread(chunks, base, failing, u)| == 2 * u - 1
    decreases u
  {
    if u > 1 {
      ThreadLength(chunks, base, failing, u - 1);
    }
  }

  /** Event `2j` is the `j`-th post and event `2j - 1` the pause before it. */
  lemma {:induction false} ThreadAt(chunks: seq<string>, base: nat, failing: set<nat>, u: nat, j: nat)
    requires u <= |chunks| && j < u
    ensures |Thread(chunks, base, failing, u)| == 2 * u - 1
    ensures Thread(chunks, base, failing, u)[2 * j] == PostEvent(chunks, base, failing, j)
    ensures j > 0 ==> Thread(chunks, base, failing, u)[2 * j - 1] == Slept(PauseSeconds)
    decreases u
  {
    ThreadLength(chunks, base, failing, u);
    if j < u - 1 {
      ThreadAt(chunks, base, failing, u - 1, j);
    }
  }

  /** In a thread cut at the first failure, the posts come in chunk order;
      the root has no `reply_to`; every reply names the post before it as
      parent and the root as root; and only the last post can have
      failed. */
  lemma ThreadLinks(chunks: seq<string>, base: nat, failing: set<nat>, u: nat)
    requires 1 <= u <= |chunks| && u <= FirstFailure(failing, base, |chunks|) + 1
    ensures var t := Thread(chunks, base, failing, u);
      && |t| == 2 * u - 1
      && t[0].Posted? && t[0].replyTo.None?
      && (forall j :: 0 <= j < u ==> t[2 * j].Posted? && t[2 * j].text == chunks[j])
      && (forall j :: 0 <= j < u - 1 ==> t[2 * j].result.Some?)
      && (forall j :: 1 <= j < u ==>
            t[2 * j - 1] == Slept(PauseSeconds)
            && t[0].result.Some? && t[2 * j - 2].Posted? && t[2 * j - 2].result.Some?
            && t[2 * j].replyTo == Some(ReplyRef(t[2 * j - 2].result.value, t[0].result.value)))
  {
    var t := Thread(chunks, base, failing, u);
    ThreadLength(chunks, base, failing, u);
    ThreadAt(chunks, base, failing, u, 0);
    forall j | 0 <= j < u
      ensures t[2 * j].Posted? && t[2 * j].text == chunks[j]
      ensures j < u - 1 ==> t[2 * j].result == Some(Ref(base + j))
    {
      ThreadAt(chunks, base, failing, u, j);
    }
    forall j | 1 <= j < u
      ensures t[2 * j - 1] == Slept(PauseSeconds)
      ensures t[0].result.Some? && t[2 * j - 2].Posted? && t[2 * j - 2].result.Some?
      ensures t[2 * j].replyTo == Some(ReplyRef(t[2 * j - 2].result.value, t[0].result.value))
    {
      ThreadAt(chunks, base, failing, u, j);
      ThreadAt(chunks, base, failing, u, j - 1);
    }
  }

  /** The number of `Posted` events of a trace. */
  function PostCount(t: seq<Event>): (n: nat)
    ensures n <= |t|
  {
    if t == [] then 0 else (if t[0].Posted? then 1 else 0) + PostCount(t[1..])
  }

  lemma {:induction false} PostCountAppend(a: seq<Event>, b: seq<Event>)
    ensures PostCount(a + b) == PostCount(a) + PostCount(b)
    decreases |a|
  {
    if a == [] {
      assert a + b == b;
    } else {
      PostCountAppend(a[1..], b);
      assert (a + b)[1..] == a[1..] + b;
    }
  }

  /** A thread of `u` posts makes exactly `u` `send_post` calls. */
  lemma {:induction false} ThreadPostCount(chunks: seq<string>, base: nat, failing: set<nat>, u: nat)
    requires u <= |chunks|
    ensures PostCount(Thread(chunks, base, failing, u)) == u
    decreases u
  {
    if u > 0 {
      ThreadPostCount(chunks, base, failing, u - 1);
      var pause: seq<Event> := if u == 1 then [] else [Slept(PauseSeconds)];
      var post := [PostEvent(chunks, base, failing, u - 1)];
      PostCountAppend(Thread(chunks, base, failing, u - 1), pause);
      PostCountAppend(Thread(chunks, base, failing, u - 1) + pause, post);
      assert PostCount(post) == 1;
      assert PostCount(pause) == 0;
    }
  }
}
