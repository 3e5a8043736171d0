# Email transparency bot — a Dafny model

The bot reads a Gmail inbox. For every message addressed to a known alias, it
publishes the email to that alias's Bluesky account as a thread, then asks
the mail service to archive the message. This project models the deterministic core of that pipeline and
proves what it promises.

The modelled core:

- **The post text normaliser** of `post_to_bluesky`. It composes
  `"📧 From: <sender>\nSubject: <subject>\nSent: <date>\n<body>"` and applies
  four rewrites in order:
  - strip the indentation of every line;
  - delete the lines made only of whitespace or invisible marks;
  - cap runs of newlines at two;
  - strip the whole string.

  Each regular-expression substitution is written as the left-to-right scan
  that Python's `re.sub` performs under `re.MULTILINE`. This includes the
  greedy run and the backtracking to the last line end for the blank-line
  pattern, whose class contains `\n` and so can swallow several blank lines
  in one match.
- **`split_text`**, which cuts the post text into windows of at most 300
  characters and breaks at a word boundary when that wastes fewer than 50
  characters.
- **`post_chunks`**, which posts the first chunk as the root and every later
  chunk as a reply to the previous post, with a five-second pause before
  each reply. It also covers the login step of `post_to_bluesky`.
- **The helpers of `bot.py`**:
  - the alias table read from the environment;
  - the four header lookups;
  - the depth-first walk that collects the text parts of a MIME tree;
  - the per-message loop of `process_inbox`: fetch, decide, post, archive,
    and never let one message stop the loop.

Strings are sequences of Unicode code points, so lengths agree with Python's
`len` (the e-mail emoji is one character).

The remote Bluesky client is a `Client` object that records each call it
receives: the login, each `send_post` with its `reply_to`, and each pause. A
post the client accepts is referred to by the number of the call that made
it. Which calls fail, and whether the login is accepted, are fixed when the
client is built, so every failure path can be stated.

The mail service is a `Mailbox` object. It holds the messages it can return
in full and the ids it refuses to archive, and it records each archive
request.

A consequence the proofs make visible: `post_to_bluesky` never returns 0.
After an accepted login the formatted text is never empty, so it always
splits into at least one chunk. The "no content" error is therefore
unreachable from the bot, and the bot's `num_posts == 0` branch is taken only
through an exception (`Threading.PublishShape`).

Files:

- `wrappers.dfy`: `Option` and `Result`.
- `pystrings.dfy`: the Python string operations the code relies on.
- `format.dfy`: the normaliser.
- `split.dfy`: `split_text`.
- `publish.dfy`: login and thread publishing.
- `aliases.dfy`, `headers.dfy`, `mime.dfy`, `inbox.dfy`: the `bot.py` core.

## Model

| member | source | states |
|---|---|---|
| PyStrings.IsSpace | bluesky_post.py:74-77 | exactly the code points for which `str.isspace()` is true: the characters `\s` matches in the blank-line class and those `str.strip()` removes |
| PyStrings.Join | bot.py:297 | `sep.join(ps)` puts one separator between each two strings, so its length is their total length plus one separator fewer than there are strings |
| PyStrings.Strip | bluesky_post.py:77 | `str.strip()` is the slice of the input between a whitespace-only prefix and a whitespace-only suffix, and it starts and ends with a non-whitespace character when it is non-empty |
| PyStrings.StripIdempotent | bluesky_post.py:144 | stripping a stripped chunk changes nothing |
| PyStrings.StripEmptyIff | bluesky_post.py:144 | a stripped piece is empty exactly when every character of the piece is whitespace |
| PyStrings.SplitCount | bot.py:87-88 | splitting an alias value on the bar character yields one more field than there are bars |
| PyStrings.SplitPiecesFree | bot.py:87 | no field of a one-character split contains the separator |
| PyStrings.JoinOfSplit | bot.py:87 | joining the fields of a split with the same separator gives back the value |
| PyStrings.SplitOfJoin | bot.py:87-89 | splitting a join of separator-free fields gives back exactly those fields |
| PyStrings.ReplaceIsJoinOfSplit | bot.py:142 | `s.replace(pat, repl)` equals `repl.join(s.split(pat))` for a non-empty pattern |
| PyStrings.ReplaceAbsent | bot.py:142 | replacing a pattern that does not occur leaves the text unchanged |
| PyStrings.SplitOn | bot.py:87 | `s.split(sep)` for a non-empty separator always gives at least one field |
| PyStrings.Replace | bot.py:142 | `s.replace(pat, repl)` with a replacement as long as a non-empty pattern keeps the length of the text |
| PyStrings.Lower | bot.py:187 | `str.lower()` keeps the length and lower-cases each character on its own (ASCII letters only) |
| PostFormat.Compose | bluesky_post.py:71 | the composed email opens with the `📧 From: ` header, a newline follows the sender at once, and the email ends with the body |
| PostFormat.StripIndentFrom | bluesky_post.py:72 | the indentation scan never lengthens the text, and from a line start its output does not open with a space or tab |
| PostFormat.BlankMatch | bluesky_post.py:74 | the regex search at one position (the greedy run of class characters, then backtracking to the last `$` inside it) finds a match only at a line start; the match covers only class characters and ends at a line end |
| PostFormat.DropBlankFrom | bluesky_post.py:74 | the substitution scans left to right, deleting each match and copying every other character, so it never lengthens the text |
| PostFormat.CollapseNewlines | bluesky_post.py:76 | capping newline runs never lengthens the text and keeps its first character |
| PostFormat.MatchOrVisible | bluesky_post.py:74 | at a line start, a non-empty line either is removed by the pattern or holds a character outside the class |
| PostFormat.DropBlankFirstLine | bluesky_post.py:74 | from a line start the output is empty, opens with a newline, or opens with a line holding a visible character |
| PostFormat.DropBlankNoBlank | bluesky_post.py:73-74 | from any position, no non-empty line after a newline in the output is made only of whitespace and invisible marks |
| PostFormat.DropBlankLinesNoBlank | bluesky_post.py:73-74 | after the blank-line rewrite no non-empty line, the first one included, is made only of whitespace and invisible marks |
| PostFormat.CollapseNoBlank | bluesky_post.py:76 | collapsing newline runs creates no such blank line |
| PostFormat.StripKeepsNoBlank | bluesky_post.py:77 | the final strip creates no such blank line |
| PostFormat.FormatPost | bluesky_post.py:71-77 | the post text starts with the `📧 From: ` header, has no leading or trailing whitespace, no line that opens with a space or tab, no run of three newlines, and no non-empty line made only of whitespace and invisible marks |
| PostFormat.FormatShape | bluesky_post.py:71-77 | the four rewrites applied in source order give text with those five properties |
| PostFormat.FormatKeepsMarker | bluesky_post.py:71-77 | no rewrite touches the header in front of the email |
| PostFormat.FormatOnlyDeletes | bluesky_post.py:72-77 | formatting only deletes: with whitespace and the invisible marks of the blank-line class removed, the post text and the composed email are the same sequence |
| PostFormat.StripIndentVisible | bluesky_post.py:72 | with whitespace and the invisible marks of the blank-line class removed, the text is the same before and after removing line indentation |
| PostFormat.DropBlankVisible | bluesky_post.py:74 | deleting blank lines deletes only characters of the blank-line class |
| PostFormat.CollapseVisible | bluesky_post.py:76 | with whitespace and the invisible marks of the blank-line class removed, the text is the same before and after collapsing newline runs |
| PostFormat.StripVisible | bluesky_post.py:77 | the final strip deletes only whitespace |
| PostFormat.StripIndentOnlyIndent | bluesky_post.py:72 | removing line indentation deletes spaces and tabs and nothing else: with every space and tab removed, the text is the same before and after |
| PostFormat.StripIndentKeepsClean | bluesky_post.py:72 | a text none of whose lines opens with a space or tab is returned unchanged |
| PostFormat.VisibleLineNoMatch | bluesky_post.py:74 | the blank-line pattern never matches at the start of a line that holds a character outside its class |
| PostFormat.DropBlankKeepsVisibleLine | bluesky_post.py:74 | every line that holds a character outside the class is copied whole: from its start, the output is the line's text followed by the output from its end |
| PostFormat.CollapseOnlyNewlines | bluesky_post.py:76 | collapsing newline runs deletes newlines and nothing else: with every newline removed, the text is the same before and after |
| PostFormat.CollapseAppend | bluesky_post.py:76 | a text that does not end in a newline and what follows it are collapsed independently |
| PostFormat.CollapseRun | bluesky_post.py:76 | a maximal run of k newlines becomes exactly two newlines when k is 3 or more and is kept as it is when k is 1 or 2, the text on each side being collapsed on its own |
| PostFormat.CollapseKeepsShortRuns | bluesky_post.py:76 | a text with no run of three newlines is returned unchanged |
| PostFormat.StripIndentClean | bluesky_post.py:72 | after the first rewrite no line opens with a space or tab |
| PostFormat.DropBlankClean | bluesky_post.py:74 | deleting blank lines opens no line with a space or tab |
| PostFormat.CollapseClean | bluesky_post.py:76 | collapsing newline runs opens no line with a space or tab |
| PostFormat.CollapseNoTriple | bluesky_post.py:76 | after the third rewrite there is no run of three newlines |
| PostFormat.StripKeepsNoIndent | bluesky_post.py:77 | the final strip keeps lines unindented, the first line included |
| PostFormat.StripKeepsNoTriple | bluesky_post.py:77 | the final strip creates no run of three newlines |
| Chunking.AfterLastSpace | bluesky_post.py:140 | `rfind(' ') + 1` is just after the last space of the window, or 0 when there is none |
| Chunking.Cut | bluesky_post.py:136-143 | one pass moves the cursor at most `max_chunk` places, never past the text, and always forward when `max_chunk >= 50` |
| Chunking.CutRule | bluesky_post.py:139-143 | a window reaching the end is kept whole; otherwise the cut is the hard one, with no space in the window's last 50 places, or it falls just after the window's last space, more than `max_chunk - 50` characters in |
| Chunking.NextChunk | bluesky_post.py:136-143 | the window and shortening of one loop pass compute the piece the cut rule chooses |
| Chunking.SplitText | bluesky_post.py:119-146 | the loop returns exactly the stripped pieces of the cut rule |
| Chunking.Pieces | bluesky_post.py:134-145 | the loop from a cursor cuts at most one piece per remaining character, or never ends |
| Chunking.Split | bluesky_post.py:119-146 | `split_text` gives at most one chunk per character of the text, or never returns |
| Chunking.SplitDefault | bluesky_post.py:119 | with the default `max_chunk` of 300 the split always returns |
| Chunking.PiecesTerminate | bluesky_post.py:134-145 | with `max_chunk >= 50` every pass advances the cursor, so the loop ends |
| Chunking.SplitTerminates | bluesky_post.py:134-145 | with `max_chunk >= 50` the split returns |
| Chunking.PiecesStall | bluesky_post.py:139-145 | with `max_chunk < 50`, a spaceless window that does not reach the end leaves the cursor in place, at any cursor, and the loop never ends from there |
| Chunking.SplitStalls | bluesky_post.py:132-145 | in particular, when the first window is such a window, `split_text` never returns |
| Chunking.PiecesTile | bluesky_post.py:136-145 | the untrimmed pieces, concatenated in order, are exactly the text |
| Chunking.PiecesBounded | bluesky_post.py:136-143 | every untrimmed piece is non-empty and at most `max_chunk` long |
| Chunking.PieceAt | bluesky_post.py:136-145 | the i-th piece is the window the cut rule chooses at its offset, and it is the last piece exactly when its window reaches the end |
| Chunking.PieceFirst | bluesky_post.py:136-145 | the first piece is the first window, and it is the only piece exactly when it reaches the end |
| Chunking.ChunksBounded | bluesky_post.py:144 | each chunk is the strip of its piece, so it is at most `max_chunk` long |
| Chunking.SplitEmpty | bluesky_post.py:132-146 | the empty text gives no chunk |
| Chunking.SplitShort | bluesky_post.py:133-146 | a non-empty text of at most `max_chunk` characters gives exactly its strip |
| Threading.Client.constructor | bluesky_post.py:65 | a new client has made no call |
| Threading.Client.Login | bluesky_post.py:66 | the login succeeds exactly when the service accepts it, and it is recorded |
| Threading.Client.SendPost | bluesky_post.py:105-106 | each `send_post` is recorded with its text and `reply_to`; it returns a reference to the new post, or fails as the service decides |
| Threading.Client.Sleep | bluesky_post.py:109 | a pause is recorded and nothing else changes |
| Threading.Sent | bluesky_post.py:105-106 | a call fails exactly when the service fails it, and a reference names the call that made the post |
| Threading.FirstFailure | bluesky_post.py:104-117 | the first failing call of a thread: every earlier call succeeds and it fails |
| Threading.Attempted | bluesky_post.py:104-117 | a thread of n chunks makes at least one and at most n calls |
| Threading.PostChunks | bluesky_post.py:83-117 | the result is "no content", a send failure or the chunk count; the calls made are exactly the thread up to and including the first failing call, with a pause before each reply |
| Threading.PostThread | bluesky_post.py:104-117 | the posting loop sends the root, then each reply with the previous post as parent and the root as root, and stops at the first failure |
| Threading.PostToBluesky | bluesky_post.py:64-81 | a rejected login stops everything; otherwise the formatted email is split and posted, with outcome and call trace as specified |
| Threading.LoginFailureStops | bluesky_post.py:64-69 | a rejected login raises before any formatting and makes no post |
| Threading.PublishShape | bluesky_post.py:64-117 | after an accepted login there is always at least one chunk and never a "no content" error; the trace is the login then the thread; the result is the chunk count exactly when no call fails, and it equals the number of posts made |
| Threading.FormattedHasChunks | bluesky_post.py:100-103 | the formatted email always splits into at least one chunk |
| Threading.SplitNonEmpty | bluesky_post.py:100-103 | a non-empty text splits into at least one chunk |
| Threading.NoContentIff | bluesky_post.py:100-103 | the "no content" error is raised exactly for the empty text, and then no call is made |
| Threading.ThreadLength | bluesky_post.py:104-112 | u posts take 2u − 1 events: one per post and one pause per reply |
| Threading.ThreadAt | bluesky_post.py:104-112 | event 2j is the j-th post, and event 2j − 1 is the five-second pause before it |
| Threading.ThreadLinks | bluesky_post.py:104-117 | posts come in chunk order; the root has no `reply_to`; each reply names the reference returned for the previous post as parent and the root's reference as root; only the last call can have failed; one pause precedes each reply |
| Threading.ThreadPostCount | bluesky_post.py:104-114 | a thread of u posts makes exactly u `send_post` calls |
| Aliases.Fields | bot.py:87 | an alias value splits into one more field than it has bar separators |
| Aliases.LoadAliasMappings | bot.py:74-94 | the loop over the environment builds the alias table |
| Aliases.DefinesIff | bot.py:86-88 | an entry counts exactly when its name starts with `ALIAS_` and its value has exactly two separators, so a password containing a bar drops the entry |
| Aliases.IgnoredEntry | bot.py:86-88 | an entry that does not count leaves the table unchanged |
| Aliases.Mappings | bot.py:84-93 | the alias table holds at most one alias per environment entry |
| Aliases.MappingsDefined | bot.py:85-93 | an alias is in the table exactly when some entry defines it |
| Aliases.MappingsLastWins | bot.py:85-93 | a mapped alias holds the credentials of the last entry that defines it, and no later entry defines it again |
| Aliases.AliasRoundTrip | bot.py:86-93 | an `ALIAS_` entry built from separator-free fields maps exactly that alias to exactly that handle and password |
| Headers.HeaderValue | bot.py:186-189 | a non-empty result is the value of a header whose lower-cased name is the one asked for |
| Headers.HeaderValueFirst | bot.py:186-189 | when header i is the first whose lower-cased name matches, its value is returned |
| Headers.HeaderValueMissing | bot.py:186-189 | when no header name matches, the result is the empty string |
| Headers.FindHeader | bot.py:186-189 | the search loop with early return finds that value |
| Headers.GetRecipient | bot.py:174-189 | the value of the first `To` header in any letter case, or empty |
| Headers.GetSender | bot.py:191-206 | the value of the first `From` header in any letter case, or empty |
| Headers.GetSubject | bot.py:208-223 | the value of the first `Subject` header in any letter case, or empty |
| Headers.GetDate | bot.py:225-240 | the value of the first `Date` header in any letter case, or empty |
| Headers.HeaderValueCaseBlind | bot.py:187 | changing only the letter case of a header name changes no lookup |
| Headers.HeaderValueFirstWins | bot.py:186-189 | headers after the first match are never looked at |
| Mime.LeafParts | bot.py:131-147 | a leaf adds at most one text; it adds none exactly when it is not plain text or HTML, or when its data is empty; it raises exactly when it is plain text or HTML with no `body` key or with non-empty data that does not decode; a plain-text leaf adds its decoded data |
| Mime.ExtractAllTextParts | bot.py:110-148 | the recursive walk appends the texts of the tree, depth first, to the accumulator, or raises |
| Mime.TextParts | bot.py:110-148 | a walk that does not raise yields exactly one text per plain or HTML leaf with data |
| Mime.ForestParts | bot.py:127-130 | the same count over a list of sibling parts |
| Mime.TextPartsRaise | bot.py:110-148 | the walk raises exactly when some leaf of the tree raises |
| Mime.ForestPartsRaise | bot.py:127-130 | a list of sibling parts raises exactly when one of them does |
| Mime.ForestAppend | bot.py:127-130 | siblings are visited in order: the texts of `a + b` are those of `a` followed by those of `b` |
| Mime.PlainIgnoresRecipient | bot.py:131-142 | a tree without HTML leaves gives the same texts whatever the recipient: only HTML has the address replaced |
| Mime.ForestIgnoresRecipient | bot.py:127-142 | the same over a list of sibling parts |
| Mime.HtmlLeaf | bot.py:136-147 | an HTML leaf is converted after hidden blocks are removed and the address is replaced: the cleaned HTML is cut at each occurrence of the address and the pieces are joined with the placeholder; an empty address puts the placeholder before every character and at the end |
| Mime.HtmlLeafUntouched | bot.py:136-147 | where the cleaned HTML does not mention the address, the converter sees it unchanged |
| Inbox.Mailbox.constructor | bot.py:281 | a new mailbox has received no archive request |
| Inbox.Mailbox.Fetch | bot.py:283-286 | a full fetch returns the stored message, or fails |
| Inbox.Mailbox.Archive | bot.py:305-308 | every archive request is recorded, and it succeeds exactly when the service does not refuse it; a refused request leaves the message in the inbox |
| Inbox.HandleMessage | bot.py:282-312 | one pass of the loop reports what the decision prescribes, and it makes one archive request exactly when it posted the message |
| Inbox.ProcessInbox | bot.py:281-312 | one report per inbox message, each fixed by that message alone; an archive request is made for exactly the posted messages, in inbox order, and each report records whether its request succeeded, which it does unless the service refuses it |
| Inbox.Decide | bot.py:286-310 | a fetched message is skipped exactly when its `To` header names no alias, ends in an error exactly when it has no headers or its MIME walk raises, and is otherwise posted with its recipient's credentials, the values of its `From`, `Subject` and `Date` headers, and the text parts joined with newlines |
| Inbox.DecideFails | bot.py:286-312 | a message ends in an error exactly when it has no headers, or its `To` header names an alias and some text leaf of its MIME tree cannot be read |
| Inbox.ArchiveRequestIff | bot.py:298-308 | an archive request is made for a message exactly when it was fetched and posted, whatever the posting returned or raised |
| Inbox.PostedIsArchived | bot.py:298-308 | a posted message is archived unless the service refuses the archive, whether or not its post failed, and its post never ends with a "no content" error |

## Left out

- Gmail OAuth, `token.pickle`, `credentials.json`, the service build and the inbox listing (bot.py:150-172, 268-279) are I/O. The inbox is a sequence of message ids, and the full messages are a map held by `Mailbox`.
- Logging and `print` calls have no behaviour to verify.
- `base64.urlsafe_b64decode` with UTF-8 decoding, `remove_hidden_blocks` and `html2text` are foreign code or a backtracking regex. They are function-valued parameters (`Mime.Codecs`), and a decoding failure is `None`.
- `time.sleep` is recorded as a `Slept(5)` event and not waited for.
- atproto's `Client`, `send_post` and `create_strong_ref` are remote calls. `Threading.Client` replaces them, with a reference being the number of the call that made the post. Failures are fixed in advance by a set of call numbers and a login flag.
- The exception messages and the exception types themselves are not modelled. `PostError` and `Report` name which path was taken.
- The formatting exception handler (bluesky_post.py:78-80) is not modelled, because the rewrites are total on strings.
- A message whose `payload` key is missing is not modelled. A missing `headers` key is modelled, as an error for that message.
- A header entry always has both a `name` and a `value`. In the source a header without `name` raises `KeyError` (bot.py:187-188), and the loop logs that message as an error; the model leaves that case out because the Gmail API always supplies both keys.
- Chunking.SplitText: requires `max_chunk >= 50`, because for smaller values the source loop can run forever (`Chunking.SplitStalls`). The only caller passes 300. The functional model `Chunking.Split` covers every non-negative `max_chunk` and returns `None` when the loop would not end.
- Chunking.Split: a negative `max_chunk` is not modelled, because `max_chunk` is a `nat`. In the source it would make the window slice end count from the end of the text. No caller passes one.
- Threading.PostChunks: the posting loop is the separate method `Threading.PostThread`, so each half has a small proof. Together they do what `post_chunks` does.
- PyStrings.Lower: lower-cases ASCII letters only, not full Unicode. The header lookups are exact all the same. The only non-ASCII character whose `str.lower()` is an ASCII letter is the Kelvin sign, which lowers to `k`, and none of `to`, `from`, `subject` and `date` contains `k`.
- Mime.ExtractAllTextParts: the shared mutable `parts` list is passed in and returned as a value. When a child raises, the exception discards the list, so its aliasing is not observable.
- The order of `os.environ` is taken as given: the environment is the sequence of its entries in iteration order.
