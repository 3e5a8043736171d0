/**
 * The text normaliser of `post_to_bluesky`: the email is composed into one
 * string behind a "📧 From:" header, then four rewrites run in order —
 * strip the indentation of every line, delete the lines made only of
 * whitespace or invisible marks, cap blank-line runs at one blank line,
 * and strip the whole string. Each rewrite is written as the left-to-right
 * scan that Python's `re.sub` (with `re.MULTILINE`) or `str.strip` performs.
 */
module PostFormat {
  import opened Wrappers
  import opened PyStrings

  /** The header in front of every email: U+1F4E7 (the e-mail emoji), then " From: ". */
  const Marker: string := "\U{1F4E7} From: "

  /** The email as one string: the marker and the sender, then the subject,
      the date and the body on lines of their own. */
  function Compose(sender: string, subject: string, date: string, body: string): (r: string)
    ensures Marker <= r
    ensures |r| > |Marker| + |sender| && r[|Marker| + |sender|] == '\n'
    ensures |body| <= |r| && r[|r| - |body|..] == body
  {
    Marker + sender + "\nSubject: " + subject + "\nSent: " + date + "\n" + body
  }

  predicate IsIndent(c: char)
  {
    c == ' ' || c == '\t'
  }

  // ---------------------------------------------------------------------
  // Step 1: delete the run of spaces and tabs at the start of every line

  /** Deletes the spaces and tabs that open each line; `atLineStart` says
      whether the scan stands at the start of a line. */
  function StripIndentFrom(s: string, atLineStart: bool): (r: string)
    ensures |r| <= |s|
    ensures atLineStart && r != [] ==> !IsIndent(r[0])
    decreases |s|
  {
    if s == [] then []
    else if atLineStart && IsIndent(s[0]) then StripIndentFrom(s[1..], true)
    else [s[0]] + StripIndentFrom(s[1..], s[0] == '\n')
  }

  function StripIndent(s: string): string
  {
    StripIndentFrom(s, true)
  }

  // ---------------------------------------------------------------------
  // Step 2: delete every match of "line start, one or more blank-class
  // characters, line end" (multi-line mode, so `^`/`$` match at newlines)

  /** The invisible marks listed in the character class: zero-width space,
      non-joiner and joiner, byte-order mark, soft hyphen, combining
      grapheme joiner. */
  predicate Invisible(c: char)
  {
    ('\U{200b}' <= c <= '\U{200d}') || c == '\U{feff}' || c == '\U{ad}' || c == '\U{34f}'
  }

  /** A character of the blank-line class (`\s` includes the newline). */
  predicate InBlankClass(c: char)
  {
    IsSpace(c) || Invisible(c)
  }

  /** `^` under re.MULTILINE. */
  predicate LineStart(s: string, p: nat)
  {
    p == 0 || (0 < p <= |s| && s[p - 1] == '\n')
  }

  /** `$` under re.MULTILINE. */
  predicate LineEnd(s: string, e: nat)
  {
    e == |s| || (e < |s| && s[e] == '\n')
  }

  /** End of the greedy run of class characters that starts at `p`. */
  function ClassRunEnd(s: string, p: nat): (q: nat)
    requires p <= |s|
    ensures p <= q <= |s|
    ensures forall k :: p <= k < q ==> InBlankClass(s[k])
    ensures q == |s| || !InBlankClass(s[q])
    decreases |s| - p
  {
    if p < |s| && InBlankClass(s[p]) then ClassRunEnd(s, p + 1) else p
  }

  /** Backtracking from the end of the greedy run: the last position in
      `(p, q]` where `$` matches. */
  function LastLineEnd(s: string, p: nat, q: nat): (e: Option<nat>)
    requires p <= q <= |s|
    ensures e.Some? ==> p < e.value <= q && LineEnd(s, e.value)
    ensures e.Some? ==> forall k :: e.value < k <= q ==> !LineEnd(s, k)
    ensures e.None? ==> forall k :: p < k <= q ==> !LineEnd(s, k)
    decreases q
  {
    if q <= p then None
    else if LineEnd(s, q) then Some(q)
    else LastLineEnd(s, p, q - 1)
  }

  /** Where a match of the blank-line pattern that starts at `p` ends, if
      one does: it starts at a line start, spans class characters only and
      ends at a line end (possibly after several blank lines). */
  function BlankMatch(s: string, p: nat): (e: Option<nat>)
    requires p < |s|
    ensures e.Some? ==> LineStart(s, p) && p < e.value <= |s| && LineEnd(s, e.value)
    ensures e.Some? ==> forall k :: p <= k < e.value ==> InBlankClass(s[k])
  {
    if LineStart(s, p) then LastLineEnd(s, p, ClassRunEnd(s, p)) else None
  }

  /** The substitution's output for the part of `s` from position `i` on. */
  function DropBlankFrom(s: string, i: nat): (r: string)
    requires i <= |s|
    ensures |r| <= |s| - i
    decreases |s| - i
  {
    if i == |s| then []
    else match BlankMatch(s, i)
      case Some(e) => DropBlankFrom(s, e)
      case None => [s[i]] + DropBlankFrom(s, i + 1)
  }

  function DropBlankLines(s: string): string
  {
    DropBlankFrom(s, 0)
  }

  // ---------------------------------------------------------------------
  // Step 3: replace every run of three or more newlines by two newlines

  /** Length of the run of newlines that opens `s`. */
  function NewlineRun(s: string): (k: nat)
    ensures k <= |s|
    ensures forall j :: 0 <= j < k ==> s[j] == '\n'
    ensures k == |s| || s[k] != '\n'
  {
    if s != [] && s[0] == '\n' then 1 + NewlineRun(s[1..]) else 0
  }

  function Newlines(n: nat): (r: string)
    ensures |r| == n && forall j :: 0 <= j < n ==> r[j] == '\n'
  {
    if n == 0 then [] else "\n" + Newlines(n - 1)
  }

  /** Every maximal run of three or more newlines becomes two newlines;
      shorter runs are kept. */
  function CollapseNewlines(s: string): (r: string)
    ensures |r| <= |s|
    ensures |s| > 0 ==> |r| > 0 && r[0] == s[0]
    decreases |s|
  {
    if s == [] then []
    else if s[0] == '\n' then
      var k := NewlineRun(s);
      Newlines(if k >= 3 then 2 else k) + CollapseNewlines(s[k..])
    else [s[0]] + CollapseNewlines(s[1..])
  }

  // ---------------------------------------------------------------------
  // The whole normaliser and the invariants of its output

  /** No line after a newline opens with a space or a tab. */
  predicate NoIndentAfterNewline(t: string)
  {
    forall k :: 0 < k < |t| && t[k - 1] == '\n' ==> !IsIndent(t[k])
  }

  /** No line, the first one included, opens with a space or a tab. */
  predicate NoIndentedLine(t: string)
  {
    (t != [] ==> !IsIndent(t[0])) && NoIndentAfterNewline(t)
  }

  /** Three newlines in a row start at `k`. */
  predicate TripleAt(t: string, k: nat)
    requires k + 2 < |t|
  {
    t[k] == '\n' && t[k + 1] == '\n' && t[k + 2] == '\n'
  }

  /** No run of three newlines. */
  predicate NoTripleNewline(t: string)
  {
    forall k: nat :: k + 2 < |t| ==> !TripleAt(t, k)
  }

  /** The line that opens `t` is not empty and holds a character outside
      the blank-line class. */
  predicate LineHasVisible(t: string)
    decreases |t|
  {
    t != [] && t[0] != '\n' && (!InBlankClass(t[0]) || LineHasVisible(t[1..]))
  }

  /** Every non-empty line after a newline holds a visible character. */
  predicate NoBlankAfterNewline(t: string)
  {
    forall k :: 0 < k < |t| && t[k - 1] == '\n' && t[k] != '\n' ==> LineHasVisible(t[k..])
  }

  /** No non-empty line, the first one included, is made only of whitespace
      and invisible marks; empty lines (at most one in a row once newline
      runs are capped) remain. */
  predicate NoBlankLine(t: string)
  {
    (t != [] && t[0] != '\n' ==> LineHasVisible(t)) && NoBlankAfterNewline(t)
  }

  /** The characters that are neither whitespace nor invisible marks, in order. */
  function Visible(s: string): (r: string)
    ensures |r| <= |s|
  {
    if s == [] then [] else (if InBlankClass(s[0]) then [] else [s[0]]) + Visible(s[1..])
  }

  /** `s` with every character of `cs` removed, the others kept in order. */
  function Without(s: string, cs: set<char>): (r: string)
    ensures |r| <= |s|
  {
    if s == [] then [] else (if s[0] in cs then [] else [s[0]]) + Without(s[1..], cs)
  }

  const IndentChars: set<char> := {' ', '\t'}
  const NewlineChars: set<char> := {'\n'}

  /** The post text of `post_to_bluesky`. It opens with the header marker,
      has no surrounding whitespace, no indented line and no run of three
      newlines. */
  function FormatPost(sender: string, subject: string, date: string, body: string): (r: string)
    ensures Marker <= r
    ensures !IsSpace(r[0]) && !IsSpace(r[|r| - 1])
    ensures NoIndentedLine(r)
    ensures NoTripleNewline(r)
    ensures NoBlankLine(r)
  {
    var composed := Compose(sender, subject, date, body);
    var r := Strip(CollapseNewlines(DropBlankLines(StripIndent(composed))));
    FormatShape(sender, subject, date, body);
    r
  }

  // ---------------------------------------------------------------------
  // Visible: the rewrites only delete whitespace and invisible marks

  lemma {:induction false} VisibleConcat(a: string, b: string)
    ensures Visible(a + b) == Visible(a) + Visible(b)
    decreases |a|
  {
    if a != [] {
      var h := if InBlankClass(a[0]) then [] else [a[0]];
      assert (a + b)[0] == a[0] && (a + b)[1..] == a[1..] + b;
      assert Visible(a + b) == h + Visible(a[1..] + b);
      VisibleConcat(a[1..], b);
    } else {
      assert a + b == b;
    }
  }

  lemma {:induction false} VisibleOfBlank(t: string)
    requires forall k :: 0 <= k < |t| ==> InBlankClass(t[k])
    ensures Visible(t) == []
    decreases |t|
  {
    if t != [] {
      VisibleOfBlank(t[1..]);
    }
  }

  lemma {:induction false} VisibleHas(t: string, k: nat)
    requires k < |t| && !InBlankClass(t[k])
    ensures Visible(t) != []
    decreases k
  {
    if k > 0 && InBlankClass(t[0]) {
      VisibleHas(t[1..], k - 1);
    }
  }

  /** A string with a visible character has a character `strip` keeps. */
  lemma {:induction false} VisibleNotAllSpace(t: string)
    requires Visible(t) != []
    ensures exists k :: 0 <= k < |t| && !IsSpace(t[k])
    decreases |t|
  {
    if InBlankClass(t[0]) {
      VisibleNotAllSpace(t[1..]);
      var k :| 0 <= k < |t[1..]| && !IsSpace(t[1..][k]);
      assert !IsSpace(t[k + 1]);
    }
  }

  lemma {:induction false} StripIndentVisible(s: string, b: bool)
    ensures Visible(StripIndentFrom(s, b)) == Visible(s)
    decreases |s|
  {
    if s != [] {
      if b && IsIndent(s[0]) {
        StripIndentVisible(s[1..], true);
      } else {
        StripIndentVisible(s[1..], s[0] == '\n');
        VisibleConcat([s[0]], StripIndentFrom(s[1..], s[0] == '\n'));
      }
    }
  }

  lemma {:induction false} DropBlankVisible(s: string, i: nat)
    requires i <= |s|
    ensures Visible(DropBlankFrom(s, i)) == Visible(s[i..])
    decreases |s| - i
  {
    if i < |s| {
      match BlankMatch(s, i)
      case Some(e) =>
        DropBlankVisible(s, e);
        VisibleSkipBlank(s, i, e);
      case None =>
        DropBlankVisible(s, i + 1);
        VisibleConcat([s[i]], DropBlankFrom(s, i + 1));
        VisibleSkipOne(s, i);
    }
  }

  lemma VisibleSkipBlank(s: string, i: nat, e: nat)
    requires i <= e <= |s| && forall k :: i <= k < e ==> InBlankClass(s[k])
    ensures Visible(s[i..]) == Visible(s[e..])
  {
    assert s[i..] == s[i..e] + s[e..];
    VisibleConcat(s[i..e], s[e..]);
    VisibleOfBlank(s[i..e]);
  }

  lemma VisibleSkipOne(s: string, i: nat)
    requires i < |s|
    ensures Visible(s[i..]) == Visible([s[i]]) + Visible(s[i + 1..])
  {
    assert s[i..] == [s[i]] + s[i + 1..];
    VisibleConcat([s[i]], s[i + 1..]);
  }

  lemma {:induction false} CollapseVisible(s: string)
    ensures Visible(CollapseNewlines(s)) == Visible(s)
    decreases |s|
  {
    if s != [] {
      if s[0] == '\n' {
        var k := NewlineRun(s);
        var n := Newlines(if k >= 3 then 2 else k);
        CollapseVisible(s[k..]);
        VisibleConcat(n, CollapseNewlines(s[k..]));
        VisibleOfBlank(n);
        assert s == s[..k] + s[k..];
        VisibleConcat(s[..k], s[k..]);
        VisibleOfBlank(s[..k]);
      } else {
        CollapseVisible(s[1..]);
        VisibleConcat([s[0]], CollapseNewlines(s[1..]));
      }
    }
  }

  lemma StripVisible(s: string)
    ensures Visible(Strip(s)) == Visible(s)
  {
    LStripVisible(s);
    RStripVisible(LStrip(s));
  }

  lemma {:induction false} LStripVisible(s: string)
    ensures Visible(LStrip(s)) == Visible(s)
    decreases |s|
  {
    if s != [] && IsSpace(s[0]) {
      LStripVisible(s[1..]);
      assert Visible(s) == [] + Visible(s[1..]);
    }
  }

  lemma {:induction false} RStripVisible(s: string)
    ensures Visible(RStrip(s)) == Visible(s)
    decreases |s|
  {
    if s != [] && IsSpace(s[|s| - 1]) {
      var init := s[..|s| - 1];
      RStripVisible(init);
      assert s == init + [s[|s| - 1]];
      VisibleConcat(init, [s[|s| - 1]]);
      assert Visible([s[|s| - 1]]) == [];
      assert Visible(init) + [] == Visible(init);
    }
  }

  /** Formatting only deletes characters: once whitespace and invisible
      marks are removed, the post text and the composed email agree. */
  lemma FormatOnlyDeletes(sender: string, subject: string, date: string, body: string)
    ensures Visible(FormatPost(sender, subject, date, body)) == Visible(Compose(sender, subject, date, body))
  {
    var c := Compose(sender, subject, date, body);
    var s1 := StripIndent(c);
    var s2 := DropBlankLines(s1);
    var s3 := CollapseNewlines(s2);
    StripIndentVisible(c, true);
    DropBlankVisible(s1, 0);
    assert s1[0..] == s1;
    CollapseVisible(s2);
    StripVisible(s3);
  }

  // ---------------------------------------------------------------------
  // No indented line

  lemma {:induction false} StripIndentClean(s: string, b: bool)
    ensures var r := StripIndentFrom(s, b);
      (b && r != [] ==> !IsIndent(r[0])) && NoIndentAfterNewline(r)
    decreases |s|
  {
    if s != [] {
      if b && IsIndent(s[0]) {
        StripIndentClean(s[1..], true);
      } else {
        StripIndentClean(s[1..], s[0] == '\n');
        var rest := StripIndentFrom(s[1..], s[0] == '\n');
        var r := [s[0]] + rest;
        forall k | 0 < k < |r| && r[k - 1] == '\n'
          ensures !IsIndent(r[k])
        {
          assert r[k] == rest[k - 1];
          if k > 1 {
            assert r[k - 1] == rest[k - 2];
          }
        }
      }
    }
  }

  /** The output from a newline of the input on opens with a newline, if it
      is not empty. */
  lemma {:induction false} DropBlankAtNewline(s: string, i: nat)
    requires i < |s| && s[i] == '\n'
    ensures var r := DropBlankFrom(s, i); r == [] || r[0] == '\n'
    decreases |s| - i
  {
    match BlankMatch(s, i)
    case Some(e) =>
      if e < |s| {
        DropBlankAtNewline(s, e);
      }
    case None =>
  }

  lemma DropBlankAtLineStart(s: string, i: nat)
    requires i <= |s| && LineStart(s, i) && NoIndentedLine(s)
    ensures var r := DropBlankFrom(s, i); r == [] || !IsIndent(r[0])
  {
    if i < |s| {
      match BlankMatch(s, i)
      case Some(e) =>
        if e < |s| {
          DropBlankAtNewline(s, e);
        }
      case None =>
    }
  }

  lemma {:induction false} DropBlankClean(s: string, i: nat)
    requires i <= |s| && NoIndentedLine(s)
    ensures NoIndentAfterNewline(DropBlankFrom(s, i))
    decreases |s| - i
  {
    if i < |s| {
      match BlankMatch(s, i)
      case Some(e) =>
        DropBlankClean(s, e);
      case None =>
        DropBlankClean(s, i + 1);
        var rest := DropBlankFrom(s, i + 1);
        var r := [s[i]] + rest;
        if s[i] == '\n' {
          DropBlankAtLineStart(s, i + 1);
        }
        forall k | 0 < k < |r| && r[k - 1] == '\n'
          ensures !IsIndent(r[k])
        {
          assert r[k] == rest[k - 1];
          if k > 1 {
            assert r[k - 1] == rest[k - 2];
          }
        }
    }
  }

  lemma {:induction false} CollapseClean(s: string)
    requires NoIndentAfterNewline(s)
    ensures NoIndentAfterNewline(CollapseNewlines(s))
    decreases |s|
  {
    if s != [] {
      if s[0] == '\n' {
        var k := NewlineRun(s);
        var n := Newlines(if k >= 3 then 2 else k);
        var rest := CollapseNewlines(s[k..]);
        CollapseClean(s[k..]);
        var r := n + rest;
        forall m | 0 < m < |r| && r[m - 1] == '\n'
          ensures !IsIndent(r[m])
        {
          if m < |n| {
          } else if m == |n| {
            assert r[m] == rest[0] == s[k];
            assert s[k - 1] == '\n';
          } else {
            assert r[m] == rest[m - |n|] && r[m - 1] == rest[m - |n| - 1];
          }
        }
      } else {
        CollapseClean(s[1..]);
        var rest := CollapseNewlines(s[1..]);
        var r := [s[0]] + rest;
        forall m | 0 < m < |r| && r[m - 1] == '\n'
          ensures !IsIndent(r[m])
        {
          assert m > 1;
          assert r[m] == rest[m - 1] && r[m - 1] == rest[m - 2];
        }
      }
    }
  }

  lemma {:induction false} CollapseNoTriple(s: string)
    ensures NoTripleNewline(CollapseNewlines(s))
    decreases |s|
  {
    if s != [] {
      if s[0] == '\n' {
        var k := NewlineRun(s);
        var n := Newlines(if k >= 3 then 2 else k);
        var rest := CollapseNewlines(s[k..]);
        CollapseNoTriple(s[k..]);
        var r := n + rest;
        forall j: nat | j + 2 < |r|
          ensures !TripleAt(r, j)
        {
          if j < |n| {
            assert r[|n|] == rest[0] == s[k] != '\n';
          } else {
            assert r[j] == rest[j - |n|] && r[j + 1] == rest[j - |n| + 1] && r[j + 2] == rest[j - |n| + 2];
            assert !TripleAt(rest, j - |n|);
          }
        }
      } else {
        CollapseNoTriple(s[1..]);
        var rest := CollapseNewlines(s[1..]);
        var r := [s[0]] + rest;
        forall j: nat | j + 2 < |r|
          ensures !TripleAt(r, j)
        {
          if j > 0 {
            assert r[j] == rest[j - 1] && r[j + 1] == rest[j] && r[j + 2] == rest[j + 1];
            assert !TripleAt(rest, j - 1);
          }
        }
      }
    }
  }

  lemma SliceKeepsNoIndent(s: string, a: nat, b: nat)
    requires a <= b <= |s| && NoIndentAfterNewline(s)
    ensures NoIndentAfterNewline(s[a..b])
  {
    var r := s[a..b];
    forall k | 0 < k < |r| && r[k - 1] == '\n'
      ensures !IsIndent(r[k])
    {
      assert r[k] == s[a + k] && r[k - 1] == s[a + k - 1];
    }
  }

  lemma StripKeepsNoIndent(s: string)
    requires NoIndentAfterNewline(s)
    ensures NoIndentedLine(Strip(s))
  {
    var a := StripStart(s);
    var r := Strip(s);
    SliceKeepsNoIndent(s, a, a + |r|);
  }

  lemma SliceKeepsNoTriple(s: string, a: nat, b: nat)
    requires a <= b <= |s| && NoTripleNewline(s)
    ensures NoTripleNewline(s[a..b])
  {
    var r := s[a..b];
    forall j: nat | j + 2 < |r|
      ensures !TripleAt(r, j)
    {
      assert r[j] == s[a + j] && r[j + 1] == s[a + j + 1] && r[j + 2] == s[a + j + 2];
      assert !TripleAt(s, a + j);
    }
  }

  lemma StripKeepsNoTriple(s: string)
    requires NoTripleNewline(s)
    ensures NoTripleNewline(Strip(s))
  {
    var a := StripStart(s);
    SliceKeepsNoTriple(s, a, a + |Strip(s)|);
  }

  // ---------------------------------------------------------------------
  // No blank line

  /** A line that holds no visible character is a run of class characters
      that ends at a line end. */
  lemma {:induction false} BlankLineSpan(s: string, j: nat) returns (q: nat)
    requires j <= |s| && !LineHasVisible(s[j..])
    ensures j <= q <= |s| && LineEnd(s, q)
    ensures forall k :: j <= k < q ==> InBlankClass(s[k])
    decreases |s| - j
  {
    if j == |s| || s[j] == '\n' {
      q := j;
    } else {
      assert s[j..][1..] == s[j + 1..];
      q := BlankLineSpan(s, j + 1);
    }
  }

  /** The greedy run of class characters covers every run of them. */
  lemma {:induction false} RunCoversBlank(s: string, p: nat, q: nat)
    requires p <= q <= |s|
    requires forall k :: p <= k < q ==> InBlankClass(s[k])
    ensures ClassRunEnd(s, p) >= q
    decreases |s| - p
  {
    if p < q {
      RunCoversBlank(s, p + 1, q);
    }
  }

  /** At a line start, a non-empty line either holds a visible character
      or is swallowed by the blank-line pattern. */
  lemma MatchOrVisible(s: string, i: nat)
    requires i < |s| && LineStart(s, i) && s[i] != '\n'
    ensures BlankMatch(s, i).Some? || LineHasVisible(s[i..])
  {
    if !LineHasVisible(s[i..]) {
      var q := BlankLineSpan(s, i);
      RunCoversBlank(s, i, q);
      assert i < q <= ClassRunEnd(s, i) && LineEnd(s, q);
    }
  }

  /** Inside a line the scan copies every character, so a visible character
      ahead on the line survives. */
  lemma {:induction false} DropBlankMidLine(s: string, i: nat)
    requires 0 < i < |s| && s[i - 1] != '\n' && LineHasVisible(s[i..])
    ensures LineHasVisible(DropBlankFrom(s, i))
    decreases |s| - i
  {
    var rest := DropBlankFrom(s, i + 1);
    assert DropBlankFrom(s, i) == [s[i]] + rest;
    if InBlankClass(s[i]) {
      assert s[i..][1..] == s[i + 1..];
      DropBlankMidLine(s, i + 1);
      assert ([s[i]] + rest)[1..] == rest;
    }
  }

  /** From a line start, the output is empty, opens with a newline, or opens
      with a line that holds a visible character. */
  lemma DropBlankFirstLine(s: string, i: nat)
    requires i <= |s| && LineStart(s, i)
    ensures var r := DropBlankFrom(s, i); r == [] || r[0] == '\n' || LineHasVisible(r)
  {
    if i < |s| {
      match BlankMatch(s, i)
      case Some(e) =>
        if e < |s| {
          DropBlankAtNewline(s, e);
        }
      case None =>
        var rest := DropBlankFrom(s, i + 1);
        assert DropBlankFrom(s, i) == [s[i]] + rest;
        if s[i] != '\n' && InBlankClass(s[i]) {
          MatchOrVisible(s, i);
          assert s[i..][1..] == s[i + 1..];
          DropBlankMidLine(s, i + 1);
          assert ([s[i]] + rest)[1..] == rest;
        }
    }
  }

  lemma {:induction false} DropBlankNoBlank(s: string, i: nat)
    requires i <= |s|
    ensures NoBlankAfterNewline(DropBlankFrom(s, i))
    decreases |s| - i
  {
    if i < |s| {
      match BlankMatch(s, i)
      case Some(e) =>
        DropBlankNoBlank(s, e);
      case None =>
        DropBlankNoBlank(s, i + 1);
        var rest := DropBlankFrom(s, i + 1);
        var r := [s[i]] + rest;
        assert DropBlankFrom(s, i) == r;
        if s[i] == '\n' {
          DropBlankFirstLine(s, i + 1);
        }
        forall k | 0 < k < |r| && r[k - 1] == '\n' && r[k] != '\n'
          ensures LineHasVisible(r[k..])
        {
          assert r[k..] == rest[k - 1..];
          if k > 1 {
            assert r[k - 1] == rest[k - 2] && r[k] == rest[k - 1];
          } else {
            assert rest[0..] == rest;
          }
        }
    }
  }

  /** After the blank-line rewrite no non-empty line is blank. */
  lemma DropBlankLinesNoBlank(s: string)
    ensures NoBlankLine(DropBlankLines(s))
  {
    DropBlankNoBlank(s, 0);
    DropBlankFirstLine(s, 0);
  }

  /** Capping newline runs keeps a visible character on the first line. */
  lemma {:induction false} CollapseLineVisible(s: string)
    requires LineHasVisible(s)
    ensures LineHasVisible(CollapseNewlines(s))
    decreases |s|
  {
    var rest := CollapseNewlines(s[1..]);
    assert CollapseNewlines(s) == [s[0]] + rest;
    if InBlankClass(s[0]) {
      CollapseLineVisible(s[1..]);
      assert ([s[0]] + rest)[1..] == rest;
    }
  }

  /** The suffix after a position keeps the property. */
  lemma NoBlankSuffix(s: string, k: nat)
    requires k <= |s| && NoBlankAfterNewline(s)
    ensures NoBlankAfterNewline(s[k..])
  {
    forall m | 0 < m < |s[k..]| && s[k..][m - 1] == '\n' && s[k..][m] != '\n'
      ensures LineHasVisible(s[k..][m..])
    {
      assert s[k..][m..] == s[k + m..];
      assert s[k + m - 1] == '\n' && s[k + m] != '\n';
    }
  }

  lemma {:induction false} CollapseNoBlank(s: string)
    requires NoBlankAfterNewline(s)
    ensures NoBlankAfterNewline(CollapseNewlines(s))
    decreases |s|
  {
    if s != [] {
      if s[0] == '\n' {
        var k := NewlineRun(s);
        NoBlankSuffix(s, k);
        CollapseNoBlank(s[k..]);
        CollapseNoBlankAtRun(s);
      } else {
        NoBlankSuffix(s, 1);
        CollapseNoBlank(s[1..]);
        CollapseNoBlankAtChar(s);
      }
    }
  }

  /** The step of `CollapseNoBlank` at a run of newlines. */
  lemma CollapseNoBlankAtRun(s: string)
    requires s != [] && s[0] == '\n' && NoBlankAfterNewline(s)
    requires NoBlankAfterNewline(CollapseNewlines(s[NewlineRun(s)..]))
    ensures NoBlankAfterNewline(CollapseNewlines(s))
  {
    var k := NewlineRun(s);
    var n := Newlines(if k >= 3 then 2 else k);
    var rest := CollapseNewlines(s[k..]);
    var r := n + rest;
    assert CollapseNewlines(s) == r;
    forall m | 0 < m < |r| && r[m - 1] == '\n' && r[m] != '\n'
      ensures LineHasVisible(r[m..])
    {
      if m == |n| {
        assert r[m..] == rest;
        CollapseAfterRun(s);
      } else if m > |n| {
        NoBlankInTail(n, rest, m);
      }
    }
  }

  /** The line that follows a run of newlines keeps its visible character. */
  lemma CollapseAfterRun(s: string)
    requires s != [] && s[0] == '\n' && NoBlankAfterNewline(s) && NewlineRun(s) < |s|
    ensures LineHasVisible(CollapseNewlines(s[NewlineRun(s)..]))
  {
    var k := NewlineRun(s);
    assert s[k - 1] == '\n' && s[k] != '\n';
    CollapseLineVisible(s[k..]);
  }

  /** A line that starts inside `y` is a line of `y`. */
  lemma NoBlankInTail(x: string, y: string, m: nat)
    requires NoBlankAfterNewline(y) && |x| < m < |x + y|
    requires (x + y)[m - 1] == '\n' && (x + y)[m] != '\n'
    ensures LineHasVisible((x + y)[m..])
  {
    assert (x + y)[m..] == y[m - |x|..];
    assert (x + y)[m - 1] == y[m - |x| - 1] && (x + y)[m] == y[m - |x|];
  }

  /** The step of `CollapseNoBlank` at any other character. */
  lemma CollapseNoBlankAtChar(s: string)
    requires s != [] && s[0] != '\n'
    requires NoBlankAfterNewline(CollapseNewlines(s[1..]))
    ensures NoBlankAfterNewline(CollapseNewlines(s))
  {
    var rest := CollapseNewlines(s[1..]);
    var r := [s[0]] + rest;
    assert CollapseNewlines(s) == r;
    forall m | 0 < m < |r| && r[m - 1] == '\n' && r[m] != '\n'
      ensures LineHasVisible(r[m..])
    {
      NoBlankInTail([s[0]], rest, m);
    }
  }

  /** A line made only of class characters holds nothing visible. */
  lemma {:induction false} AllBlankNotVisible(y: string)
    requires forall k :: 0 <= k < |y| ==> InBlankClass(y[k])
    ensures !LineHasVisible(y)
    decreases |y|
  {
    if y != [] && y[0] != '\n' {
      AllBlankNotVisible(y[1..]);
    }
  }

  /** Cutting trailing class characters keeps a visible character. */
  lemma {:induction false} LineVisibleTrim(x: string, y: string)
    requires forall k :: 0 <= k < |y| ==> InBlankClass(y[k])
    ensures LineHasVisible(x + y) ==> LineHasVisible(x)
    decreases |x|
  {
    if x == [] {
      assert x + y == y;
      AllBlankNotVisible(y);
    } else {
      assert (x + y)[0] == x[0] && (x + y)[1..] == x[1..] + y;
      LineVisibleTrim(x[1..], y);
    }
  }

  /** A line of the stripped string holds what the same line of the input
      holds, less the trailing whitespace that `strip` removed. */
  /** Cutting a string before a tail of class characters keeps the visible
      character of each line. */
  lemma SliceLineVisible(s: string, b: nat, e: nat, k: nat)
    requires b + k < e <= |s|
    requires forall j :: e <= j < |s| ==> InBlankClass(s[j])
    requires LineHasVisible(s[b + k..])
    ensures LineHasVisible(s[b..e][k..])
  {
    var tail := s[e..];
    forall j | 0 <= j < |tail|
      ensures InBlankClass(tail[j])
    {
      assert tail[j] == s[e + j];
    }
    assert s[b..e][k..] == s[b + k..e];
    assert s[b + k..] == s[b + k..e] + tail;
    LineVisibleTrim(s[b + k..e], tail);
  }

  lemma SliceKeepsNoBlank(s: string, b: nat, e: nat)
    requires b <= e <= |s| && NoBlankAfterNewline(s)
    requires forall j :: e <= j < |s| ==> InBlankClass(s[j])
    ensures NoBlankAfterNewline(s[b..e])
  {
    var r := s[b..e];
    forall k | 0 < k < |r| && r[k - 1] == '\n' && r[k] != '\n'
      ensures LineHasVisible(r[k..])
    {
      assert r[k] == s[b + k] && r[k - 1] == s[b + k - 1];
      SliceLineVisible(s, b, e, k);
    }
  }

  lemma StripKeepsNoBlank(s: string)
    requires NoBlankAfterNewline(s)
    ensures NoBlankAfterNewline(Strip(s))
  {
    var a := StripStart(s);
    var e := a + |Strip(s)|;
    forall j | e <= j < |s|
      ensures InBlankClass(s[j])
    {
      assert IsSpace(s[j]);
    }
    SliceKeepsNoBlank(s, a, e);
    assert Strip(s) == s[a..e];
  }

  // ---------------------------------------------------------------------
  // What each rewrite deletes, and what it leaves alone

  lemma {:induction false} WithoutConcat(a: string, b: string, cs: set<char>)
    ensures Without(a + b, cs) == Without(a, cs) + Without(b, cs)
    decreases |a|
  {
    if a != [] {
      var h := if a[0] in cs then [] else [a[0]];
      assert (a + b)[0] == a[0] && (a + b)[1..] == a[1..] + b;
      assert Without(a + b, cs) == h + Without(a[1..] + b, cs);
      WithoutConcat(a[1..], b, cs);
    } else {
      assert a + b == b;
    }
  }

  lemma {:induction false} WithoutAll(t: string, cs: set<char>)
    requires forall k :: 0 <= k < |t| ==> t[k] in cs
    ensures Without(t, cs) == []
    decreases |t|
  {
    if t != [] {
      WithoutAll(t[1..], cs);
    }
  }

  /** Step 1 deletes spaces and tabs and nothing else. */
  lemma {:induction false} StripIndentOnlyIndent(s: string, b: bool)
    ensures Without(StripIndentFrom(s, b), IndentChars) == Without(s, IndentChars)
    decreases |s|
  {
    if s != [] {
      if b && IsIndent(s[0]) {
        StripIndentOnlyIndent(s[1..], true);
      } else {
        StripIndentOnlyIndent(s[1..], s[0] == '\n');
        WithoutConcat([s[0]], StripIndentFrom(s[1..], s[0] == '\n'), IndentChars);
      }
    }
  }

  lemma NoIndentSuffix(s: string)
    requires s != [] && NoIndentAfterNewline(s)
    ensures NoIndentAfterNewline(s[1..])
  {
    forall k | 0 < k < |s[1..]| && s[1..][k - 1] == '\n'
      ensures !IsIndent(s[1..][k])
    {
      assert s[1..][k - 1] == s[k] && s[1..][k] == s[k + 1];
    }
  }

  /** Step 1 leaves a text none of whose lines opens with a space or a tab
      as it is. */
  lemma {:induction false} StripIndentKeepsClean(s: string, b: bool)
    requires b && s != [] ==> !IsIndent(s[0])
    requires NoIndentAfterNewline(s)
    ensures StripIndentFrom(s, b) == s
    decreases |s|
  {
    if s != [] {
      NoIndentSuffix(s);
      if |s| > 1 {
        assert s[1..][0] == s[1];
      }
      StripIndentKeepsClean(s[1..], s[0] == '\n');
      assert s == [s[0]] + s[1..];
    }
  }

  /** A class run that starts a line holding a visible character stops
      before the line end. */
  lemma {:induction false} VisibleNoLineEnd(s: string, j: nat, e: nat)
    requires j < e <= |s| && LineHasVisible(s[j..])
    requires forall k :: j <= k < e ==> InBlankClass(s[k])
    ensures !LineEnd(s, e)
    decreases e - j
  {
    assert s[j..][1..] == s[j + 1..];
    if j + 1 < e {
      VisibleNoLineEnd(s, j + 1, e);
    } else if e < |s| {
      assert s[e..][0] == s[e];
    }
  }

  /** The blank-line pattern never matches where a line holding a visible
      character starts. */
  lemma VisibleLineNoMatch(s: string, i: nat)
    requires i < |s| && LineHasVisible(s[i..])
    ensures BlankMatch(s, i) == None
  {
    var q := ClassRunEnd(s, i);
    forall e | i < e <= q
      ensures !LineEnd(s, e)
    {
      VisibleNoLineEnd(s, i, e);
    }
  }

  /** Past the first character of a line the scan copies every character. */
  lemma {:induction false} DropBlankCopiesRest(s: string, j: nat, n: nat)
    requires 0 < j <= n <= |s|
    requires forall k :: j - 1 <= k < n ==> s[k] != '\n'
    ensures DropBlankFrom(s, j) == s[j..n] + DropBlankFrom(s, n)
    decreases n - j
  {
    if j < n {
      assert !LineStart(s, j);
      assert DropBlankFrom(s, j) == [s[j]] + DropBlankFrom(s, j + 1);
      DropBlankCopiesRest(s, j + 1, n);
      assert s[j..n] == [s[j]] + s[j + 1..n];
      AppendAssoc([s[j]], s[j + 1..n], DropBlankFrom(s, n));
    } else {
      assert s[j..n] == [];
    }
  }

  /** Step 2 copies whole every line that holds a visible character: from
      the start `i` of such a line up to any `n` before its newline, the
      output is the text itself. */
  lemma DropBlankKeepsVisibleLine(s: string, i: nat, n: nat)
    requires i < n <= |s| && LineHasVisible(s[i..])
    requires forall k :: i <= k < n ==> s[k] != '\n'
    ensures DropBlankFrom(s, i) == s[i..n] + DropBlankFrom(s, n)
  {
    VisibleLineNoMatch(s, i);
    assert DropBlankFrom(s, i) == [s[i]] + DropBlankFrom(s, i + 1);
    DropBlankCopiesRest(s, i + 1, n);
    assert s[i..n] == [s[i]] + s[i + 1..n];
    AppendAssoc([s[i]], s[i + 1..n], DropBlankFrom(s, n));
  }

  /** Step 3 deletes newlines and nothing else. */
  lemma {:induction false} CollapseOnlyNewlines(s: string)
    ensures Without(CollapseNewlines(s), NewlineChars) == Without(s, NewlineChars)
    decreases |s|
  {
    if s != [] {
      if s[0] == '\n' {
        var k := NewlineRun(s);
        var n := Newlines(if k >= 3 then 2 else k);
        CollapseOnlyNewlines(s[k..]);
        WithoutConcat(n, CollapseNewlines(s[k..]), NewlineChars);
        WithoutAll(n, NewlineChars);
        assert s == s[..k] + s[k..];
        WithoutConcat(s[..k], s[k..], NewlineChars);
        WithoutAll(s[..k], NewlineChars);
      } else {
        CollapseOnlyNewlines(s[1..]);
        WithoutConcat([s[0]], CollapseNewlines(s[1..]), NewlineChars);
      }
    }
  }

  /** The run of newlines that opens `s` has length `k` when the first `k`
      characters are newlines and the next one is not. */
  lemma NewlineRunIs(s: string, k: nat)
    requires k <= |s| && (forall j :: 0 <= j < k ==> s[j] == '\n')
    requires k == |s| || s[k] != '\n'
    ensures NewlineRun(s) == k
  {
  }

  /** Where `x` does not end in a newline, `x` and what follows it are
      collapsed apart. */
  lemma {:induction false} CollapseAppend(x: string, t: string)
    requires x == [] || x[|x| - 1] != '\n'
    ensures CollapseNewlines(x + t) == CollapseNewlines(x) + CollapseNewlines(t)
    decreases |x|
  {
    if x == [] {
      assert x + t == t;
    } else if x[0] == '\n' {
      var k := NewlineRun(x);
      NewlineRunIs(x + t, k);
      assert (x + t)[k..] == x[k..] + t;
      assert x[k..][|x[k..]| - 1] == x[|x| - 1];
      CollapseAppend(x[k..], t);
      var n := Newlines(if k >= 3 then 2 else k);
      assert CollapseNewlines(x + t) == n + (CollapseNewlines(x[k..]) + CollapseNewlines(t));
      AppendAssoc(n, CollapseNewlines(x[k..]), CollapseNewlines(t));
    } else {
      assert (x + t)[0] == x[0] && (x + t)[1..] == x[1..] + t;
      if |x| > 1 {
        assert x[1..][|x[1..]| - 1] == x[|x| - 1];
      }
      CollapseAppend(x[1..], t);
      assert CollapseNewlines(x + t) == [x[0]] + (CollapseNewlines(x[1..]) + CollapseNewlines(t));
      AppendAssoc([x[0]], CollapseNewlines(x[1..]), CollapseNewlines(t));
    }
  }

  /** A maximal run of `k` newlines becomes exactly two newlines when
      `k >= 3` and is kept as it is when `k` is 1 or 2; the text on either
      side is collapsed on its own. */
  lemma CollapseRun(x: string, k: nat, y: string)
    requires 0 < k
    requires x == [] || x[|x| - 1] != '\n'
    requires y == [] || y[0] != '\n'
    ensures CollapseNewlines(x + Newlines(k) + y)
      == CollapseNewlines(x) + Newlines(if k >= 3 then 2 else k) + CollapseNewlines(y)
  {
    var n := Newlines(k);
    var m := Newlines(if k >= 3 then 2 else k);
    var t := n + y;
    assert x + n + y == x + t;
    CollapseAppend(x, t);
    assert forall j :: 0 <= j < k ==> t[j] == '\n';
    assert k == |t| || t[k] == y[0];
    NewlineRunIs(t, k);
    assert t[k..] == y;
    assert CollapseNewlines(t) == m + CollapseNewlines(y);
    AppendAssoc(CollapseNewlines(x), m, CollapseNewlines(y));
  }


  lemma ShortLeadingRun(s: string)
    requires NoTripleNewline(s)
    ensures NewlineRun(s) < 3 && s[..NewlineRun(s)] == Newlines(NewlineRun(s))
  {
    var k := NewlineRun(s);
    assert |s| > 2 ==> !TripleAt(s, 0);
    assert k < 3;
  }

  /** Step 3 leaves a text with no run of three newlines as it is. */
  lemma {:induction false} CollapseKeepsShortRuns(s: string)
    requires NoTripleNewline(s)
    ensures CollapseNewlines(s) == s
    decreases |s|
  {
    if s != [] {
      if s[0] == '\n' {
        var k := NewlineRun(s);
        ShortLeadingRun(s);
        SliceKeepsNoTriple(s, k, |s|);
        assert s[k..|s|] == s[k..];
        CollapseKeepsShortRuns(s[k..]);
        assert s == s[..k] + s[k..];
      } else {
        SliceKeepsNoTriple(s, 1, |s|);
        assert s[1..|s|] == s[1..];
        CollapseKeepsShortRuns(s[1..]);
        assert s == [s[0]] + s[1..];
      }
    }
  }

  // ---------------------------------------------------------------------
  // The header marker survives

  lemma {:induction false} StripIndentKeepsLine(p: string, t: string)
    requires forall k :: 0 <= k < |p| ==> p[k] != '\n'
    ensures StripIndentFrom(p + t, false) == p + StripIndentFrom(t, false)
    decreases |p|
  {
    if p != [] {
      assert (p + t)[0] == p[0] && (p + t)[1..] == p[1..] + t;
      StripIndentKeepsLine(p[1..], t);
      assert p == [p[0]] + p[1..];
    } else {
      assert p + t == t;
    }
  }

  lemma {:induction false} DropBlankKeepsLine(s: string, n: nat, i: nat)
    requires i <= n <= |s|
    requires forall k :: 0 <= k < n ==> s[k] != '\n'
    requires i == 0 && n > 0 ==> !InBlankClass(s[0])
    ensures DropBlankFrom(s, i) == s[i..n] + DropBlankFrom(s, n)
    decreases n - i
  {
    if i < n {
      NoBlankMatchInLine(s, n, i);
      assert DropBlankFrom(s, i) == [s[i]] + DropBlankFrom(s, i + 1);
      DropBlankKeepsLine(s, n, i + 1);
      assert s[i..n] == [s[i]] + s[i + 1..n];
      assert [s[i]] + (s[i + 1..n] + DropBlankFrom(s, n)) == ([s[i]] + s[i + 1..n]) + DropBlankFrom(s, n);
    }
  }

  /** Inside the first line, before its end, no blank-line match starts. */
  lemma NoBlankMatchInLine(s: string, n: nat, i: nat)
    requires i < n <= |s|
    requires forall k :: 0 <= k < n ==> s[k] != '\n'
    requires i == 0 ==> !InBlankClass(s[0])
    ensures BlankMatch(s, i) == None
  {
    if i == 0 {
      assert ClassRunEnd(s, 0) == 0;
    } else {
      assert s[i - 1] != '\n';
    }
  }

  lemma {:induction false} CollapseKeepsLine(p: string, t: string)
    requires forall k :: 0 <= k < |p| ==> p[k] != '\n'
    ensures CollapseNewlines(p + t) == p + CollapseNewlines(t)
    decreases |p|
  {
    if p != [] {
      assert (p + t)[0] == p[0] && (p + t)[1..] == p[1..] + t;
      CollapseKeepsLine(p[1..], t);
      assert p == [p[0]] + p[1..];
    } else {
      assert p + t == t;
    }
  }

  lemma {:induction false} RStripKeepsPrefix(p: string, t: string)
    requires exists k :: 0 <= k < |t| && !IsSpace(t[k])
    ensures RStrip(p + t) == p + RStrip(t)
    decreases |t|
  {
    var k :| 0 <= k < |t| && !IsSpace(t[k]);
    if IsSpace(t[|t| - 1]) {
      assert (p + t)[..|p + t| - 1] == p + t[..|t| - 1];
      assert t[..|t| - 1][k] == t[k];
      RStripKeepsPrefix(p, t[..|t| - 1]);
    }
  }

  /** The text after the marker keeps a visible character. */
  lemma ComposeVisible(sender: string, subject: string, date: string, body: string)
    ensures Compose(sender, subject, date, body) == Marker + ComposeRest(sender, subject, date, body)
    ensures Visible(ComposeRest(sender, subject, date, body)) != []
  {
    var rest := ComposeRest(sender, subject, date, body);
    assert rest[|sender| + 1] == 'S';
    VisibleHas(rest, |sender| + 1);
  }

  function ComposeRest(sender: string, subject: string, date: string, body: string): string
  {
    sender + "\nSubject: " + subject + "\nSent: " + date + "\n" + body
  }

  lemma MarkerHasNoNewline()
    ensures forall k :: 0 <= k < |Marker| ==> Marker[k] != '\n'
    ensures !InBlankClass(Marker[0])
  {
  }

  /** Step 1 leaves the marker alone and goes on mid-line after it. */
  lemma StripIndentAfterMarker(rest: string)
    ensures StripIndent(Marker + rest) == Marker + StripIndentFrom(rest, false)
  {
    MarkerHasNoNewline();
    var c := Marker + rest;
    assert c[0] == Marker[0] && c[1..] == Marker[1..] + rest;
    StripIndentKeepsLine(Marker[1..], rest);
    assert Marker == [Marker[0]] + Marker[1..];
  }

  /** Step 2 copies the marker's line start and keeps what follows visible. */
  lemma DropBlankAfterMarker(s1: string, t: string)
    requires s1 == Marker + t
    ensures DropBlankLines(s1) == Marker + DropBlankFrom(s1, |Marker|)
    ensures Visible(DropBlankFrom(s1, |Marker|)) == Visible(t)
  {
    MarkerHasNoNewline();
    DropBlankKeepsLine(s1, |Marker|, 0);
    assert s1[0..|Marker|] == Marker;
    DropBlankVisible(s1, |Marker|);
    assert s1[|Marker|..] == t;
  }

  /** Step 4 keeps the marker in front when something visible follows it. */
  lemma StripKeepsMarker(r3: string)
    requires Visible(r3) != []
    ensures Marker <= Strip(Marker + r3)
  {
    VisibleNotAllSpace(r3);
    var s3 := Marker + r3;
    assert s3[0] == Marker[0];
    assert !IsSpace(s3[0]);
    assert LStrip(s3) == s3;
    RStripKeepsPrefix(Marker, r3);
  }

  /** The marker survives all four rewrites. */
  lemma FormatKeepsMarker(sender: string, subject: string, date: string, body: string)
    ensures Marker <= Strip(CollapseNewlines(DropBlankLines(StripIndent(Compose(sender, subject, date, body)))))
  {
    var rest := ComposeRest(sender, subject, date, body);
    ComposeVisible(sender, subject, date, body);
    StripIndentAfterMarker(rest);
    var t1 := StripIndentFrom(rest, false);
    StripIndentVisible(rest, false);
    var s1 := Marker + t1;
    DropBlankAfterMarker(s1, t1);
    var r2 := DropBlankFrom(s1, |Marker|);
    MarkerHasNoNewline();
    CollapseKeepsLine(Marker, r2);
    CollapseVisible(r2);
    StripKeepsMarker(CollapseNewlines(r2));
  }

  /** The facts `FormatPost` promises, shown step by step. */
  lemma FormatShape(sender: string, subject: string, date: string, body: string)
    ensures var r := Strip(CollapseNewlines(DropBlankLines(StripIndent(Compose(sender, subject, date, body)))));
      Marker <= r && !IsSpace(r[0]) && !IsSpace(r[|r| - 1]) && NoIndentedLine(r) && NoTripleNewline(r)
      && NoBlankLine(r)
  {
    var c := Compose(sender, subject, date, body);
    var s1 := StripIndent(c);
    var s2 := DropBlankLines(s1);
    var s3 := CollapseNewlines(s2);
    FormatKeepsMarker(sender, subject, date, body);
    StripIndentClean(c, true);
    DropBlankClean(s1, 0);
    DropBlankAtLineStart(s1, 0);
    CollapseClean(s2);
    CollapseNoTriple(s2);
    StripKeepsNoIndent(s3);
    StripKeepsNoTriple(s3);
    DropBlankLinesNoBlank(s1);
    CollapseNoBlank(s2);
    StripKeepsNoBlank(s3);
    MarkerHasNoNewline();
  }
}
