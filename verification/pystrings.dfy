/**
 * The few Python `str` operations the bot relies on, written out over
 * sequences of code points: `isspace`, `strip`, `split`, `join`,
 * `replace`, `startswith` and `lower`.
 */
module PyStrings {

  /** Python's `str.isspace()` for one code point (the same set that `\s`
      matches in a `str` regular expression). */
  predicate IsSpace(c: char) {
    ('\t' <= c <= '\r') || ('\U{1c}' <= c <= '\U{1f}') || c == ' '
    || c == '\U{85}' || c == '\U{a0}' || c == '\U{1680}'
    || ('\U{2000}' <= c <= '\U{200a}') || c == '\U{2028}' || c == '\U{2029}'
    || c == '\U{202f}' || c == '\U{205f}' || c == '\U{3000}'
  }

  /** `s.lstrip()`: drops the leading whitespace, keeps a suffix. */
  function LStrip(s: string): (r: string)
    ensures |r| <= |s| && r == s[|s| - |r|..]
    ensures r == [] || !IsSpace(r[0])
    ensures forall k :: 0 <= k < |s| - |r| ==> IsSpace(s[k])
  {
    if s != [] && IsSpace(s[0]) then LStrip(s[1..]) else s
  }

  /** `s.rstrip()`: drops the trailing whitespace, keeps a prefix. */
  function RStrip(s: string): (r: string)
    ensures |r| <= |s| && r == s[..|r|]
    ensures r == [] || !IsSpace(r[|r| - 1])
    ensures forall k :: |r| <= k < |s| ==> IsSpace(s[k])
  {
    if s != [] && IsSpace(s[|s| - 1]) then RStrip(s[..|s| - 1]) else s
  }

  /** Index of the first character `s.strip()` keeps. */
  function StripStart(s: string): nat
  {
    |s| - |LStrip(s)|
  }

  /** `s.strip()`: the slice of `s` left once whitespace is removed from both ends. */
  function Strip(s: string): (r: string)
    ensures StripStart(s) + |r| <= |s| && r == s[StripStart(s)..StripStart(s) + |r|]
    ensures forall k :: 0 <= k < StripStart(s) ==> IsSpace(s[k])
    ensures forall k :: StripStart(s) + |r| <= k < |s| ==> IsSpace(s[k])
    ensures r == [] || (!IsSpace(r[0]) && !IsSpace(r[|r| - 1]))
  {
    RStrip(LStrip(s))
  }

  /** Stripping twice changes nothing more. */
  lemma StripIdempotent(s: string)
    ensures Strip(Strip(s)) == Strip(s)
  {
    var t := Strip(s);
    assert LStrip(t) == t;
    assert RStrip(t) == t;
  }

  /** `s.strip()` is empty exactly when every character of `s` is whitespace. */
  lemma StripEmptyIff(s: string)
    ensures Strip(s) == [] <==> forall k :: 0 <= k < |s| ==> IsSpace(s[k])
  {
    if forall k :: 0 <= k < |s| ==> IsSpace(s[k]) {
      AllSpaceLStrip(s);
    }
  }

  lemma {:induction false} AllSpaceLStrip(s: string)
    requires forall k :: 0 <= k < |s| ==> IsSpace(s[k])
    ensures LStrip(s) == []
    decreases |s|
  {
    if s != [] {
      AllSpaceLStrip(s[1..]);
    }
  }

  /** Number of occurrences of the character `c` in `s`. */
  function Count(s: string, c: char): nat
  {
    if s == [] then 0 else (if s[0] == c then 1 else 0) + Count(s[1..], c)
  }

  /** `s.split(sep)` for a non-empty separator: the pieces between the
      non-overlapping occurrences of `sep`, scanned left to right. */
  function SplitOn(s: string, sep: string): (r: seq<string>)
    requires sep != []
    ensures |r| >= 1
    decreases |s|
  {
    if s == [] then [[]]
    else if sep <= s then [[]] + SplitOn(s[|sep|..], sep)
    else
      var rest := SplitOn(s[1..], sep);
      [[s[0]] + rest[0]] + rest[1..]
  }

  lemma AppendAssoc<T>(a: seq<T>, b: seq<T>, c: seq<T>)
    ensures a + b + c == a + (b + c)
  {
  }

  /** The total length of the strings of `ps`. */
  function TotalLength(ps: seq<string>): nat
  {
    if ps == [] then 0 else |ps[0]| + TotalLength(ps[1..])
  }

  /** `sep.join(ps)`: the strings of `ps` with one `sep` between each two. */
  function Join(ps: seq<string>, sep: string): (r: string)
    ensures ps != [] ==> |r| == TotalLength(ps) + (|ps| - 1) * |sep|
  {
    if |ps| == 0 then []
    else if |ps| == 1 then ps[0]
    else ps[0] + sep + Join(ps[1..], sep)
  }

  /** Python's `s.replace(pat, repl)`. With an empty `pat`, Python inserts
      `repl` before every character and at the end. A replacement as long
      as the pattern keeps the length. */
  function Replace(s: string, pat: string, repl: string): (r: string)
    ensures pat != [] && |repl| == |pat| ==> |r| == |s|
    decreases |s|
  {
    if pat == [] then Interleave(s, repl)
    else if s == [] then []
    else if pat <= s then repl + Replace(s[|pat|..], pat, repl)
    else [s[0]] + Replace(s[1..], pat, repl)
  }

  function Interleave(s: string, repl: string): (r: string)
    ensures |r| == |s| + (|s| + 1) * |repl|
  {
    if s == [] then repl else repl + [s[0]] + Interleave(s[1..], repl)
  }

  /** `t` occurs somewhere in `s`. */
  predicate Occurs(s: string, t: string)
  {
    exists i :: 0 <= i <= |s| - |t| && t <= s[i..]
  }

  /** `s.startswith(p)`. */
  predicate StartsWith(s: string, p: string)
  {
    p <= s
  }

  /** ASCII part of `str.lower()`. */
  function LowerChar(c: char): char
  {
    if 'A' <= c <= 'Z' then (c as int + 32) as char else c
  }

  function Lower(s: string): (r: string)
    ensures |r| == |s|
    ensures forall k :: 0 <= k < |s| ==> r[k] == LowerChar(s[k])
  {
    if s == [] then [] else [LowerChar(s[0])] + Lower(s[1..])
  }

  // ---------------------------------------------------------------------
  // split / join / replace

  lemma JoinCons(p: string, ps: seq<string>, sep: string)
    requires |ps| >= 1
    ensures Join([p] + ps, sep) == p + sep + Join(ps, sep)
  {
    assert ([p] + ps)[1..] == ps;
  }

  /** Prepending to the first piece prepends to the joined string. */
  lemma {:induction false} JoinHead(x: string, ps: seq<string>, sep: string)
    requires |ps| >= 1
    ensures Join([x + ps[0]] + ps[1..], sep) == x + Join(ps, sep)
  {
    if |ps| == 1 {
    } else {
      JoinCons(x + ps[0], ps[1..], sep);
      JoinCons(ps[0], ps[1..], sep);
      assert ps == [ps[0]] + ps[1..];
    }
  }

  /** Python's identity `s.replace(pat, repl) == repl.join(s.split(pat))`
      for a non-empty `pat`. */
  lemma {:induction false} ReplaceIsJoinOfSplit(s: string, pat: string, repl: string)
    requires pat != []
    ensures Replace(s, pat, repl) == Join(SplitOn(s, pat), repl)
    decreases |s|
  {
    if s == [] {
    } else if pat <= s {
      ReplaceIsJoinOfSplit(s[|pat|..], pat, repl);
      ReplaceAtPattern(s, pat, repl);
    } else {
      ReplaceIsJoinOfSplit(s[1..], pat, repl);
      ReplaceAtChar(s, pat, repl);
    }
  }

  lemma ReplaceAtPattern(s: string, pat: string, repl: string)
    requires pat != [] && pat <= s
    requires Replace(s[|pat|..], pat, repl) == Join(SplitOn(s[|pat|..], pat), repl)
    ensures Replace(s, pat, repl) == Join(SplitOn(s, pat), repl)
  {
    var rest := SplitOn(s[|pat|..], pat);
    assert SplitOn(s, pat) == [[]] + rest;
    JoinCons([], rest, repl);
    assert [] + repl == repl;
  }

  lemma ReplaceAtChar(s: string, pat: string, repl: string)
    requires pat != [] && s != [] && !(pat <= s)
    requires Replace(s[1..], pat, repl) == Join(SplitOn(s[1..], pat), repl)
    ensures Replace(s, pat, repl) == Join(SplitOn(s, pat), repl)
  {
    var rest := SplitOn(s[1..], pat);
    assert SplitOn(s, pat) == [[s[0]] + rest[0]] + rest[1..];
    JoinHead([s[0]], rest, repl);
  }

  /** Joining the pieces of a split with the same separator gives back the string. */
  lemma {:induction false} JoinOfSplit(s: string, sep: string)
    requires sep != []
    ensures Join(SplitOn(s, sep), sep) == s
    decreases |s|
  {
    if s == [] {
    } else if sep <= s {
      JoinOfSplit(s[|sep|..], sep);
      JoinOfSplitAtSep(s, sep);
    } else {
      JoinOfSplit(s[1..], sep);
      JoinOfSplitAtChar(s, sep);
    }
  }

  lemma JoinOfSplitAtSep(s: string, sep: string)
    requires sep != [] && sep <= s
    requires Join(SplitOn(s[|sep|..], sep), sep) == s[|sep|..]
    ensures Join(SplitOn(s, sep), sep) == s
  {
    var rest := SplitOn(s[|sep|..], sep);
    assert SplitOn(s, sep) == [[]] + rest;
    JoinCons([], rest, sep);
    PrefixThenRest(s, sep);
    assert [] + sep == sep;
  }

  lemma PrefixThenRest(s: string, p: string)
    requires p <= s
    ensures p + s[|p|..] == s
  {
    assert s == s[..|p|] + s[|p|..];
  }

  lemma JoinOfSplitAtChar(s: string, sep: string)
    requires sep != [] && s != [] && !(sep <= s)
    requires Join(SplitOn(s[1..], sep), sep) == s[1..]
    ensures Join(SplitOn(s, sep), sep) == s
  {
    var rest := SplitOn(s[1..], sep);
    assert SplitOn(s, sep) == [[s[0]] + rest[0]] + rest[1..];
    JoinHead([s[0]], rest, sep);
    assert s == [s[0]] + s[1..];
  }

  /** Splitting on a one-character separator yields one more piece than
      there are separators. */
  lemma {:induction false} SplitCount(s: string, c: char)
    ensures |SplitOn(s, [c])| == Count(s, c) + 1
    decreases |s|
  {
    if s != [] {
      SplitCount(s[1..], c);
      if [c] <= s {
        assert s[|[c]|..] == s[1..];
      }
    }
  }

  /** Each piece of a one-character split is free of the separator. */
  lemma {:induction false} SplitPiecesFree(s: string, c: char)
    ensures forall i :: 0 <= i < |SplitOn(s, [c])| ==> Count(SplitOn(s, [c])[i], c) == 0
    decreases |s|
  {
    if s != [] {
      SplitPiecesFree(s[1..], c);
      if [c] <= s {
        assert s[|[c]|..] == s[1..];
      } else {
        var rest := SplitOn(s[1..], [c]);
        assert ([s[0]] + rest[0])[1..] == rest[0];
      }
    }
  }

  /** Splitting a join of separator-free pieces on a one-character
      separator recovers the pieces. */
  lemma {:induction false} SplitOfJoin(ps: seq<string>, c: char)
    requires |ps| >= 1
    requires forall i :: 0 <= i < |ps| ==> Count(ps[i], c) == 0
    ensures SplitOn(Join(ps, [c]), [c]) == ps
    decreases |ps|
  {
    if |ps| == 1 {
      SplitFree(ps[0], [], c);
    } else {
      SplitOfJoin(ps[1..], c);
      SplitFree(ps[0], ps[1..], c);
      assert [ps[0]] + ps[1..] == ps;
    }
  }

  /** A separator-free prefix followed by the separator (or nothing) is the first piece. */
  lemma {:induction false} SplitFree(p: string, ps: seq<string>, c: char)
    requires Count(p, c) == 0
    requires ps != [] ==> SplitOn(Join(ps, [c]), [c]) == ps
    ensures ps == [] ==> SplitOn(p, [c]) == [p]
    ensures ps != [] ==> SplitOn(p + [c] + Join(ps, [c]), [c]) == [p] + ps
    decreases |p|
  {
    if p == [] {
      if ps != [] {
        var s := [c] + Join(ps, [c]);
        assert p + [c] + Join(ps, [c]) == s;
        assert [c] <= s;
        assert s[1..] == Join(ps, [c]);
      }
    } else {
      SplitFree(p[1..], ps, c);
      var t := if ps == [] then p else p + [c] + Join(ps, [c]);
      assert t[0] == p[0] && p[0] != c;
      assert !([c] <= t);
      assert ps != [] ==> t[1..] == p[1..] + [c] + Join(ps, [c]);
      assert [p[0]] + p[1..] == p;
    }
  }

  /** A replacement whose target does not occur leaves the string alone. */
  lemma {:induction false} ReplaceAbsent(s: string, pat: string, repl: string)
    requires pat != [] && !Occurs(s, pat)
    ensures Replace(s, pat, repl) == s
    decreases |s|
  {
    if s != [] {
      assert !(pat <= s[0..]);
      assert s[0..] == s;
      NotOccursTail(s, pat);
      ReplaceAbsent(s[1..], pat, repl);
      assert Replace(s, pat, repl) == [s[0]] + Replace(s[1..], pat, repl);
    }
  }

  /** A pattern absent from `s` is absent from its tail. */
  lemma NotOccursTail(s: string, pat: string)
    requires s != [] && !Occurs(s, pat)
    ensures !Occurs(s[1..], pat)
  {
    forall i | 0 <= i <= |s[1..]| - |pat|
      ensures !(pat <= s[1..][i..])
    {
      assert s[1..][i..] == s[i + 1..];
    }
  }
}
