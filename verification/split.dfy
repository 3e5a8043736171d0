/**
 * `split_text`: a cursor walks over the post text and cuts windows of at
 * most `maxChunk` characters. A window that does not reach the end of the
 * text is shortened to end just after its last space when that keeps more
 * than `maxChunk - 50` characters. Every piece is stripped before it is
 * kept; the cursor moves to the end of the untrimmed piece.
 */
module Chunking {
  import opened Wrappers
  import opened PyStrings

  /** The default `max_chunk`, the only value the bot uses. */
  const MaxChunk: nat := 300

  /** A word break is taken only when it wastes fewer than this many characters. */
  const BreakSlack: nat := 50

  /** `chunk.rfind(' ') + 1`: the position just after the last space of
      `w`, or 0 when `w` has no space. */
  function AfterLastSpace(w: string): (n: nat)
    ensures n <= |w|
    ensures n > 0 ==> w[n - 1] == ' '
    ensures forall k :: n <= k < |w| ==> w[k] != ' '
  {
    if w == [] then 0
    else if w[|w| - 1] == ' ' then |w|
    else AfterLastSpace(w[..|w| - 1])
  }

  /** Where one pass of the loop moves the cursor from `start`, capped at
      the end of the text as Python's slice caps the window. With
      `m >= 50` the cursor always advances. */
  function Cut(text: string, start: nat, m: nat): (end: nat)
    requires start < |text|
    ensures start <= end <= |text| && end - start <= m
    ensures m >= BreakSlack ==> end > start
  {
    var e := start + m;
    if e < |text| then
      var lastSpace := AfterLastSpace(text[start..e]);
      if lastSpace > m - BreakSlack then start + lastSpace else e
    else |text|
  }

  /** The break rule. A window that reaches the end of the text is kept
      whole. Otherwise the cut is either the hard one at `start + m`, with
      no space in the window's last 50 places, or it lands just after the
      window's last space, more than `m - 50` characters in. */
  lemma CutRule(text: string, start: nat, m: nat)
    requires start < |text|
    ensures var end := Cut(text, start, m);
      && (start + m >= |text| ==> end == |text|)
      && (start + m < |text| ==>
        (end == start + m && forall k :: start <= k < start + m && k - start >= m - BreakSlack ==> text[k] != ' ')
        || (end - start > m - BreakSlack && (end > start ==> text[end - 1] == ' ')
            && forall k :: end <= k < start + m ==> text[k] != ' '))
  {
    var e := start + m;
    if e < |text| {
      var window := text[start..e];
      assert forall k :: start <= k < e ==> text[k] == window[k - start];
    }
  }

  /** The untrimmed pieces the loop cuts from `start` on; `None` when the
      loop stops making progress (a cut with `end == start`) and so never
      ends. */
  function Pieces(text: string, start: nat, m: nat): (r: Option<seq<string>>)
    requires start <= |text|
    ensures r.Some? ==> |r.value| <= |text| - start
    decreases |text| - start
  {
    if start == |text| then Some([])
    else
      var e := Cut(text, start, m);
      if e == start then None
      else match Pieces(text, e, m)
        case None => None
        case Some(ps) => Some([text[start..e]] + ps)
  }

  function StripAll(ps: seq<string>): (r: seq<string>)
    ensures |r| == |ps| && forall i :: 0 <= i < |ps| ==> r[i] == Strip(ps[i])
  {
    if ps == [] then [] else [Strip(ps[0])] + StripAll(ps[1..])
  }

  /** `split_text(text, m)`, or `None` when that call never returns; never
      more chunks than characters. */
  function Split(text: string, m: nat): (r: Option<seq<string>>)
    ensures r.Some? ==> |r.value| <= |text|
  {
    match Pieces(text, 0, m)
    case None => None
    case Some(ps) => Some(StripAll(ps))
  }

  /** `split_text(text)` with its default `max_chunk`, which always returns. */
  function SplitDefault(text: string): (r: seq<string>)
    ensures Split(text, MaxChunk) == Some(r)
  {
    SplitIsChunksFrom(text, MaxChunk);
    ChunksFrom(text, 0, MaxChunk)
  }

  /** `split_text` as written: a loop over a cursor that appends each
      stripped piece. */
  method SplitText(fullText: string, maxChunk: nat) returns (chunks: seq<string>)
    requires maxChunk >= BreakSlack
    ensures Split(fullText, maxChunk) == Some(chunks)
  {
    chunks := [];
    var start := 0;
    ghost var all := ChunksFrom(fullText, 0, maxChunk);
    assert [] + all == all;
    while start < |fullText|
      invariant all == chunks + ChunksFrom(fullText, start, maxChunk)
      decreases |fullText| - start
    {
      var end, chunk := NextChunk(fullText, start, maxChunk);
      LoopStep(fullText, start, maxChunk, end, chunk, chunks, all);
      chunks := chunks + [Strip(chunk)];
      start := end;
    }
    assert chunks + [] == chunks;
    SplitIsChunksFrom(fullText, maxChunk);
  }

  /** One pass of `split_text`'s loop: the window from `start`, shortened
      to end after its last space when that space lies in the last 50
      places. */
  method NextChunk(fullText: string, start: nat, maxChunk: nat) returns (end: nat, chunk: string)
    requires start < |fullText|
    ensures chunk == fullText[start..Cut(fullText, start, maxChunk)]
    ensures end == Cut(fullText, start, maxChunk) || (end >= |fullText| && Cut(fullText, start, maxChunk) == |fullText|)
  {
    end := start + maxChunk;
    if end < |fullText| {
      chunk := fullText[start..end];
      var lastSpace := AfterLastSpace(chunk);
      if lastSpace > maxChunk - BreakSlack {
        end := start + lastSpace;
        chunk := fullText[start..end];
      }
    } else {
      chunk := fullText[start..];
    }
  }

  /** One pass of the loop keeps its invariant. */
  lemma LoopStep(text: string, start: nat, m: nat, end: nat, chunk: string,
                 chunks: seq<string>, all: seq<string>)
    requires m >= BreakSlack && start < |text|
    requires end == Cut(text, start, m) || (end >= |text| && Cut(text, start, m) == |text|)
    requires chunk == text[start..Cut(text, start, m)]
    requires all == chunks + ChunksFrom(text, start, m)
    ensures all == (chunks + [Strip(chunk)]) + ChunksFrom(text, end, m)
  {
    ChunksStep(text, start, m);
    assert ChunksFrom(text, end, m) == ChunksFrom(text, Cut(text, start, m), m);
    AppendAssoc(chunks, [Strip(chunk)], ChunksFrom(text, end, m));
  }

  lemma SplitIsChunksFrom(text: string, m: nat)
    requires m >= BreakSlack
    ensures Split(text, m) == Some(ChunksFrom(text, 0, m))
  {
    PiecesTerminate(text, 0, m);
  }


  /** The stripped pieces from cursor `start` on (none once the cursor is
      at or past the end). */
  function ChunksFrom(text: string, start: nat, m: nat): seq<string>
    requires m >= BreakSlack
  {
    if start >= |text| then []
    else
      PiecesTerminate(text, start, m);
      StripAll(Pieces(text, start, m).value)
  }

  lemma ChunksStep(text: string, start: nat, m: nat)
    requires m >= BreakSlack && start < |text|
    ensures var e := Cut(text, start, m);
      ChunksFrom(text, start, m) == [Strip(text[start..e])] + ChunksFrom(text, e, m)
  {
    var e := Cut(text, start, m);
    PiecesTerminate(text, e, m);
    var rest := Pieces(text, e, m).value;
    assert Pieces(text, start, m).value == [text[start..e]] + rest;
    assert StripAll([text[start..e]] + rest) == [Strip(text[start..e])] + StripAll(rest);
    if e == |text| {
      assert rest == [];
    }
  }

  // ---------------------------------------------------------------------
  // Termination

  /** With `m >= 50` every pass advances the cursor, so the loop ends. */
  lemma {:induction false} PiecesTerminate(text: string, start: nat, m: nat)
    requires start <= |text| && m >= BreakSlack
    ensures Pieces(text, start, m).Some?
    decreases |text| - start
  {
    if start < |text| {
      PiecesTerminate(text, Cut(text, start, m), m);
    }
  }

  lemma SplitTerminates(text: string, m: nat)
    requires m >= BreakSlack
    ensures Split(text, m).Some?
  {
    PiecesTerminate(text, 0, m);
  }

  /** With `m < 50`, a window with no space that does not reach the end
      leaves the cursor where it was, wherever the cursor is: from there
      the loop never ends. */
  lemma PiecesStall(text: string, start: nat, m: nat)
    requires m < BreakSlack && start + m < |text|
    requires forall k :: start <= k < start + m ==> text[k] != ' '
    ensures Cut(text, start, m) == start
    ensures Pieces(text, start, m) == None
  {
    var w := text[start..start + m];
    assert forall k :: 0 <= k < m ==> w[k] == text[start + k];
    assert AfterLastSpace(w) == 0;
  }

  /** In particular a first window with no space stalls the whole split. */
  lemma SplitStalls(text: string, m: nat)
    requires m < BreakSlack && m < |text|
    requires forall k :: 0 <= k < m ==> text[k] != ' '
    ensures Cut(text, 0, m) == 0
    ensures Split(text, m) == None
  {
    PiecesStall(text, 0, m);
  }

  // ---------------------------------------------------------------------
  // The pieces tile the text and follow the cut rule

  /** `"".join([p] + ps)` is `p` followed by `"".join(ps)`. */
  lemma JoinNoSepCons(p: string, ps: seq<string>)
    ensures Join([p] + ps, "") == p + Join(ps, "")
  {
    if ps == [] {
      assert [p] + ps == [p] && p + [] == p;
    } else {
      JoinCons(p, ps, "");
      assert p + "" == p;
    }
  }

  /** The untrimmed pieces, concatenated in order, give back the text. */
  lemma {:induction false} PiecesTile(text: string, start: nat, m: nat)
    requires start <= |text| && Pieces(text, start, m).Some?
    ensures Join(Pieces(text, start, m).value, "") == text[start..]
    decreases |text| - start
  {
    if start < |text| {
      var e := Cut(text, start, m);
      PiecesTile(text, e, m);
      JoinNoSepCons(text[start..e], Pieces(text, e, m).value);
      assert text[start..] == text[start..e] + text[e..];
    }
  }

  /** Every untrimmed piece is non-empty and at most `m` long. */
  lemma {:induction false} PiecesBounded(text: string, start: nat, m: nat)
    requires start <= |text| && Pieces(text, start, m).Some?
    ensures forall p :: p in Pieces(text, start, m).value ==> 0 < |p| <= m
    decreases |text| - start
  {
    if start < |text| {
      PiecesBounded(text, Cut(text, start, m), m);
    }
  }

  /** The `i`-th piece is the window `Cut` chooses at its offset, and it is
      the last piece exactly when its window reaches the end of the text. */
  lemma PieceAt(text: string, start: nat, m: nat, i: nat)
    requires start <= |text| && Pieces(text, start, m).Some?
    requires i < |Pieces(text, start, m).value|
    ensures var ps := Pieces(text, start, m).value;
      var o := start + TotalLength(ps[..i]);
      o < |text| && ps[i] == text[o..Cut(text, o, m)]
      && (i == |ps| - 1 <==> o + m >= |text|)
  {
    PiecesAtOffset(text, start, m, i);
  }

  /** `PieceAt`, by induction on `i`: a later piece is one of the pieces cut
      after the first, shifted by the first piece's length. */
  lemma {:induction false} PiecesAtOffset(text: string, start: nat, m: nat, i: nat)
    requires start <= |text| && Pieces(text, start, m).Some?
    requires i < |Pieces(text, start, m).value|
    ensures PieceAtOffset(text, m, Pieces(text, start, m).value, start, i)
    decreases i
  {
    var ps := Pieces(text, start, m).value;
    if i == 0 {
      assert ps[..0] == [];
      PieceFirst(text, start, m);
    } else {
      var e := Cut(text, start, m);
      PiecesCons(text, start, m);
      var rest := Pieces(text, e, m).value;
      PiecesAtOffset(text, e, m, i - 1);
      assert |ps| == |rest| + 1;
      ShiftPieceAt(text, m, text[start..e], rest, start, e, i);
    }
  }

  /** Piece `i` of `ps` is the one cut at its offset from `start`, and it is
      the last exactly when that cut reaches the end of the text. */
  predicate PieceAtOffset(text: string, m: nat, ps: seq<string>, start: nat, i: nat)
    requires i < |ps|
  {
    var o := start + TotalLength(ps[..i]);
    o < |text| && ps[i] == text[o..Cut(text, o, m)]
    && (i == |ps| - 1 <==> o + m >= |text|)
  }

  /** Putting a piece in front moves every later piece's offset by its length. */
  lemma ShiftPieceAt(text: string, m: nat, p: string, rest: seq<string>, start: nat, e: nat, i: nat)
    requires e == start + |p|
    requires 0 < i <= |rest| && PieceAtOffset(text, m, rest, e, i - 1)
    ensures PieceAtOffset(text, m, [p] + rest, start, i)
  {
    PrefixLengthCons([p] + rest, p, rest, i);
  }

  /** A cursor before the end cuts one piece, then goes on from the cut. */
  lemma PiecesCons(text: string, start: nat, m: nat)
    requires start < |text| && Pieces(text, start, m).Some?
    ensures var e := Cut(text, start, m);
      Pieces(text, e, m).Some? && Pieces(text, start, m).value == [text[start..e]] + Pieces(text, e, m).value
  {
  }

  /** The first `i` pieces of `[p] + rest` are `p` and the first `i - 1` of `rest`. */
  lemma PrefixLengthCons(ps: seq<string>, p: string, rest: seq<string>, i: nat)
    requires ps == [p] + rest && 0 < i <= |rest| + 1
    ensures TotalLength(ps[..i]) == |p| + TotalLength(rest[..i - 1])
    ensures |ps| == |rest| + 1 && (i < |ps| ==> ps[i] == rest[i - 1])
  {
    assert ps[..i][0] == p && ps[..i][1..] == rest[..i - 1];
  }

  lemma PieceFirst(text: string, start: nat, m: nat)
    requires start < |text| && Pieces(text, start, m).Some?
    ensures var ps := Pieces(text, start, m).value;
      ps != [] && ps[0] == text[start..Cut(text, start, m)]
      && (|ps| == 1 <==> start + m >= |text|)
  {
    var e := Cut(text, start, m);
    var rest := Pieces(text, e, m).value;
    assert Pieces(text, start, m).value == [text[start..e]] + rest;
    if start + m < |text| {
      assert e < |text|;
      assert rest != [];
    } else {
      assert e == |text|;
    }
  }

  /** The chunks are the stripped pieces, so each is at most `m` long. */
  lemma ChunksBounded(text: string, m: nat)
    requires Split(text, m).Some?
    ensures var ps := Pieces(text, 0, m).value; var cs := Split(text, m).value;
      |cs| == |ps| && forall i :: 0 <= i < |cs| ==> cs[i] == Strip(ps[i]) && |cs[i]| <= m
  {
    PiecesBounded(text, 0, m);
    var ps := Pieces(text, 0, m).value;
    assert forall i :: 0 <= i < |ps| ==> ps[i] in ps;
  }

  /** The empty text gives no chunk. */
  lemma SplitEmpty(m: nat)
    ensures Split([], m) == Some([])
  {
  }

  /** A non-empty text that fits in one window gives exactly its strip. */
  lemma SplitShort(text: string, m: nat)
    requires 0 < |text| <= m
    ensures Split(text, m) == Some([Strip(text)])
  {
    assert Cut(text, 0, m) == |text|;
    assert Pieces(text, |text|, m) == Some([]);
    assert text[0..|text|] == text;
    assert [text[0..|text|]] + [] == [text];
    assert Pieces(text, 0, m) == Some([text]);
    assert StripAll([text]) == [Strip(text)];
  }
}
