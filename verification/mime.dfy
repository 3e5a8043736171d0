/**
 * `extract_all_text_parts`: a depth-first walk over the MIME tree of a
 * message that collects the decoded text of its `text/plain` and
 * `text/html` leaves, in order. HTML is cleaned of hidden blocks, the
 * recipient's address in it is replaced by a placeholder, and the result is
 * converted to plain text. The base64 decoder, the hidden-block remover and
 * the HTML converter are outside libraries; they are parameters here.
 */
module Mime {
  import opened Wrappers
  import opened PyStrings

  /** A node of the MIME tree. A node with a `parts` list is a container,
      whatever its `mimeType`; any other node is a leaf. A leaf's `body` is
      `None` when the node has no `body` key, and otherwise the body's
      `data` (empty when the key is missing). */
  datatype Payload =
    | Container(mimeType: Option<string>, parts: seq<Payload>)
    | Leaf(mimeType: Option<string>, body: Option<string>)

  /** The outside decoders. `b64decode` is base64 decoding followed by
      UTF-8 decoding that drops bad bytes; it is `None` when it raises. */
  datatype Codecs = Codecs(
    b64decode: string -> Option<string>,
    removeHidden: string -> string,
    html2text: string -> string)

  const PlainType: string := "text/plain"
  const HtmlType: string := "text/html"
  const Placeholder: string := "[open mail project]"

  /** Reading a leaf raises when it is a text leaf with no `body` key, or
      with data that does not decode. */
  predicate LeafRaises(mimeType: Option<string>, body: Option<string>, codecs: Codecs)
  {
    (mimeType == Some(PlainType) || mimeType == Some(HtmlType))
    && (body.None? || (body.value != [] && codecs.b64decode(body.value).None?))
  }

  /** The text one leaf contributes: `Some([])` for nothing, `None` when
      reading the leaf raises. */
  function LeafParts(mimeType: Option<string>, body: Option<string>, recipient: string, codecs: Codecs): (r: Option<seq<string>>)
    ensures r.Some? ==> |r.value| <= 1
    ensures r == Some([]) <==> (mimeType != Some(PlainType) && mimeType != Some(HtmlType)) || body == Some([])
    ensures r.None? <==> LeafRaises(mimeType, body, codecs)
    ensures mimeType == Some(PlainType) && body.Some? && body.value != [] && codecs.b64decode(body.value).Some?
      ==> r == Some([codecs.b64decode(body.value).value])
  {
    if mimeType != Some(PlainType) && mimeType != Some(HtmlType) then Some([])
    else if body.None? then None
    else if body.value == [] then Some([])
    else match codecs.b64decode(body.value)
      case None => None
      case Some(text) =>
        if mimeType == Some(PlainType) then Some([text])
        else Some([codecs.html2text(Replace(codecs.removeHidden(text), recipient, Placeholder))])
  }

  /** The texts of a tree, depth first, or `None` when the walk raises; a
      walk that does not raise yields one text per text leaf with data. */
  function TextParts(p: Payload, recipient: string, codecs: Codecs): (r: Option<seq<string>>)
    ensures r.Some? ==> |r.value| == TextLeaves(p)
    decreases p
  {
    match p
    case Container(_, parts) => ForestParts(parts, recipient, codecs)
    case Leaf(mimeType, body) => LeafParts(mimeType, body, recipient, codecs)
  }

  /** The texts of a list of sibling trees, in order. */
  function ForestParts(ps: seq<Payload>, recipient: string, codecs: Codecs): (r: Option<seq<string>>)
    ensures r.Some? ==> |r.value| == ForestTextLeaves(ps)
    decreases ps
  {
    if ps == [] then Some([])
    else match TextParts(ps[0], recipient, codecs)
      case None => None
      case Some(first) =>
        match ForestParts(ps[1..], recipient, codecs)
        case None => None
        case Some(rest) => Some(first + rest)
  }

  /** `extract_all_text_parts(payload, recipient, parts)`: appends the texts
      of the tree to `parts`; `None` when the walk raises. */
  method ExtractAllTextParts(payload: Payload, recipient: string, codecs: Codecs, parts: seq<string>)
    returns (r: Option<seq<string>>)
    ensures r == (match TextParts(payload, recipient, codecs)
                  case None => None
                  case Some(found) => Some(parts + found))
    decreases payload
  {
    if payload.Container? {
      var acc := parts;
      ghost var found: seq<string> := [];
      assert payload.parts[0..] == payload.parts && acc == parts + found;
      assert Prefixed(found, ForestParts(payload.parts, recipient, codecs)) == ForestParts(payload.parts, recipient, codecs) by {
        match ForestParts(payload.parts, recipient, codecs)
        case None =>
        case Some(more) => assert [] + more == more;
      }
      for i := 0 to |payload.parts|
        invariant acc == parts + found
        invariant ForestParts(payload.parts, recipient, codecs) == Prefixed(found, ForestParts(payload.parts[i..], recipient, codecs))
      {
        ForestStep(payload.parts, i, recipient, codecs);
        var next := ExtractAllTextParts(payload.parts[i], recipient, codecs, acc);
        if next.None? {
          return None;
        }
        var first := TextParts(payload.parts[i], recipient, codecs).value;
        PrefixedAssoc(found, first, ForestParts(payload.parts[i + 1..], recipient, codecs));
        found := found + first;
        acc := next.value;
      }
      assert payload.parts[|payload.parts|..] == [];
      assert found + [] == found;
      return Some(acc);
    }
    var mimeType := payload.mimeType;
    if mimeType == Some(PlainType) {
      if payload.body.None? {
        return None;
      }
      var data := payload.body.value;
      if data != [] {
        var decoded := codecs.b64decode(data);
        if decoded.None? {
          return None;
        }
        return Some(parts + [decoded.value]);
      }
    } else if mimeType == Some(HtmlType) {
      if payload.body.None? {
        return None;
      }
      var data := payload.body.value;
      if data != [] {
        var decoded := codecs.b64decode(data);
        if decoded.None? {
          return None;
        }
        var htmlBody := codecs.removeHidden(decoded.value);
        htmlBody := Replace(htmlBody, recipient, Placeholder);
        return Some(parts + [codecs.html2text(htmlBody)]);
      }
    }
    assert parts + [] == parts;
    return Some(parts);
  }

  /** Texts found so far, followed by the texts still to come. */
  function Prefixed(found: seq<string>, rest: Option<seq<string>>): Option<seq<string>>
  {
    match rest
    case None => None
    case Some(more) => Some(found + more)
  }

  lemma PrefixedAssoc(a: seq<string>, b: seq<string>, rest: Option<seq<string>>)
    ensures Prefixed(a, Prefixed(b, rest)) == Prefixed(a + b, rest)
  {
    match rest
    case None =>
    case Some(more) => assert a + (b + more) == (a + b) + more;
  }

  lemma ForestStep(ps: seq<Payload>, i: nat, recipient: string, codecs: Codecs)
    requires i < |ps|
    ensures ForestParts(ps[i..], recipient, codecs)
      == match TextParts(ps[i], recipient, codecs)
         case None => None
         case Some(first) => Prefixed(first, ForestParts(ps[i + 1..], recipient, codecs))
  {
    assert ps[i..][1..] == ps[i + 1..];
  }

  // ---------------------------------------------------------------------
  // Properties of the walk

  /** The number of text leaves with data in a tree. */
  function TextLeaves(p: Payload): nat
    decreases p
  {
    match p
    case Container(_, parts) => ForestTextLeaves(parts)
    case Leaf(mimeType, body) =>
      if (mimeType == Some(PlainType) || mimeType == Some(HtmlType)) && body.Some? && body.value != [] then 1 else 0
  }

  function ForestTextLeaves(ps: seq<Payload>): nat
    decreases ps
  {
    if ps == [] then 0 else TextLeaves(ps[0]) + ForestTextLeaves(ps[1..])
  }

  /** Siblings are visited in order: the texts of `a + b` are those of `a`
      followed by those of `b`, and the walk raises if either part does. */
  lemma {:induction false} ForestAppend(a: seq<Payload>, b: seq<Payload>, recipient: string, codecs: Codecs)
    ensures ForestParts(a + b, recipient, codecs) ==
      match ForestParts(a, recipient, codecs)
      case None => None
      case Some(x) => Prefixed(x, ForestParts(b, recipient, codecs))
    decreases |a|
  {
    if a == [] {
      assert a + b == b;
      match ForestParts(b, recipient, codecs)
      case None =>
      case Some(y) => assert [] + y == y;
    } else {
      assert (a + b)[0] == a[0] && (a + b)[1..] == a[1..] + b;
      ForestAppend(a[1..], b, recipient, codecs);
      match TextParts(a[0], recipient, codecs)
      case None =>
      case Some(first) =>
        match ForestParts(a[1..], recipient, codecs)
        case None =>
        case Some(x) =>
          match ForestParts(b, recipient, codecs)
          case None =>
          case Some(y) => assert first + (x + y) == (first + x) + y;
    }
  }

  /** A tree with no HTML leaf gives the same texts whatever the recipient:
      only HTML text has the address replaced. */
  predicate NoHtml(p: Payload)
    decreases p
  {
    match p
    case Container(_, parts) => forall i :: 0 <= i < |parts| ==> NoHtml(parts[i])
    case Leaf(mimeType, _) => mimeType != Some(HtmlType)
  }

  lemma {:induction false} PlainIgnoresRecipient(p: Payload, r1: string, r2: string, codecs: Codecs)
    requires NoHtml(p)
    ensures TextParts(p, r1, codecs) == TextParts(p, r2, codecs)
    decreases p, 1
  {
    match p
    case Container(_, parts) => ForestIgnoresRecipient(parts, r1, r2, codecs);
    case Leaf(_, _) =>
  }

  lemma {:induction false} ForestIgnoresRecipient(ps: seq<Payload>, r1: string, r2: string, codecs: Codecs)
    requires forall i :: 0 <= i < |ps| ==> NoHtml(ps[i])
    ensures ForestParts(ps, r1, codecs) == ForestParts(ps, r2, codecs)
    decreases ps, 0
  {
    if ps != [] {
      PlainIgnoresRecipient(ps[0], r1, r2, codecs);
      ForestIgnoresRecipient(ps[1..], r1, r2, codecs);
    }
  }

  /** A tree some leaf of which raises when read. */
  predicate Raises(p: Payload, codecs: Codecs)
    decreases p
  {
    match p
    case Container(_, parts) => exists i :: 0 <= i < |parts| && Raises(parts[i], codecs)
    case Leaf(mimeType, body) => LeafRaises(mimeType, body, codecs)
  }

  /** The walk raises exactly when some leaf of the tree raises: an error in
      one leaf abandons the whole message, and nothing else does. */
  lemma {:induction false} TextPartsRaise(p: Payload, recipient: string, codecs: Codecs)
    ensures TextParts(p, recipient, codecs).None? <==> Raises(p, codecs)
    decreases p, 1
  {
    match p
    case Container(_, parts) => ForestPartsRaise(parts, recipient, codecs);
    case Leaf(_, _) =>
  }

  lemma {:induction false} ForestPartsRaise(ps: seq<Payload>, recipient: string, codecs: Codecs)
    ensures ForestParts(ps, recipient, codecs).None? <==> exists i :: 0 <= i < |ps| && Raises(ps[i], codecs)
    decreases ps, 0
  {
    if ps != [] {
      TextPartsRaise(ps[0], recipient, codecs);
      ForestPartsRaise(ps[1..], recipient, codecs);
      if exists i :: 0 <= i < |ps[1..]| && Raises(ps[1..][i], codecs) {
        var i :| 0 <= i < |ps[1..]| && Raises(ps[1..][i], codecs);
        assert Raises(ps[i + 1], codecs);
      }
      if exists i :: 0 <= i < |ps| && Raises(ps[i], codecs) {
        var i :| 0 <= i < |ps| && Raises(ps[i], codecs);
        if i > 0 {
          assert ps[1..][i - 1] == ps[i];
        }
      }
    }
  }

  /** An HTML leaf is converted after the hidden blocks are removed and
      every occurrence of the address is replaced by the placeholder: the
      cleaned HTML is cut at the address and the pieces are joined with the
      placeholder. An empty address puts the placeholder before every
      character and at the end. */
  lemma HtmlLeaf(data: string, recipient: string, codecs: Codecs)
    requires data != [] && codecs.b64decode(data).Some?
    ensures var cleaned := codecs.removeHidden(codecs.b64decode(data).value);
      TextParts(Leaf(Some(HtmlType), Some(data)), recipient, codecs)
      == Some([codecs.html2text(if recipient == [] then Interleave(cleaned, Placeholder)
                                else Join(SplitOn(cleaned, recipient), Placeholder))])
  {
    if recipient != [] {
      ReplaceIsJoinOfSplit(codecs.removeHidden(codecs.b64decode(data).value), recipient, Placeholder);
    }
  }

  /** Where the cleaned HTML does not mention the address, the converter
      sees it unchanged. */
  lemma HtmlLeafUntouched(data: string, recipient: string, codecs: Codecs)
    requires data != [] && codecs.b64decode(data).Some?
    requires recipient != [] && !Occurs(codecs.removeHidden(codecs.b64decode(data).value), recipient)
    ensures TextParts(Leaf(Some(HtmlType), Some(data)), recipient, codecs)
      == Some([codecs.html2text(codecs.removeHidden(codecs.b64decode(data).value))])
  {
    ReplaceAbsent(codecs.removeHidden(codecs.b64decode(data).value), recipient, Placeholder);
  }
}
