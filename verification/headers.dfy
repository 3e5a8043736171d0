/**
 * `get_recipient`, `get_sender`, `get_subject` and `get_date`: a linear
 * search through the message's headers for the first one whose name, in
 * lower case, is the wanted name; its value, or the empty string.
 */
module Headers {
  import opened PyStrings

  datatype Header = Header(name: string, value: string)

  /** The value of the first header named `name` in any letter case, or
      the empty string when there is none. */
  function HeaderValue(headers: seq<Header>, name: string): (r: string)
    ensures r != [] ==> exists h :: h in headers && Lower(h.name) == name && h.value == r
  {
    if headers == [] then []
    else if Lower(headers[0].name) == name then headers[0].value
    else HeaderValue(headers[1..], name)
  }

  /** When header `i` is the first whose name matches, its value is the
      one found. */
  lemma {:induction false} HeaderValueFirst(headers: seq<Header>, name: string, i: nat)
    requires i < |headers| && Lower(headers[i].name) == name
    requires forall j :: 0 <= j < i ==> Lower(headers[j].name) != name
    ensures HeaderValue(headers, name) == headers[i].value
    decreases i
  {
    if i > 0 {
      assert Lower(headers[0].name) != name;
      assert forall j :: 0 <= j < i - 1 ==> headers[1..][j] == headers[j + 1];
      HeaderValueFirst(headers[1..], name, i - 1);
    }
  }

  /** When no header name matches, the value is empty. */
  lemma {:induction false} HeaderValueMissing(headers: seq<Header>, name: string)
    requires forall j :: 0 <= j < |headers| ==> Lower(headers[j].name) != name
    ensures HeaderValue(headers, name) == []
    decreases |headers|
  {
    if headers != [] {
      assert Lower(headers[0].name) != name;
      assert forall j :: 0 <= j < |headers| - 1 ==> headers[1..][j] == headers[j + 1];
      HeaderValueMissing(headers[1..], name);
    }
  }

  /** The search loop the four lookups share, returning at the first match. */
  method FindHeader(headers: seq<Header>, name: string) returns (value: string)
    ensures value == HeaderValue(headers, name)
  {
    for i := 0 to |headers|
      invariant HeaderValue(headers, name) == HeaderValue(headers[i..], name)
    {
      assert headers[i..][1..] == headers[i + 1..];
      if Lower(headers[i].name) == name {
        return headers[i].value;
      }
    }
    return [];
  }

  method GetRecipient(headers: seq<Header>) returns (r: string)
    ensures r == HeaderValue(headers, "to")
  {
    r := FindHeader(headers, "to");
  }

  method GetSender(headers: seq<Header>) returns (r: string)
    ensures r == HeaderValue(headers, "from")
  {
    r := FindHeader(headers, "from");
  }

  method GetSubject(headers: seq<Header>) returns (r: string)
    ensures r == HeaderValue(headers, "subject")
  {
    r := FindHeader(headers, "subject");
  }

  method GetDate(headers: seq<Header>) returns (r: string)
    ensures r == HeaderValue(headers, "date")
  {
    r := FindHeader(headers, "date");
  }

  /** The lookup ignores the letter case of header names: renaming a header
      to the same name in other letters changes nothing. */
  lemma {:induction false} HeaderValueCaseBlind(headers: seq<Header>, k: nat, other: string, name: string)
    requires k < |headers| && Lower(other) == Lower(headers[k].name)
    ensures HeaderValue(headers[k := Header(other, headers[k].value)], name) == HeaderValue(headers, name)
    decreases |headers|
  {
    var h := headers[k := Header(other, headers[k].value)];
    if k > 0 {
      HeaderValueCaseBlind(headers[1..], k - 1, other, name);
      assert h[1..] == headers[1..][k - 1 := Header(other, headers[k].value)];
    }
  }

  /** Headers after the first match are never looked at. */
  lemma {:induction false} HeaderValueFirstWins(headers: seq<Header>, more: seq<Header>, name: string)
    requires exists i :: 0 <= i < |headers| && Lower(headers[i].name) == name
    ensures HeaderValue(headers + more, name) == HeaderValue(headers, name)
    decreases |headers|
  {
    if Lower(headers[0].name) != name {
      assert exists i :: 0 <= i < |headers[1..]| && Lower(headers[1..][i].name) == name by {
        var i :| 0 <= i < |headers| && Lower(headers[i].name) == name;
        assert i > 0 && headers[1..][i - 1] == headers[i];
      }
      HeaderValueFirstWins(headers[1..], more, name);
      assert (headers + more)[1..] == headers[1..] + more;
    }
  }
}
