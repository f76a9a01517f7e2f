/** HTTP messages as trees of spans. */
module HttpMessages {
  import opened RangeSets
  import opened Wire
  import opened JsonTree

  datatype Header = Header(span: Span, name: Span, value: Span)

  datatype RequestLine = RequestLine(span: Span, verb: Span, target: Span)

  datatype Status = Status(span: Span, code: Span, reason: Span)

  datatype BodyContent = Json(value: JsonValue) | Unknown(span: Span)

  datatype Body = Body(span: Span, content: BodyContent)

  datatype Request = Request(span: Span, line: RequestLine, headers: seq<Header>, body: Option<Body>)

  datatype Response = Response(
    span: Span, status: Status, headers: seq<Header>, body: Option<Body>,
    boundaries: Option<seq<Span>>, trailers: Option<seq<Header>>)

  // ----- Header names

  function Ascii(s: string): (bytes: seq<byte>)
    requires forall k :: 0 <= k < |s| ==> s[k] < 128 as char
    ensures |bytes| == |s|
  {
    seq(|s|, k requires 0 <= k < |s| => s[k] as byte)
  }

  const HOST: seq<byte> := Ascii("host")
  const CONTENT_LENGTH: seq<byte> := Ascii("content-length")
  const CONTENT_TYPE: seq<byte> := Ascii("content-type")
  const TRANSFER_ENCODING: seq<byte> := Ascii("transfer-encoding")

  function Lower(b: byte): byte { if 0x41 <= b <= 0x5A then b + 0x20 else b }

  function Lowercase(s: seq<byte>): (lower: seq<byte>)
    ensures |lower| == |s|
  {
    seq(|s|, k requires 0 <= k < |s| => Lower(s[k]))
  }

  /** `eq_ignore_ascii_case` */
  predicate SameName(a: seq<byte>, b: seq<byte>) { Lowercase(a) == Lowercase(b) }

  /** `headers_with_name` */
  function HeadersWithName(headers: seq<Header>, name: seq<byte>): seq<Header> {
    if headers == [] then []
    else if SameName(headers[0].name.data, name) then [headers[0]] + HeadersWithName(headers[1..], name)
    else HeadersWithName(headers[1..], name)
  }

  /** The first header with a name. */
  ghost predicate FirstOfName(headers: seq<Header>, k: nat, name: seq<byte>)
    requires k < |headers|
  {
    && SameName(headers[k].name.data, name)
    && forall j :: 0 <= j < k ==> !SameName(headers[j].name.data, name)
  }

  /** The same ASCII character, or the two cases of one letter. */
  predicate SameLetter(b: byte, c: char) {
    || b as int == c as int
    || ('a' <= c <= 'z' && b as int == c as int - 32)
    || ('A' <= c <= 'Z' && b as int == c as int + 32)
  }

  /** `bytes` spell `text`, in whatever case. */
  predicate SpelledAnyCase(bytes: seq<byte>, text: string) {
    |bytes| == |text| && forall k :: 0 <= k < |bytes| ==> SameLetter(bytes[k], text[k])
  }

  lemma LowerMeans(a: byte, b: byte)
    ensures Lower(a) == Lower(b) <==> SameLetter(a, b as char)
  {
  }

  /** Names are compared letter by letter, case aside. */
  lemma SameNameMeans(name: seq<byte>, text: string)
    requires forall k :: 0 <= k < |text| ==> text[k] < 128 as char
    ensures SameName(name, Ascii(text)) <==> SpelledAnyCase(name, text)
  {
    hide Lower, SameLetter;
    var other := Ascii(text);
    forall k | 0 <= k < |name| && k < |text|
      ensures Lower(name[k]) == Lower(other[k]) <==> SameLetter(name[k], text[k])
    {
      LowerMeans(name[k], other[k]);
    }
    if |name| == |text| {
      if SameName(name, other) {
        forall k | 0 <= k < |name| ensures SameLetter(name[k], text[k]) {
          assert Lowercase(name)[k] == Lowercase(other)[k];
        }
      } else {
        assert !forall k :: 0 <= k < |name| ==> Lowercase(name)[k] == Lowercase(other)[k];
      }
    }
  }

  /** Header `k` is the first one with this name. */
  ghost predicate FirstNamed(headers: seq<Header>, k: nat, text: string)
    requires k < |headers|
  {
    && SpelledAnyCase(headers[k].name.data, text)
    && forall j :: 0 <= j < k ==> !SpelledAnyCase(headers[j].name.data, text)
  }

  ghost predicate NoneNamed(headers: seq<Header>, text: string) {
    forall k :: 0 <= k < |headers| ==> !SpelledAnyCase(headers[k].name.data, text)
  }

  lemma FirstNamedMeans(headers: seq<Header>, k: nat, text: string)
    requires k < |headers| && forall i :: 0 <= i < |text| ==> text[i] < 128 as char
    ensures FirstOfName(headers, k, Ascii(text)) <==> FirstNamed(headers, k, text)
  {
    hide SameName, SpelledAnyCase, Ascii;
    forall j | 0 <= j < |headers|
      ensures SameName(headers[j].name.data, Ascii(text)) <==> SpelledAnyCase(headers[j].name.data, text)
    {
      SameNameMeans(headers[j].name.data, text);
    }
  }

  lemma {:induction false} FirstWithName(headers: seq<Header>, name: seq<byte>, k: nat)
    requires k < |headers| && FirstOfName(headers, k, name)
    ensures HeadersWithName(headers, name) != [] && HeadersWithName(headers, name)[0] == headers[k]
  {
    hide SameName;
    if k > 0 {
      assert forall j :: 0 <= j < k - 1 ==> headers[1..][j] == headers[j + 1];
      FirstWithName(headers[1..], name, k - 1);
    }
  }

  lemma {:induction false} WithNameIsFirst(headers: seq<Header>, name: seq<byte>) returns (k: nat)
    requires HeadersWithName(headers, name) != []
    ensures k < |headers| && FirstOfName(headers, k, name)
  {
    hide SameName;
    if SameName(headers[0].name.data, name) {
      k := 0;
    } else {
      var j := WithNameIsFirst(headers[1..], name);
      k := j + 1;
      forall i | 0 <= i < k ensures !SameName(headers[i].name.data, name) {
        if i > 0 { assert headers[i] == headers[1..][i - 1]; }
      }
    }
  }

  // ----- Messages without their data

  /** `Header::without_value` */
  function WithoutValue(h: Header): (rs: RangeSet)
    ensures Indices(rs) == Indices(h.span.indices) - Indices(h.value.indices)
  {
    Difference(h.span.indices, h.value.indices)
  }

  ghost function HeaderSpans(headers: seq<Header>): set<nat> {
    if headers == [] then {} else Indices(headers[0].span.indices) + HeaderSpans(headers[1..])
  }

  ghost function BodySpan(body: Option<Body>): set<nat> {
    if body.Some? then Indices(body.value.span.indices) else {}
  }

  function MinusHeaders(indices: RangeSet, headers: seq<Header>): (rs: RangeSet)
    ensures Indices(rs) == Indices(indices) - HeaderSpans(headers)
    decreases |headers|
  {
    if headers == [] then indices else MinusHeaders(Difference(indices, headers[0].span.indices), headers[1..])
  }

  function MinusBody(indices: RangeSet, body: Option<Body>): (rs: RangeSet)
    ensures Indices(rs) == Indices(indices) - BodySpan(body)
  {
    if body.Some? then Difference(indices, body.value.span.indices) else indices
  }

  /** The loop over the headers that both `without_data` methods share, and the body after it. */
  method WithoutHeadersAndBody(all: RangeSet, headers: seq<Header>, body: Option<Body>) returns (indices: RangeSet)
    ensures indices == MinusBody(MinusHeaders(all, headers), body)
  {
    indices := all;
    assert headers[0..] == headers;
    for k := 0 to |headers|
      invariant MinusHeaders(indices, headers[k..]) == MinusHeaders(all, headers)
    {
      assert headers[k..][1..] == headers[k + 1..];
      indices := Difference(indices, headers[k].span.indices);
    }
    if body.Some? { indices := Difference(indices, body.value.span.indices); }
  }

  /** What `Request::without_data` returns. */
  function RequestFrame(r: Request): (rs: RangeSet)
    ensures Indices(rs) ==
      Indices(r.span.indices) - Indices(r.line.target.indices) - HeaderSpans(r.headers) - BodySpan(r.body)
  {
    MinusBody(MinusHeaders(Difference(r.span.indices, r.line.target.indices), r.headers), r.body)
  }

  /** What `Response::without_data` returns. */
  function ResponseFrame(r: Response): (rs: RangeSet)
    ensures Indices(rs) == Indices(r.span.indices) - HeaderSpans(r.headers) - BodySpan(r.body)
  {
    MinusBody(MinusHeaders(r.span.indices, r.headers), r.body)
  }

  /** `Request::without_data` */
  method RequestWithoutData(r: Request) returns (indices: RangeSet)
    ensures indices == RequestFrame(r)
  {
    indices := WithoutHeadersAndBody(Difference(r.span.indices, r.line.target.indices), r.headers, r.body);
  }

  /** `Response::without_data` */
  method ResponseWithoutData(r: Response) returns (indices: RangeSet)
    ensures indices == ResponseFrame(r)
  {
    indices := WithoutHeadersAndBody(r.span.indices, r.headers, r.body);
  }
}
