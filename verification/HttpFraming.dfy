/** Which bytes are a message's body, told from the text of its headers. */
module HttpFraming {
  import opened RangeSets
  import opened Wire
  import opened Numerals
  import opened JsonTree
  import opened HttpMessages
  import opened HttpBody
  import opened HttpDisclosure
  import opened ChunkedBody
  import opened ChunkedLaws
  import P = JsonParser

  // ----- Headers by name

  /** The first header of a name has this value, if any header has the name. */
  lemma NamedValue(headers: seq<Header>, text: string)
    requires forall i :: 0 <= i < |text| ==> text[i] < 128 as char
    ensures NoneNamed(headers, text) <==> HeaderValue(headers, Ascii(text)).None?
    ensures forall k :: 0 <= k < |headers| && FirstNamed(headers, k, text) ==>
      HeaderValue(headers, Ascii(text)) == Some(headers[k].value.data)
    ensures HeaderValue(headers, Ascii(text)).Some? ==>
      exists k :: 0 <= k < |headers| && FirstNamed(headers, k, text)
  {
    hide SameName, SpelledAnyCase, Ascii, HeaderValue, FirstNamed;
    var name := Ascii(text);
    HeaderValueMeans(headers, name);
    forall k | 0 <= k < |headers|
      ensures FirstOfName(headers, k, name) <==> FirstNamed(headers, k, text)
      ensures SameName(headers[k].name.data, name) <==> SpelledAnyCase(headers[k].name.data, text)
    {
      FirstNamedMeans(headers, k, text);
      SameNameMeans(headers[k].name.data, text);
    }
    if HeaderValue(headers, name).Some? {
      var k :| 0 <= k < |headers| && FirstOfName(headers, k, name)
        && headers[k].value.data == HeaderValue(headers, name).value;
      assert FirstNamed(headers, k, text);
    }
  }

  /** The first content length is this number, however it is written. */
  ghost predicate Announced(headers: seq<Header>, n: nat) {
    && n < 0x1_0000_0000_0000_0000
    && exists k ::
         0 <= k < |headers| && FirstNamed(headers, k, "content-length") && Spells(headers[k].value.data, n, 10)
  }

  /** The first content length is no number. */
  ghost predicate Misannounced(headers: seq<Header>) {
    exists k ::
      && 0 <= k < |headers| && FirstNamed(headers, k, "content-length")
      && forall n: nat :: n < 0x1_0000_0000_0000_0000 ==> !Spells(headers[k].value.data, n, 10)
  }

  lemma ContentLengthMeans(headers: seq<Header>, n: nat)
    ensures Announced(headers, n) <==>
      var value := HeaderValue(headers, CONTENT_LENGTH); value.Some? && FromStrRadix(value.value, 10) == Some(n)
    ensures Misannounced(headers) <==>
      var value := HeaderValue(headers, CONTENT_LENGTH); value.Some? && FromStrRadix(value.value, 10).None?
  {
    hide FromStrRadix, HeaderValue, Ascii, FirstNamed, Spells;
    NamedValue(headers, "content-length");
    var value := HeaderValue(headers, CONTENT_LENGTH);
    if value.Some? {
      forall m: nat ensures FromStrRadix(value.value, 10) == Some(m) <==>
        m < 0x1_0000_0000_0000_0000 && Spells(value.value, m, 10)
      {
        ReadsExactlyNumbers(value.value, m, 10);
      }
      var k :| 0 <= k < |headers| && FirstNamed(headers, k, "content-length");
      if FromStrRadix(value.value, 10).Some? {
        assert Spells(headers[k].value.data, FromStrRadix(value.value, 10).value, 10);
      }
    }
  }

  /** A number as it is usually written spells itself. */
  lemma DecimalSpells(n: nat)
    requires n < 0x1_0000_0000_0000_0000
    ensures Spells(DecimalDigits(n), n, 10)
  {
    hide DecimalDigits, Spells;
    DecimalRoundTrip(n);
    ReadsExactlyNumbers(DecimalDigits(n), n, 10);
  }

  // ----- Requests

  /** `request_body_len`, from the text of the headers. */
  lemma RequestBodyLenMeans(headers: seq<Header>, n: nat)
    ensures RequestBodyLen(headers) == Ok(n) <==>
      && NoneNamed(headers, "transfer-encoding")
      && (Announced(headers, n) || (n == 0 && NoneNamed(headers, "content-length")))
    ensures RequestBodyLen(headers) == Err(UnsupportedEncoding) <==> !NoneNamed(headers, "transfer-encoding")
    ensures RequestBodyLen(headers) == Err(BadContentLength) <==>
      NoneNamed(headers, "transfer-encoding") && Misannounced(headers)
  {
    hide FromStrRadix, HeaderValue, Ascii, NoneNamed, Announced, Misannounced;
    NamedValue(headers, "transfer-encoding");
    NamedValue(headers, "content-length");
    ContentLengthMeans(headers, n);
  }

  /** A request's body is as many bytes behind the head as its first content length says; without one there is none. */
  lemma RequestIsFramed(src: seq<byte>, offset: nat, headEnd: nat, head: Request, r: Request)
    requires offset <= headEnd <= |src| && IsRequest(src, offset, headEnd, head, r)
    ensures NoneNamed(head.headers, "transfer-encoding")
    ensures NoneNamed(head.headers, "content-length") ==> r.body.None? && r.span.data == src[offset..headEnd]
    ensures forall n :: Announced(head.headers, n) ==>
      && headEnd + n <= |src| && r.span.data == src[offset..headEnd + n]
      && (r.body.Some? <==> n > 0)
      && (r.body.Some? ==> r.body.value.span.data == src[headEnd..headEnd + n])
    ensures NoneNamed(head.headers, "content-length") || exists n :: Announced(head.headers, n)
  {
    hide NoneNamed, Announced, RequestBodyLen, FromRange, IndexRanges, ContentType, P.Parse, Offset;
    var len := RequestBodyLen(head.headers).value;
    RequestBodyLenMeans(head.headers, len);
    RequestBodyLenMeans(head.headers, 0);
    IndexOneRange(src, headEnd, headEnd + len);
    forall n | Announced(head.headers, n) ensures n == len {
      RequestBodyLenMeans(head.headers, n);
    }
  }

  /** Why a request is refused, from the text of its headers. */
  lemma RequestFailsBecause(src: seq<byte>, headEnd: nat, head: Request, error: HttpError)
    requires RequestFails(src, headEnd, head, error)
    ensures match error
      case UnsupportedEncoding => !NoneNamed(head.headers, "transfer-encoding")
      case BadContentLength => NoneNamed(head.headers, "transfer-encoding") && Misannounced(head.headers)
      case Panicked => exists n :: Announced(head.headers, n) && headEnd + n >= 0x1_0000_0000_0000_0000
      case BodyExceedsSource => exists n :: Announced(head.headers, n) && headEnd + n > |src|
      case BadJson => SaysJson(head.headers)
      case _ => false
  {
    hide NoneNamed, Announced, Misannounced, P.Parse, SaysJson;
    var len := RequestBodyLen(head.headers);
    RequestBodyLenMeans(head.headers, if len.Ok? then len.value else 0);
    RequestBodyLenErrors(head.headers);
    SaysJsonMeans(head.headers);
  }

  lemma RequestBodyLenErrors(headers: seq<Header>)
    ensures var len := RequestBodyLen(headers);
      len.Err? ==> len.error.UnsupportedEncoding? || len.error.BadContentLength?
  {
    hide FromStrRadix, HeaderValue, Ascii;
  }

  // ----- The kind of a body

  /** The first content type begins with the JSON media type. */
  ghost predicate SaysJson(headers: seq<Header>) {
    exists k ::
      && 0 <= k < |headers| && FirstNamed(headers, k, "content-type")
      && |headers[k].value.data| >= 16 && Spelled(headers[k].value.data[..16], "application/json")
  }

  lemma JsonTypeMeans(contentType: seq<byte>)
    ensures IsJsonType(contentType) <==> |contentType| >= 16 && Spelled(contentType[..16], "application/json")
  {
    var text := "application/json";
    assert |JSON_TYPE| == 16 && forall k :: 0 <= k < 16 ==> JSON_TYPE[k] as int == text[k] as int;
    if |contentType| >= 16 {
      var start := contentType[..16];
      if Spelled(start, text) { assert start == JSON_TYPE; }
    }
  }

  lemma SaysJsonMeans(headers: seq<Header>)
    ensures SaysJson(headers) <==> IsJsonType(ContentType(headers))
  {
    hide HeaderValue, Ascii, FirstNamed, Spelled, IsJsonType;
    NamedValue(headers, "content-type");
    JsonTypeMeans(ContentType(headers));
    if HeaderValue(headers, CONTENT_TYPE).Some? {
      var k :| 0 <= k < |headers| && FirstNamed(headers, k, "content-type");
      assert ContentType(headers) == headers[k].value.data;
    }
  }

  /** A body is JSON exactly when its content type says so; then it is the parse of its bytes, moved to its start. */
  lemma BodyKind(src: seq<byte>, range: RangeSet, headers: seq<Header>)
    requires range != [] && InBounds(range, |src|)
    ensures var r := ParseBody(src, range, ContentType(headers));
      && (r.Err? <==> SaysJson(headers) && P.Parse(IndexRanges(src, range)).None?)
      && (r.Ok? ==> Reads(src, r.value.span) && r.value.span.indices == range)
      && (r.Ok? ==> (r.value.content.Json? <==> SaysJson(headers)))
      && (r.Ok? && r.value.content.Json? ==>
            Some(r.value.content.value) == MovedTo(P.Parse(r.value.span.data), range[0].start))
      && (r.Ok? && r.value.content.Unknown? ==> r.value.content.span == r.value.span)
  {
    hide SaysJson, IsJsonType, ContentType, P.Parse, Offset, IndexRanges;
    SaysJsonMeans(headers);
  }

  function MovedTo(v: Option<JsonValue>, n: nat): Option<JsonValue> {
    if v.None? then None else Some(Offset(v.value, n))
  }

  // ----- Responses

  /** The status code, a number of less than 64 bits. */
  ghost predicate HasStatus(head: Response, code: nat) {
    code < 0x1_0000_0000_0000_0000 && Spells(head.status.code.data, code, 10)
  }

  /** Informational responses, 204 and 304. */
  predicate Bodiless(code: nat) { code / 100 == 1 || code == 204 || code == 304 }

  /** The first transfer encoding is the chunked one. */
  ghost predicate SaysChunked(headers: seq<Header>) {
    exists k ::
      && 0 <= k < |headers| && FirstNamed(headers, k, "transfer-encoding")
      && SpelledAnyCase(headers[k].value.data, "chunked")
  }

  lemma SaysChunkedMeans(headers: seq<Header>)
    ensures SaysChunked(headers) <==>
      var value := HeaderValue(headers, TRANSFER_ENCODING); value.Some? && Lowercase(value.value) == CHUNKED
  {
    hide HeaderValue, Ascii, FirstNamed, SpelledAnyCase, Lowercase;
    NamedValue(headers, "transfer-encoding");
    var value := HeaderValue(headers, TRANSFER_ENCODING);
    ChunkedIsLower();
    if value.Some? {
      SameNameMeans(value.value, "chunked");
      var k :| 0 <= k < |headers| && FirstNamed(headers, k, "transfer-encoding");
    }
  }

  lemma ChunkedIsLower()
    ensures CHUNKED == Ascii("chunked") && Lowercase(CHUNKED) == CHUNKED
    ensures forall value :: SameName(value, CHUNKED) <==> Lowercase(value) == CHUNKED
  {
    assert forall k :: 0 <= k < |CHUNKED| ==> Lowercase(CHUNKED)[k] == CHUNKED[k];
  }

  /** `response_body_ranges`, from the text of the head. */
  lemma RangesOfMeans(head: Response, src: seq<byte>, headEnd: nat, code: nat)
    requires HasStatus(head, code)
    ensures var r := RangesOf(head, src, headEnd);
      if Bodiless(code) then r == Ok(BodyRanges([], None, None))
      else if SaysChunked(head.headers) then r == ChunkedRanges(ScanFrom(src, headEnd))
      else if !NoneNamed(head.headers, "transfer-encoding") then r == Err(UnsupportedEncoding)
      else if NoneNamed(head.headers, "content-length") then r == Err(NoBodyLength)
      else if Misannounced(head.headers) then r == Err(BadContentLength)
      else exists n ::
        && Announced(head.headers, n)
        && if headEnd + n >= 0x1_0000_0000_0000_0000 then r == Err(Panicked)
           else
             && r.Ok? && r.value.boundaries.None? && r.value.trailers.None?
             && Indices(r.value.content) == RangeIndices(Range(headEnd, headEnd + n))
  {
    hide HeaderValue, FromStrRadix, ScanFrom, FromRanges, Ascii, Lowercase, Spells, NoneNamed, SaysChunked, Announced,
         Misannounced, FromRange, Bodiless;
    ReadsExactlyNumbers(head.status.code.data, code, 10);
    BodilessMeans(code);
    SaysChunkedMeans(head.headers);
    NamedValue(head.headers, "transfer-encoding");
    NamedValue(head.headers, "content-length");
    var value := HeaderValue(head.headers, CONTENT_LENGTH);
    var n := if value.Some? && FromStrRadix(value.value, 10).Some? then FromStrRadix(value.value, 10).value else 0;
    ContentLengthMeans(head.headers, n);
  }

  /** A status code that is no number is a panic. */
  lemma NoStatusPanics(head: Response, src: seq<byte>, headEnd: nat)
    ensures (forall code :: !HasStatus(head, code)) ==> RangesOf(head, src, headEnd) == Err(Panicked)
  {
    hide FromStrRadix, Spells, ResponseRanges;
    var code := FromStrRadix(head.status.code.data, 10);
    if code.Some? {
      ReadsExactlyNumbers(head.status.code.data, code.value, 10);
      assert HasStatus(head, code.value);
    }
  }

  lemma BodilessMeans(code: nat)
    ensures NeverHasBody(code) <==> Bodiless(code)
  {
  }

  /** A number is announced once. */
  lemma AnnouncedOnce(headers: seq<Header>, n: nat, m: nat)
    requires Announced(headers, n) && Announced(headers, m)
    ensures n == m && !Misannounced(headers) && !NoneNamed(headers, "content-length")
  {
    hide HeaderValue, FromStrRadix, Announced, Misannounced, Ascii, NoneNamed;
    ContentLengthMeans(headers, n);
    ContentLengthMeans(headers, m);
    NamedValue(headers, "content-length");
  }

  /**
   A response that is not chunked has as many body bytes behind its head as its first content length says, and
   none at all with a status code that never goes with a body.
   */
  lemma ResponseIsFramed(src: seq<byte>, offset: nat, headEnd: nat, head: Response, r: Response, code: nat)
    requires offset <= headEnd <= |src| && IsResponse(src, offset, headEnd, head, r) && HasStatus(head, code)
    ensures Bodiless(code) ==> r.body.None? && r.boundaries.None? && r.span.data == src[offset..headEnd]
    ensures !Bodiless(code) && !SaysChunked(head.headers) ==>
      NoneNamed(head.headers, "transfer-encoding") && exists n :: Announced(head.headers, n)
    ensures forall n :: !Bodiless(code) && !SaysChunked(head.headers) && Announced(head.headers, n) ==>
      && headEnd + n <= |src| && r.span.data == src[offset..headEnd + n] && r.boundaries.None?
      && (r.body.Some? <==> n > 0)
      && (r.body.Some? ==> r.body.value.span.data == src[headEnd..headEnd + n])
  {
    hide RangesOf, SaysChunked, Announced, Misannounced, NoneNamed, HasStatus, Bodiless, FromRange, IndexRanges,
         ContentType, P.Parse, Offset, Spans, ResponseEnd, RangesFit, InRange, ScanFrom;
    var ranges := RangesOf(head, src, headEnd).value;
    RangesOfMeans(head, src, headEnd, code);
    if Bodiless(code) {
      PlainEnd(src, headEnd, ranges, 0);
    } else if !SaysChunked(head.headers) {
      var n :| Announced(head.headers, n) && Indices(ranges.content) == RangeIndices(Range(headEnd, headEnd + n));
      PlainEnd(src, headEnd, ranges, n);
      forall m | Announced(head.headers, m) ensures m == n { AnnouncedOnce(head.headers, n, m); }
      assert ranges.content != [] ==> r.body.value.span.data == IndexRanges(src, ranges.content);
    }
  }

  lemma PlainEnd(src: seq<byte>, headEnd: nat, ranges: BodyRanges, n: nat)
    requires headEnd <= |src| && RangesFit(src, headEnd, ranges) && ranges.boundaries.None?
    requires Indices(ranges.content) == RangeIndices(Range(headEnd, headEnd + n))
    ensures ResponseEnd(headEnd, ranges) == headEnd + n <= |src|
    ensures ranges.content == [] <==> n == 0
    ensures InBounds(ranges.content, |src|) && IndexRanges(src, ranges.content) == src[headEnd..headEnd + n]
  {
    hide InRange, IndexRanges;
    CanonicalUnique(ranges.content, FromRange(headEnd, headEnd + n));
    if n > 0 { FromRangeStart(headEnd, headEnd + n); }
    IndexOneRange(src, headEnd, headEnd + n);
  }

  /** A chunked response has the payload of its chunks for a body. */
  lemma ChunkedResponseIsFramed(prefix: seq<byte>, chunks: seq<Chunk>, last: seq<byte>, trailers: seq<byte>,
                                suffix: seq<byte>, offset: nat, head: Response, r: Response, code: nat)
    requires |prefix + Encode(chunks, last, trailers) + suffix| <= ISIZE_MAX && offset <= |prefix|
    requires forall k :: 0 <= k < |chunks| ==> Legal(chunks[k])
    requires FromStrRadix(last, 16) == Some(0) && LegalTrailers(trailers)
    requires var src := prefix + Encode(chunks, last, trailers) + suffix;
      IsResponse(src, offset, |prefix|, head, r) && HasStatus(head, code)
    requires !Bodiless(code) && SaysChunked(head.headers)
    ensures var src := prefix + Encode(chunks, last, trailers) + suffix;
      var end := |prefix| + |Encode(chunks, last, trailers)|;
      && (r.body.Some? <==> chunks != [])
      && (r.body.Some? ==> r.body.value.span.data == Payload(chunks))
      && r.boundaries.Some?
      && 2 <= end <= |src| && offset <= end - 2
      && r.span.data == src[offset..if trailers == [] then end else end - 2]
  {
    hide Encode, Legal, LegalTrailers, ScanFrom, FromStrRadix, FromRanges, IndexRanges, Payload, InBounds, HasStatus,
         Bodiless, SaysChunked, ContentType, P.Parse, Offset, Spans, ResponseEnd, RangesFit, InRange, FromRange,
         RangesOf, Tail, SizeLines;
    var src := prefix + Encode(chunks, last, trailers) + suffix;
    RangesOfMeans(head, src, |prefix|, code);
    ChunkedRoundTrip(prefix, chunks, last, trailers, suffix);
    ResponseSpanIsMessage(prefix, chunks, last, trailers, suffix);
    HoldsInside(prefix, Encode(chunks, last, trailers), suffix);
    ContentsOfChunks(src, |prefix|, chunks, last, trailers);
    EncodingIsLong(chunks, last, trailers);
  }

  lemma EncodingIsLong(chunks: seq<Chunk>, last: seq<byte>, trailers: seq<byte>)
    ensures |Encode(chunks, last, trailers)| >= 2
  {
  }

  lemma ContentsOfChunks(src: seq<byte>, pos: nat, chunks: seq<Chunk>, last: seq<byte>, trailers: seq<byte>)
    requires |src| <= ISIZE_MAX && Holds(src, pos, Encode(chunks, last, trailers))
    requires forall k :: 0 <= k < |chunks| ==> Legal(chunks[k])
    requires FromStrRadix(last, 16) == Some(0) && LegalTrailers(trailers)
    ensures ScanFrom(src, pos).Scanned? && (FromRanges(ScanFrom(src, pos).contents) == [] <==> chunks == [])
  {
    hide Encode, Legal, LegalTrailers, FromStrRadix, ScanFrom, FromRanges, TrailersOf, BoundariesAt;
    EncodingIsScanned(src, pos, chunks, last, trailers);
    RangesStayApart(src, pos);
  }
}
