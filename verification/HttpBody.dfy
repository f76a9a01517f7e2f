/** Message bodies: which bytes of the source they are, where a response ends, and how a JSON body is placed. */
module HttpBody {
  import opened RangeSets
  import opened Wire
  import opened Numerals
  import opened JsonTree
  import opened HttpMessages
  import opened ChunkedBody
  import opened ChunkedLaws
  import P = JsonParser

  datatype HttpError =
    | UnsupportedEncoding
    | BadContentLength
    | NoBodyLength
    | BodyExceedsSource
    | BadJson
    | BadChunkSize
    | NoTrailerEnd
    | Panicked

  datatype Result<+T> = Ok(value: T) | Err(error: HttpError)

  // ----- Placing a body

  const JSON_TYPE: seq<byte> := Ascii("application/json")

  predicate IsJsonType(contentType: seq<byte>) {
    |JSON_TYPE| <= |contentType| && contentType[..|JSON_TYPE|] == JSON_TYPE
  }

  /** `Span::new_bytes_set`: the bytes of each range in turn, appended to one vector. */
  method NewBytesSet(src: seq<byte>, ranges: RangeSet) returns (span: Span)
    requires InBounds(ranges, |src|)
    ensures span.indices == ranges && Reads(src, span)
  {
    var data: seq<byte> := [];
    var rest := ranges;
    while rest != []
      invariant InBounds(rest, |src|) && data + IndexRanges(src, rest) == IndexRanges(src, ranges)
      decreases |rest|
    {
      InBoundsTail(rest, |src|);
      data := data + src[rest[0].start..rest[0].end];
      rest := rest[1..];
    }
    span := Span(data, ranges);
  }

  /** `parse_body`; its callers pass a range that is not empty. */
  function ParseBody(src: seq<byte>, range: RangeSet, contentType: seq<byte>): Result<Body>
    requires range != [] && InBounds(range, |src|)
  {
    var span := Span(IndexRanges(src, range), range);
    if !IsJsonType(contentType) then Ok(Body(span, Unknown(span)))
    else
      match P.Parse(span.data)
      case None => Err(BadJson)
      case Some(v) => Ok(Body(span, Json(Offset(v, range[0].start))))
  }

  /** The value of the first header with a name, if there is one. */
  function HeaderValue(headers: seq<Header>, name: seq<byte>): Option<seq<byte>> {
    var found := HeadersWithName(headers, name);
    if found == [] then None else Some(found[0].value.data)
  }

  function ContentType(headers: seq<Header>): seq<byte> {
    match HeaderValue(headers, CONTENT_TYPE) case None => [] case Some(value) => value
  }

  // ----- Requests

  /** `request_body_len` */
  function RequestBodyLen(headers: seq<Header>): Result<nat> {
    if HeaderValue(headers, TRANSFER_ENCODING).Some? then Err(UnsupportedEncoding)
    else
      match HeaderValue(headers, CONTENT_LENGTH)
      case None => Ok(0)
      case Some(value) =>
        match FromStrRadix(value, 10)
        case None => Err(BadContentLength)
        case Some(n) => Ok(n)
  }

  /** The end of `parse_request_from_bytes`: a parsed head, which ends at `headEnd`, gets its body. */
  method FinishRequest(src: seq<byte>, offset: nat, headEnd: nat, head: Request) returns (r: Result<Request>)
    requires offset <= headEnd <= |src| <= ISIZE_MAX
    requires head.body.None? && head.span == NewSpan(src, offset, headEnd)
    ensures r.Ok? ==> IsRequest(src, offset, headEnd, head, r.value)
    ensures r.Err? ==> RequestFails(src, headEnd, head, r.error)
  {
    hide HeadersWithName, FromStrRadix, IndexRanges, FromRange, Ascii, InBounds;
    var request := head;
    var len := RequestBodyLen(request.headers);
    if len.Err? { return Err(len.error); }
    if len.value > 0 {
      if headEnd + len.value > USIZE_MAX { return Err(Panicked); }
      if headEnd + len.value > |src| { return Err(BodyExceedsSource); }
      var range := FromRange(headEnd, headEnd + len.value);
      IndexOneRange(src, headEnd, headEnd + len.value);
      var body := ParseBody(src, range, ContentType(request.headers));
      if body.Err? { return Err(body.error); }
      request := request.(body := Some(body.value));
      request := request.(span := NewSpan(src, offset, headEnd + len.value));
    }
    r := Ok(request);
  }

  /** `r` is `head` with the body its headers announce. */
  ghost predicate IsRequest(src: seq<byte>, offset: nat, headEnd: nat, head: Request, r: Request)
    requires offset <= headEnd <= |src|
  {
    && RequestBodyLen(head.headers).Ok?
    && var end := headEnd + RequestBodyLen(head.headers).value;
    && end <= |src|
    && r.line == head.line && r.headers == head.headers
    && r.span == NewSpan(src, offset, end)
    && if end == headEnd then r.body == None
       else
         var range := FromRange(headEnd, end);
         && InBounds(range, |src|)
         && r.body.Some? && ParseBody(src, range, ContentType(head.headers)) == Ok(r.body.value)
  }

  ghost predicate RequestFails(src: seq<byte>, headEnd: nat, head: Request, error: HttpError) {
    match RequestBodyLen(head.headers)
    case Err(e) => error == e
    case Ok(n) =>
      && n > 0
      && if headEnd + n > USIZE_MAX then error == Panicked
         else if headEnd + n > |src| then error == BodyExceedsSource
         else error == BadJson && IsJsonType(ContentType(head.headers)) && P.Parse(src[headEnd..headEnd + n]).None?
  }

  // ----- Responses

  datatype BodyRanges = BodyRanges(content: RangeSet, boundaries: Option<RangeSet>, trailers: Option<RangeSet>)

  const CHUNKED: seq<byte> := Ascii("chunked")

  /** What `response_body_ranges` returns. */
  function ResponseRanges(code: nat, headers: seq<Header>, src: seq<byte>, headEnd: nat): Result<BodyRanges> {
    if NeverHasBody(code) then Ok(BodyRanges([], None, None))
    else
      var encoding := HeaderValue(headers, TRANSFER_ENCODING);
      var length := HeaderValue(headers, CONTENT_LENGTH);
      if encoding.Some? then
        if Lowercase(encoding.value) == CHUNKED then ChunkedRanges(ScanFrom(src, headEnd)) else Err(UnsupportedEncoding)
      else if length.Some? then
        match FromStrRadix(length.value, 10)
        case None => Err(BadContentLength)
        case Some(n) =>
          if headEnd + n > USIZE_MAX then Err(Panicked) else Ok(BodyRanges(FromRange(headEnd, headEnd + n), None, None))
      else Err(NoBodyLength)
  }

  function ChunkedRanges(scan: Scan): Result<BodyRanges> {
    match scan
    case Scanned(contents, boundaries, trailers) =>
      Ok(BodyRanges(FromRanges(contents), Some(FromRanges(boundaries)), Some(FromRanges(trailers))))
    case BadSize => Err(BadChunkSize)
    case MissingTrailerEnd => Err(NoTrailerEnd)
    case Panic => Err(Panicked)
  }

  predicate NeverHasBody(code: nat) { 100 <= code <= 199 || code == 204 || code == 304 }

  ghost predicate Named(headers: seq<Header>, name: seq<byte>) {
    exists k :: 0 <= k < |headers| && SameName(headers[k].name.data, name)
  }

  /** The first header of a name has this value. */
  ghost predicate FirstHas(headers: seq<Header>, name: seq<byte>, value: seq<byte>) {
    exists k :: 0 <= k < |headers| && FirstOfName(headers, k, name) && headers[k].value.data == value
  }

  lemma HeaderValueMeans(headers: seq<Header>, name: seq<byte>)
    ensures HeaderValue(headers, name).Some? <==> Named(headers, name)
    ensures HeaderValue(headers, name).Some? ==> FirstHas(headers, name, HeaderValue(headers, name).value)
    ensures forall value :: FirstHas(headers, name, value) ==> HeaderValue(headers, name) == Some(value)
  {
    hide SameName, HeadersWithName;
    if HeadersWithName(headers, name) != [] {
      var k := WithNameIsFirst(headers, name);
      FirstWithName(headers, name, k);
    }
    forall value | FirstHas(headers, name, value) ensures HeaderValue(headers, name) == Some(value) {
      var k :| 0 <= k < |headers| && FirstOfName(headers, k, name) && headers[k].value.data == value;
      FirstWithName(headers, name, k);
    }
    if j :| 0 <= j < |headers| && SameName(headers[j].name.data, name) {
      FirstOne(headers, name, j);
    }
  }

  lemma {:induction false} FirstOne(headers: seq<Header>, name: seq<byte>, j: nat)
    requires j < |headers| && SameName(headers[j].name.data, name)
    ensures HeadersWithName(headers, name) != []
  {
    hide SameName;
    if j > 0 { FirstOne(headers[1..], name, j - 1); }
  }

  /**
   What the ranges of a body mean: chunked ranges are the layout of a chunked body from the head's end on,
   plain ranges are as many bytes from there as the first content length says.
   */
  ghost predicate RangesMean(code: nat, headers: seq<Header>, src: seq<byte>, headEnd: nat, ranges: BodyRanges) {
    if NeverHasBody(code) then ranges == BodyRanges([], None, None)
    else if ranges.boundaries.Some? then
      && (exists value :: FirstHas(headers, TRANSFER_ENCODING, value) && Lowercase(value) == CHUNKED)
      && ranges.trailers.Some?
      && Layout(src, headEnd, ranges.content, ranges.boundaries.value, ranges.trailers.value)
    else
      && !Named(headers, TRANSFER_ENCODING)
      && ranges.trailers.None?
      && exists value, n: nat ::
           && FirstHas(headers, CONTENT_LENGTH, value) && FromStrRadix(value, 10) == Some(n)
           && Indices(ranges.content) == RangeIndices(Range(headEnd, headEnd + n))
  }

  /** Why there are no ranges. */
  ghost predicate NoRangesBecause(code: nat, headers: seq<Header>, src: seq<byte>, headEnd: nat, error: HttpError) {
    && !NeverHasBody(code)
    && match error
       case NoBodyLength => !Named(headers, TRANSFER_ENCODING) && !Named(headers, CONTENT_LENGTH)
       case UnsupportedEncoding =>
         exists value :: FirstHas(headers, TRANSFER_ENCODING, value) && Lowercase(value) != CHUNKED
       case BadContentLength =>
         && !Named(headers, TRANSFER_ENCODING)
         && exists value :: FirstHas(headers, CONTENT_LENGTH, value) && FromStrRadix(value, 10).None?
       case BadChunkSize => ScanFrom(src, headEnd).BadSize?
       case NoTrailerEnd => ScanFrom(src, headEnd).MissingTrailerEnd?
       case Panicked =>
         || ScanFrom(src, headEnd).Panic?
         || exists value :: FirstHas(headers, CONTENT_LENGTH, value) && FromStrRadix(value, 10).Some?
                            && headEnd + FromStrRadix(value, 10).value > USIZE_MAX
       case _ => false
  }

  /** Each way `response_body_ranges` ends, told by the headers and the source. */
  lemma ResponseRangesMean(code: nat, headers: seq<Header>, src: seq<byte>, headEnd: nat)
    ensures var r := ResponseRanges(code, headers, src, headEnd);
      if r.Ok? then RangesMean(code, headers, src, headEnd, r.value)
      else NoRangesBecause(code, headers, src, headEnd, r.error)
  {
    hide ScanFrom, FromStrRadix, HeaderValue, FromRanges, FromRange, FirstHas, Named, Layout, Lowercase, Ascii;
    HeaderValueMeans(headers, TRANSFER_ENCODING);
    HeaderValueMeans(headers, CONTENT_LENGTH);
    var r := ResponseRanges(code, headers, src, headEnd);
    if r.Ok? && r.value.boundaries.Some? {
      var scan := ScanFrom(src, headEnd);
      ScannedIsLayout(src, headEnd);
      RangesStayApart(src, headEnd);
      ScanTrailersStay(src, headEnd);
    }
  }

  lemma ScanTrailersStay(src: seq<byte>, headEnd: nat)
    requires ScanFrom(src, headEnd).Scanned?
    ensures FromRanges(ScanFrom(src, headEnd).trailers) == ScanFrom(src, headEnd).trailers
  {
    hide ScanFrom, FromRanges, LineBreakAt, TrailerEnd;
    var scan := ScanFrom(src, headEnd);
    ScanBounds(src, headEnd);
    TrailersFit(src, scan.boundaries, scan.trailers);
  }

  /** `response_body_ranges` */
  method ResponseBodyRanges(code: nat, headers: seq<Header>, src: seq<byte>,
                            headEnd: nat) returns (r: Result<BodyRanges>)
    ensures r == ResponseRanges(code, headers, src, headEnd)
    ensures r.Ok? ==> RangesMean(code, headers, src, headEnd, r.value)
    ensures r.Err? ==> NoRangesBecause(code, headers, src, headEnd, r.error)
  {
    hide ScanFrom, FromStrRadix, HeadersWithName, FromRanges, RangesMean, NoRangesBecause;
    ResponseRangesMean(code, headers, src, headEnd);
    if NeverHasBody(code) { return Ok(BodyRanges([], None, None)); }
    var encoding := HeaderValue(headers, TRANSFER_ENCODING);
    if encoding.Some? {
      if Lowercase(encoding.value) != CHUNKED { return Err(UnsupportedEncoding); }
      var scan, ranges := ChunkedBodyRanges(src, headEnd);
      match scan
      case Scanned(_, _, _) => return Ok(BodyRanges(ranges.contents, Some(ranges.boundaries), Some(ranges.trailers)));
      case BadSize => return Err(BadChunkSize);
      case MissingTrailerEnd => return Err(NoTrailerEnd);
      case Panic => return Err(Panicked);
    }
    var length := HeaderValue(headers, CONTENT_LENGTH);
    if length.None? { return Err(NoBodyLength); }
    var len := FromStrRadix(length.value, 10);
    if len.None? { return Err(BadContentLength); }
    if headEnd + len.value > USIZE_MAX { return Err(Panicked); }
    r := Ok(BodyRanges(FromRange(headEnd, headEnd + len.value), None, None));
  }

  /** Where the span of a response ends, given the ranges of its body. */
  function ResponseEnd(headEnd: nat, ranges: BodyRanges): nat {
    match ranges.boundaries
    case Some(boundaries) =>
      var last := match ranges.trailers
        case Some(trailers) => if trailers == [] then boundaries else trailers
        case None => boundaries;
      (match End(last) case Some(e) => e + 2 case None => headEnd)
    case None => (match End(ranges.content) case Some(e) => e case None => headEnd)
  }

  function Spans(src: seq<byte>, ranges: seq<Range>): seq<Span>
    requires forall k :: 0 <= k < |ranges| ==> ranges[k].start <= ranges[k].end <= |src|
  {
    if ranges == [] then [] else [NewSpan(src, ranges[0].start, ranges[0].end)] + Spans(src, ranges[1..])
  }

  // ----- Finishing a response

  /** The ranges of a response's body, going by its status code and headers. */
  function RangesOf(head: Response, src: seq<byte>, headEnd: nat): Result<BodyRanges> {
    match FromStrRadix(head.status.code.data, 10)
    case None => Err(Panicked)
    case Some(code) => ResponseRanges(code, head.headers, src, headEnd)
  }

  /** Contents and boundaries lie apart from each other between the head and the end of the response. */
  ghost predicate RangesFit(src: seq<byte>, headEnd: nat, ranges: BodyRanges) {
    var end := ResponseEnd(headEnd, ranges);
    && headEnd <= end <= |src|
    && InBounds(ranges.content, |src|)
    && Inside(Indices(ranges.content), headEnd, end)
    && (ranges.boundaries.Some? ==>
          && ranges.boundaries.value != []
          && InBounds(ranges.boundaries.value, |src|)
          && InRange(src, ranges.boundaries.value)
          && End(ranges.boundaries.value).value + 2 <= |src|
          && Inside(Indices(ranges.boundaries.value), headEnd, end)
          && Indices(ranges.content) !! Indices(ranges.boundaries.value))
    && (ranges.boundaries.None? ==> ranges.trailers.None?)
  }

  ghost predicate InRange(src: seq<byte>, ranges: seq<Range>) {
    forall k :: 0 <= k < |ranges| ==> ranges[k].start <= ranges[k].end <= |src|
  }

  lemma {:induction false} InBoundsInRange(src: seq<byte>, ranges: RangeSet)
    requires InBounds(ranges, |src|)
    ensures InRange(src, ranges)
  {
    if ranges != [] {
      InBoundsTail(ranges, |src|);
      InBoundsInRange(src, ranges[1..]);
    }
  }

  lemma BelowIsInBounds(ranges: RangeSet, lo: nat, hi: nat, n: nat)
    requires Inside(Indices(ranges), lo, hi) && hi <= n
    ensures InBounds(ranges, n)
  {
    InBoundsMeansBelow(ranges, n);
  }

  /** What the scanner returns fits. */
  lemma ChunkedRangesFit(src: seq<byte>, headEnd: nat)
    requires ScanFrom(src, headEnd).Scanned?
    ensures RangesFit(src, headEnd, ChunkedRanges(ScanFrom(src, headEnd)).value)
    ensures var scan := ScanFrom(src, headEnd); var end := ResponseEnd(headEnd, ChunkedRanges(scan).value);
      if scan.trailers == [] then end == LastEnd(scan.boundaries) + 2 && LineBreakAt(src, end - 2)
      else end == scan.trailers[0].end + 2 && EmptyLineAt(src, end - 2)
  {
    hide ScanFrom, FromRanges, LineBreakAt, TrailerEnd;
    var scan := ScanFrom(src, headEnd);
    ScanBounds(src, headEnd);
    RangesStayApart(src, headEnd);
    TrailersFit(src, scan.boundaries, scan.trailers);
    BoundsFit(src, headEnd, scan);
  }

  lemma TrailersFit(src: seq<byte>, boundaries: seq<Range>, trailers: seq<Range>)
    requires boundaries != [] && TrailersAt(src, LastEnd(boundaries), trailers)
    ensures FromRanges(trailers) == trailers
    ensures if trailers == [] then LastEnd(boundaries) + 2 <= |src| && LineBreakAt(src, LastEnd(boundaries))
            else
              && |trailers| == 1 && LastEnd(boundaries) < trailers[0].end
              && trailers[0].end + 4 <= |src| && EmptyLineAt(src, trailers[0].end)
  {
    if trailers != [] {
      assert trailers[1..] == [];
      CanonicalUnique(FromRanges(trailers), FromRange(trailers[0].start, trailers[0].end));
    }
  }

  lemma BoundsFit(src: seq<byte>, headEnd: nat, scan: Scan)
    requires scan.Scanned? && Bounds(src, headEnd, scan.contents, scan.boundaries)
    requires FromRanges(scan.contents) == scan.contents && FromRanges(scan.boundaries) == scan.boundaries
    requires FromRanges(scan.trailers) == scan.trailers
    requires if scan.trailers == [] then LastEnd(scan.boundaries) + 2 <= |src|
             else
               && |scan.trailers| == 1 && LastEnd(scan.boundaries) < scan.trailers[0].end
               && scan.trailers[0].end + 4 <= |src|
    ensures RangesFit(src, headEnd, ChunkedRanges(scan).value)
    ensures ResponseEnd(headEnd, ChunkedRanges(scan).value)
       == if scan.trailers == [] then LastEnd(scan.boundaries) + 2 else scan.trailers[0].end + 2
  {
    hide FromRanges, InRange;
    var contents: RangeSet, boundaries: RangeSet := FromRanges(scan.contents), FromRanges(scan.boundaries);
    BelowIsInBounds(contents, headEnd, LastEnd(scan.boundaries), |src|);
    BelowIsInBounds(boundaries, headEnd, LastEnd(scan.boundaries), |src|);
    InBoundsInRange(src, boundaries);
  }

  /** Every body that lies inside the source fits. */
  lemma BodyRangesFit(code: nat, headers: seq<Header>, src: seq<byte>, headEnd: nat)
    requires headEnd <= |src|
    requires var ranges := ResponseRanges(code, headers, src, headEnd);
      ranges.Ok? && InBounds(ranges.value.content, |src|)
    ensures RangesFit(src, headEnd, ResponseRanges(code, headers, src, headEnd).value)
  {
    hide ScanFrom, FromStrRadix, HeadersWithName, RangesFit, FromRanges, InRange;
    var ranges := ResponseRanges(code, headers, src, headEnd).value;
    if ranges.boundaries.Some? {
      ChunkedRangesFit(src, headEnd);
    } else {
      var length := HeaderValue(headers, CONTENT_LENGTH);
      var n := if ranges.content == [] then 0 else FromStrRadix(length.value, 10).value;
      PlainRangesFit(src, headEnd, 0);
      PlainRangesFit(src, headEnd, n);
    }
  }

  lemma PlainRangesFit(src: seq<byte>, headEnd: nat, n: nat)
    requires headEnd <= |src| && InBounds(FromRange(headEnd, headEnd + n), |src|)
    ensures RangesFit(src, headEnd, BodyRanges(FromRange(headEnd, headEnd + n), None, None))
    ensures FromRange(headEnd, headEnd) == []
  {
  }

  /** Every end the response's span is set to lies between the head's end and the end of the source. */
  lemma FittingEnds(src: seq<byte>, headEnd: nat, ranges: BodyRanges)
    requires RangesFit(src, headEnd, ranges)
    ensures ranges.content != [] ==> headEnd <= End(ranges.content).value <= |src|
    ensures ranges.boundaries.Some? ==>
      && ranges.boundaries.value != [] && InRange(src, ranges.boundaries.value)
      && headEnd <= End(ranges.boundaries.value).value + 2 <= |src|
    ensures headEnd <= ResponseEnd(headEnd, ranges) <= |src|
    ensures ranges.boundaries.None? ==> ranges.trailers.None?
  {
    hide InRange;
    if ranges.content != [] { LastIndex(ranges.content); }
    if ranges.boundaries.Some? { LastIndex(ranges.boundaries.value); }
  }

  /** `r` is `head` with the body, the chunk boundaries and the span that its ranges say. */
  ghost predicate IsResponse(src: seq<byte>, offset: nat, headEnd: nat, head: Response, r: Response)
    requires offset <= headEnd <= |src|
  {
    && RangesOf(head, src, headEnd).Ok?
    && var ranges := RangesOf(head, src, headEnd).value;
    && RangesFit(src, headEnd, ranges)
    && r.status == head.status && r.headers == head.headers && r.trailers == None
    && r.span == NewSpan(src, offset, ResponseEnd(headEnd, ranges))
    && (if ranges.content == [] then r.body == None
        else r.body.Some? && ParseBody(src, ranges.content, ContentType(head.headers)) == Ok(r.body.value))
    && r.boundaries == if ranges.boundaries.Some? then Some(Spans(src, ranges.boundaries.value)) else None
  }

  ghost predicate ResponseFails(src: seq<byte>, headEnd: nat, head: Response, error: HttpError) {
    match RangesOf(head, src, headEnd)
    case Err(e) => error == e
    case Ok(ranges) =>
      && ranges.content != []
      && if !InBounds(ranges.content, |src|) then error == BodyExceedsSource
         else
           && error == BadJson && IsJsonType(ContentType(head.headers))
           && P.Parse(IndexRanges(src, ranges.content)).None?
  }

  /** The end of `parse_response_from_bytes`: a parsed head, which ends at `headEnd`, gets its body. */
  method FinishResponse(src: seq<byte>, offset: nat, headEnd: nat, head: Response) returns (r: Result<Response>)
    requires offset <= headEnd <= |src| <= ISIZE_MAX
    requires head.body.None? && head.boundaries.None? && head.trailers.None?
    requires head.span == NewSpan(src, offset, headEnd)
    ensures r.Ok? ==> IsResponse(src, offset, headEnd, head, r.value)
    ensures r.Err? ==> ResponseFails(src, headEnd, head, r.error)
  {
    hide RangesMean, NoRangesBecause, ResponseRanges, RangesFit, FromStrRadix, IndexRanges, HeadersWithName, Spans,
         NewSpan, ContentType, P.Parse, Offset, Ascii;
    var response := head;
    var code := FromStrRadix(head.status.code.data, 10);
    if code.None? { return Err(Panicked); }
    var ranges := ResponseBodyRanges(code.value, head.headers, src, headEnd);
    if ranges.Err? { return Err(ranges.error); }
    var BodyRanges(content, boundaries, trailers) := ranges.value;
    if content != [] && End(content).value > |src| { return Err(BodyExceedsSource); }
    BodyRangesFit(code.value, head.headers, src, headEnd);
    FittingEnds(src, headEnd, ranges.value);
    if content != [] {
      var body := ParseBody(src, content, ContentType(head.headers));
      if body.Err? { return Err(body.error); }
      response := response.(body := Some(body.value));
      response := response.(span := NewSpan(src, offset, End(content).value));
    }
    if boundaries.Some? {
      response := response.(boundaries := Some(Spans(src, boundaries.value)));
      response := response.(span := NewSpan(src, offset, End(boundaries.value).value + 2));
      if trailers.Some? {
        if trailers.value != [] {
          response := response.(span := NewSpan(src, offset, End(trailers.value).value + 2));
        } else {
          response := response.(span := NewSpan(src, offset, End(boundaries.value).value + 2));
        }
      }
    }
    r := Ok(response);
  }
}
