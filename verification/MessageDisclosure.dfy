/**
 Selective disclosure of whole HTTP messages: commit the structure, open some leaves of the JSON body, mask
 everything else, and read the message again.
 */
module MessageDisclosure {
  import opened RangeSets
  import opened Wire
  import opened Numerals
  import opened JsonTree
  import opened JsonDisclosure
  import opened JsonPartition
  import opened HttpMessages
  import opened HttpCommit
  import opened HttpBody
  import opened HttpDisclosure
  import opened Disclosure
  import opened BodyReading
  import opened ChunkedBody
  import opened ChunkedLaws
  import opened ChunkMasking
  import P = JsonParser

  // ----- Headers read again

  function RereadHeader(m: seq<byte>, h: Header): Header {
    Header(Reread(m, h.span), Reread(m, h.name), Reread(m, h.value))
  }

  function RereadHeaders(m: seq<byte>, headers: seq<Header>): (r: seq<Header>)
    ensures |r| == |headers| && forall k :: 0 <= k < |headers| ==> r[k] == RereadHeader(m, headers[k])
  {
    seq(|headers|, k requires 0 <= k < |headers| => RereadHeader(m, headers[k]))
  }

  /** Names and values are read from the source, and no name lies in its own header's value. */
  ghost predicate HeadersRead(src: seq<byte>, headers: seq<Header>) {
    forall k :: 0 <= k < |headers| ==> HeaderReads(src, headers[k])
  }

  ghost predicate HeaderReads(src: seq<byte>, h: Header) {
    && Reads(src, h.name) && Reads(src, h.value)
    && Indices(h.name.indices) <= Indices(h.span.indices) - Indices(h.value.indices)
  }

  /** Of the headers, exactly the values of the closed ones are masked. */
  ghost predicate HeadersKept(keep: set<nat>, headers: seq<Header>, closed: set<nat>) {
    forall x :: x in HeaderSpans(headers) ==> (x in keep <==> x !in ValueIndices(headers, closed))
  }

  /** A header read again keeps its name, and its value unless it is closed; then the value is all stars. */
  lemma HeaderRereads(src: seq<byte>, m: seq<byte>, keep: set<nat>, headers: seq<Header>, region: set<nat>,
                      closed: set<nat>, k: nat)
    requires MaskOf(src, m, keep) && HeadersRead(src, headers) && HeadersNested(headers, region)
    requires HeadersKept(keep, headers, closed)
    requires k < |headers|
    ensures RereadHeader(m, headers[k]).name == headers[k].name
    ensures RereadHeader(m, headers[k]).value == if k in closed then Starred(headers[k].value) else headers[k].value
  {
    hide MaskOf, HeadersNested, HeaderSpans, Reads, Reread, Starred;
    var h := headers[k];
    assert HeaderReads(src, h);
    HeaderAt(headers, region, k);
    forall x | x in Indices(h.span.indices)
      ensures x in keep <==> !(k in closed && x in Indices(h.value.indices))
    {
      HeaderIndexIsClosed(headers, region, k, x);
      assert x in HeaderSpans(headers);
    }
    KeptSpanReads(src, m, keep, h.name);
    if k in closed {
      ClosedSpanReads(src, m, keep, h.value);
    } else {
      KeptSpanReads(src, m, keep, h.value);
    }
  }

  /** Two lists of headers with the same names and the same first value of a name. */
  lemma HeaderValueAgrees(a: seq<Header>, b: seq<Header>, name: seq<byte>)
    requires |a| == |b| && forall k :: 0 <= k < |a| ==> a[k].name.data == b[k].name.data
    requires forall k :: 0 <= k < |a| && FirstOfName(a, k, name) ==> a[k].value.data == b[k].value.data
    ensures HeaderValue(a, name) == HeaderValue(b, name)
  {
    hide SameName, HeadersWithName;
    if HeadersWithName(a, name) != [] {
      var k := WithNameIsFirst(a, name);
      FirstWithName(a, name, k);
      FirstWithName(b, name, k);
    } else if HeadersWithName(b, name) != [] {
      var k := WithNameIsFirst(b, name);
      FirstWithName(a, name, k);
    }
  }

  /** Reading masked headers again finds the same values under the names that are always opened. */
  lemma OpenedValuesStay(src: seq<byte>, m: seq<byte>, keep: set<nat>, headers: seq<Header>, region: set<nat>,
                         closed: set<nat>, name: seq<byte>)
    requires MaskOf(src, m, keep) && HeadersRead(src, headers) && HeadersNested(headers, region)
    requires HeadersKept(keep, headers, closed)
    requires forall k :: 0 <= k < |headers| && FirstOfName(headers, k, name) ==> k !in closed
    ensures HeaderValue(RereadHeaders(m, headers), name) == HeaderValue(headers, name)
  {
    hide MaskOf, HeadersRead, HeadersNested, HeadersKept, FirstOfName, HeaderValue, RereadHeader;
    var again := RereadHeaders(m, headers);
    forall k | 0 <= k < |headers|
      ensures again[k].name.data == headers[k].name.data
      ensures FirstOfName(headers, k, name) ==> again[k].value.data == headers[k].value.data
    {
      HeaderRereads(src, m, keep, headers, region, closed, k);
    }
    HeaderValueAgrees(headers, again, name);
  }

  // ----- Requests

  /**
   A parsed request head: the line's parts and the headers lie apart from each other before the body, with the
   data that the source holds there. The line's span need not take in its verb and target: it ends at the first
   line break, which may stand before them.
   */
  ghost predicate RequestHeadReads(src: seq<byte>, offset: nat, headEnd: nat, head: Request) {
    var line, free := head.line, RangeIndices(Range(offset, headEnd)) - HeaderSpans(head.headers);
    && RequestHeadNested(offset, headEnd, head)
    && HeadersRead(src, head.headers)
    && Reads(src, line.span) && Reads(src, line.verb) && Reads(src, line.target)
    && Indices(line.span.indices) <= free && Indices(line.verb.indices) <= free && Indices(line.target.indices) <= free
  }

  function RereadLine(m: seq<byte>, line: RequestLine): RequestLine {
    RequestLine(Reread(m, line.span), Reread(m, line.verb), Reread(m, line.target))
  }

  /** The head of the masked message, with the spans of the original. */
  function RereadRequestHead(m: seq<byte>, head: Request): Request {
    Request(Reread(m, head.span), RereadLine(m, head.line), RereadHeaders(m, head.headers), None)
  }

  /** The request one hopes to read: as sent, but for closed header values and hidden leaves. */
  ghost function MaskedRequest(m: seq<byte>, r: Request, shown: set<JsonValue>): Request {
    Request(Reread(m, r.span), r.line, RereadHeaders(m, r.headers), MaskedBody(m, r.body, shown))
  }

  /** Where a message's closed and shown parts lie tells what is kept of its headers and of its body. */
  lemma KeptByParts(keep: set<nat>, whole: set<nat>, headers: seq<Header>, closed: set<nat>, body: Option<Body>,
                    shown: set<JsonValue>)
    requires BodyNested(body) && HeaderSpans(headers) + BodySpan(body) <= whole
    requires HeaderSpans(headers) !! BodySpan(body)
    requires ValueIndices(headers, closed) <= HeaderSpans(headers)
    requires forall x :: x in whole ==>
      (x in keep <==> x in whole - ValueIndices(headers, closed) - ClosedInBody(body) || x in ShownInBody(body, shown))
    ensures HeadersKept(keep, headers, closed) && BodyKept(keep, body, shown)
    ensures forall x :: x in whole && x !in HeaderSpans(headers) && x !in BodySpan(body) ==> x in keep
  {
    hide HeaderSpans, ValueIndices, ClosedInBody, Shown, WellNested;
    ClosedInBodySpan(body);
    ShownInBodySpan(body, shown);
  }

  lemma ShownInBodySpan(body: Option<Body>, shown: set<JsonValue>)
    requires BodyNested(body)
    ensures ShownInBody(body, shown) <= BodySpan(body)
  {
    hide Shown, Hidden;
    if body.Some? && body.value.content.Json? { ShownOrHidden(body.value.content.value, shown); }
  }

  /**
   A disclosed request reads as what was sent. Open the structure of any parsed request and any leaves of
   its JSON body, mask the rest: finishing the masked message from the same head positions yields the request
   as sent, in which exactly the closed header values are stars and exactly the hidden leaves are masked. It
   does so if and only if the body is readable, which every object, array and body of unknown content is.
   */
  lemma MaskedRequestReads(src: seq<byte>, m: seq<byte>, keep: set<nat>, offset: nat, headEnd: nat, head: Request,
                           r: Request, shown: set<JsonValue>)
    requires offset <= headEnd <= |src|
    requires RequestHeadReads(src, offset, headEnd, head) && IsRequest(src, offset, headEnd, head, r)
    requires MaskOf(src, m, keep)
    requires forall x :: x in Indices(r.span.indices) ==>
      (x in keep <==> x in Covered(RequestSteps(r)) || x in ShownInBody(r.body, shown))
    ensures IsRequest(m, offset, headEnd, RereadRequestHead(m, head), MaskedRequest(m, r, shown))
       <==> BodyReadable(r.body, shown)
    ensures forall k :: 0 <= k < |r.headers| ==>
      && RereadHeader(m, r.headers[k]).name == r.headers[k].name
      && RereadHeader(m, r.headers[k]).value
         == if OpenedFirst(r.headers, k) then r.headers[k].value else Starred(r.headers[k].value)
  {
    hide Covered, RequestSteps, BodyNested, HeadersNested, HeadersKept, BodyKept, ValueIndices, ClosedInBody,
         ShownInBody, MaskedBody, BodyReadable, ParseBody, FromRange, Reads, Reread, HeadersRead, MaskOf, HeaderSpans,
         RereadHeader, RereadHeaders, HeaderValue, FirstOfName, RequestBodyLen, ContentType, NewSpan;
    var closed := ClosedRequestHeaders(r.headers);
    var area, target := RangeIndices(Range(offset, headEnd)), Indices(head.line.target.indices);
    RequestIsKept(src, m, keep, offset, headEnd, head, r, shown);
    forall k | 0 <= k < |r.headers|
      ensures RereadHeader(m, r.headers[k]).name == r.headers[k].name
      ensures RereadHeader(m, r.headers[k]).value
           == if OpenedFirst(r.headers, k) then r.headers[k].value else Starred(r.headers[k].value)
    {
      HeaderRereads(src, m, keep, r.headers, area - target, closed, k);
    }
    LengthAndTypeStay(src, m, keep, r.headers, area - target, closed);
    SpanRereads(src, m, offset, headEnd);
    SpanRereads(src, m, offset, headEnd + RequestBodyLen(head.headers).value);
    SameLength(src, m, keep);
    if r.body.Some? {
      var range := FromRange(headEnd, headEnd + RequestBodyLen(head.headers).value);
      FromRangeStart(headEnd, headEnd + RequestBodyLen(head.headers).value);
      OneRangeFits(src, range, ContentType(head.headers));
      BodyReads(src, m, keep, range, ContentType(head.headers), shown);
      MaskedBodySome(m, r.body, shown);
    } else {
      NoMaskedBody(m, shown);
    }
  }

  /** In one range every root fits. */
  lemma OneRangeFits(src: seq<byte>, range: RangeSet, contentType: seq<byte>)
    requires |range| == 1 && InBounds(range, |src|) && ParseBody(src, range, contentType).Ok?
    ensures RootFits(src, range, contentType)
  {
    hide ParseBody, RootFits, RootInBody;
    BodyOverRanges(src, range, contentType);
    RootInBodyIffFits(src, range, contentType);
  }

  lemma MaskedBodySome(m: seq<byte>, body: Option<Body>, shown: set<JsonValue>)
    ensures MaskedBody(m, body, shown).Some? <==> body.Some?
  {
  }

  lemma NoMaskedBody(m: seq<byte>, shown: set<JsonValue>)
    ensures MaskedBody(m, None, shown) == None && BodyReadable(None, shown)
  {
  }

  lemma SpanRereads(src: seq<byte>, m: seq<byte>, lo: nat, hi: nat)
    ensures |src| == |m| && lo <= hi <= |src| ==> Reread(m, NewSpan(src, lo, hi)) == NewSpan(m, lo, hi)
  {
    if |src| == |m| && lo <= hi <= |src| { RereadNewSpan(src, m, lo, hi); }
  }

  /** What is kept of a request, part by part. */
  lemma RequestIsKept(src: seq<byte>, m: seq<byte>, keep: set<nat>, offset: nat, headEnd: nat, head: Request,
                      r: Request, shown: set<JsonValue>)
    requires offset <= headEnd <= |src| && RequestHeadReads(src, offset, headEnd, head)
    requires IsRequest(src, offset, headEnd, head, r)
    requires MaskOf(src, m, keep)
    requires forall x :: x in Indices(r.span.indices) ==>
      (x in keep <==> x in Covered(RequestSteps(r)) || x in ShownInBody(r.body, shown))
    ensures HeadersKept(keep, r.headers, ClosedRequestHeaders(r.headers)) && BodyKept(keep, r.body, shown)
    ensures RereadLine(m, r.line) == r.line
  {
    hide Covered, RequestSteps, BodyNested, HeadersNested, HeadersKept, BodyKept, ValueIndices, ClosedInBody,
         ShownInBody, ParseBody, FromRange, Reads, Reread, HeadersRead, MaskOf, HeaderSpans, RequestBodyLen,
         ContentType, BodySpan, ClosedRequestHeaders;
    var area, target := RangeIndices(Range(offset, headEnd)), Indices(head.line.target.indices);
    var whole := Indices(r.span.indices);
    ParsedRequestIsExact(src, offset, headEnd, head, r);
    assert whole == RangeIndices(Range(offset, headEnd + RequestBodyLen(head.headers).value));
    HeadersInRegion(r.headers, whole - target - BodySpan(r.body));
    BodyAfterHead(src, offset, headEnd, head, r);
    KeptByParts(keep, whole, r.headers, ClosedRequestHeaders(r.headers), r.body, shown);
    KeptSpanReads(src, m, keep, r.line.span);
    KeptSpanReads(src, m, keep, r.line.verb);
    KeptSpanReads(src, m, keep, r.line.target);
  }

  lemma BodyAfterHead(src: seq<byte>, offset: nat, headEnd: nat, head: Request, r: Request)
    requires offset <= headEnd <= |src| && IsRequest(src, offset, headEnd, head, r)
    ensures BodySpan(r.body) !! RangeIndices(Range(offset, headEnd))
  {
    hide RequestBodyLen, ContentType, P.Parse, Offset, IndexRanges;
  }

  /** The length and the type of the body read the same from masked headers. */
  lemma LengthAndTypeStay(src: seq<byte>, m: seq<byte>, keep: set<nat>, headers: seq<Header>, region: set<nat>,
                          closed: set<nat>)
    requires MaskOf(src, m, keep) && HeadersRead(src, headers) && HeadersNested(headers, region)
    requires HeadersKept(keep, headers, closed)
    requires forall k, name :: 0 <= k < |headers| && name in OPENED && FirstOfName(headers, k, name) ==> k !in closed
    ensures HeaderValue(RereadHeaders(m, headers), TRANSFER_ENCODING) == HeaderValue(headers, TRANSFER_ENCODING)
    ensures HeaderValue(RereadHeaders(m, headers), CONTENT_LENGTH) == HeaderValue(headers, CONTENT_LENGTH)
    ensures RequestBodyLen(RereadHeaders(m, headers)) == RequestBodyLen(headers)
    ensures ContentType(RereadHeaders(m, headers)) == ContentType(headers)
  {
    hide MaskOf, HeadersRead, HeadersNested, HeadersKept, FirstOfName, HeaderValue, RereadHeaders, Ascii, FromStrRadix;
    assert TRANSFER_ENCODING in OPENED && CONTENT_LENGTH in OPENED && CONTENT_TYPE in OPENED;
    OpenedValuesStay(src, m, keep, headers, region, closed, TRANSFER_ENCODING);
    OpenedValuesStay(src, m, keep, headers, region, closed, CONTENT_LENGTH);
    OpenedValuesStay(src, m, keep, headers, region, closed, CONTENT_TYPE);
  }

  // ----- Responses

  /** A parsed response head: the status's parts and the headers lie apart from each other before the body. */
  ghost predicate ResponseHeadReads(src: seq<byte>, offset: nat, headEnd: nat, head: Response) {
    var area := RangeIndices(Range(offset, headEnd));
    var status, free := head.status, area - HeaderSpans(head.headers);
    && HeadersNested(head.headers, area)
    && HeadersRead(src, head.headers)
    && Reads(src, status.span) && Reads(src, status.code) && Reads(src, status.reason)
    && Indices(status.span.indices) <= free && Indices(status.code.indices) <= free
    && Indices(status.reason.indices) <= free
  }

  function RereadStatus(m: seq<byte>, status: Status): Status {
    Status(Reread(m, status.span), Reread(m, status.code), Reread(m, status.reason))
  }

  function RereadResponseHead(m: seq<byte>, head: Response): Response {
    Response(Reread(m, head.span), RereadStatus(m, head.status), RereadHeaders(m, head.headers), None, None, None)
  }

  /** The response one hopes to read: as received, but for closed header values and hidden leaves. */
  ghost function MaskedResponse(m: seq<byte>, r: Response, shown: set<JsonValue>): Response {
    Response(Reread(m, r.span), r.status, RereadHeaders(m, r.headers), MaskedBody(m, r.body, shown), r.boundaries,
             r.trailers)
  }

  lemma {:induction false} SpansKept(src: seq<byte>, m: seq<byte>, keep: set<nat>, ranges: seq<Range>)
    requires MaskOf(src, m, keep) && InRange(src, ranges) && Indices(ranges) <= keep
    ensures InRange(m, ranges) && Spans(m, ranges) == Spans(src, ranges)
  {
    if ranges != [] {
      var r := ranges[0];
      assert m[r.start..r.end] == src[r.start..r.end] by {
        forall k | r.start <= k < r.end ensures m[k] == src[k] { assert k in RangeIndices(r); }
      }
      SpansKept(src, m, keep, ranges[1..]);
    }
  }

  lemma FitSameLength(src: seq<byte>, m: seq<byte>, headEnd: nat, ranges: BodyRanges)
    requires |m| == |src| && RangesFit(src, headEnd, ranges)
    ensures RangesFit(m, headEnd, ranges)
  {
  }

  /** What is kept of a response, part by part. */
  lemma ResponseIsKept(src: seq<byte>, m: seq<byte>, keep: set<nat>, offset: nat, headEnd: nat, head: Response,
                       r: Response, shown: set<JsonValue>)
    requires offset <= headEnd <= |src| && ResponseHeadReads(src, offset, headEnd, head)
    requires IsResponse(src, offset, headEnd, head, r)
    requires BodyFits(src, headEnd, head)
    requires MaskOf(src, m, keep)
    requires forall x :: x in Indices(r.span.indices) ==>
      (x in keep <==> x in Covered(ResponseSteps(r)) || x in ShownInBody(r.body, shown))
    ensures HeadersKept(keep, r.headers, ClosedResponseHeaders(r.headers)) && BodyKept(keep, r.body, shown)
    ensures forall x :: x in Indices(r.span.indices) && headEnd <= x && x !in BodySpan(r.body) ==> x in keep
    ensures RereadStatus(m, r.status) == r.status
    ensures r.span == NewSpan(src, offset, ResponseEnd(headEnd, RangesOf(head, src, headEnd).value))
    ensures Indices(r.span.indices)
       == RangeIndices(Range(offset, ResponseEnd(headEnd, RangesOf(head, src, headEnd).value)))
    ensures BodySpan(r.body) == Indices(RangesOf(head, src, headEnd).value.content)
  {
    hide Covered, ResponseSteps, BodyNested, HeadersNested, HeadersKept, BodyKept, ValueIndices, ClosedInBody,
         ShownInBody, ParseBody, FromRange, Reads, Reread, HeadersRead, MaskOf, HeaderSpans, ContentType, BodySpan,
         ClosedResponseHeaders, RangesOf, ResponseEnd, Spans, InRange;
    var area, whole := RangeIndices(Range(offset, headEnd)), Indices(r.span.indices);
    ParsedResponseIsExact(src, offset, headEnd, head, r);
    assert whole == RangeIndices(Range(offset, ResponseEnd(headEnd, RangesOf(head, src, headEnd).value)));
    HeadersInRegion(r.headers, area);
    ResponseBodySpan(src, offset, headEnd, head, r);
    KeptByParts(keep, whole, r.headers, ClosedResponseHeaders(r.headers), r.body, shown);
    KeptSpanReads(src, m, keep, r.status.span);
    KeptSpanReads(src, m, keep, r.status.code);
    KeptSpanReads(src, m, keep, r.status.reason);
  }

  lemma ResponseBodySpan(src: seq<byte>, offset: nat, headEnd: nat, head: Response, r: Response)
    requires offset <= headEnd <= |src| && IsResponse(src, offset, headEnd, head, r)
    ensures BodySpan(r.body) == Indices(RangesOf(head, src, headEnd).value.content)
    ensures Inside(BodySpan(r.body), headEnd, ResponseEnd(headEnd, RangesOf(head, src, headEnd).value))
  {
    hide RangesOf, ResponseEnd, ContentType, P.Parse, Offset, IndexRanges, Spans, InRange;
  }

  /** A response without chunk trailers. */
  ghost predicate NoTrailers(ranges: BodyRanges) {
    ranges.trailers.Some? ==> ranges.trailers.value == []
  }

  /** No trailers, or the line break that ends them, which a response's span lacks, is in the masked message. */
  ghost predicate LastBreakStays(src: seq<byte>, m: seq<byte>, headEnd: nat, ranges: BodyRanges)
    requires |m| == |src|
  {
    var end := ResponseEnd(headEnd, ranges);
    NoTrailers(ranges) || (end + 2 <= |src| && m[end] == src[end] && m[end + 1] == src[end + 1])
  }

  /** What masking can do to the ranges of a body: nothing, or they are found no more, or end further on. */
  ghost predicate SameOrLater(after: Result<BodyRanges>, ranges: BodyRanges, headEnd: nat) {
    || after == Ok(ranges)
    || after == Err(NoTrailerEnd)
    || (after.Ok? && ResponseEnd(headEnd, after.value) > ResponseEnd(headEnd, ranges))
  }

  /** The ranges of the body read the same from the masked message exactly when its last line break stays. */
  lemma RangesStay(src: seq<byte>, m: seq<byte>, headEnd: nat, head: Response, again: Response)
    requires |m| == |src| <= ISIZE_MAX && RangesOf(head, src, headEnd).Ok?
    requires again.status.code.data == head.status.code.data
    requires HeaderValue(again.headers, TRANSFER_ENCODING) == HeaderValue(head.headers, TRANSFER_ENCODING)
    requires HeaderValue(again.headers, CONTENT_LENGTH) == HeaderValue(head.headers, CONTENT_LENGTH)
    requires var ranges := RangesOf(head, src, headEnd).value;
      FrameKept(src, m, headEnd, ResponseEnd(headEnd, ranges), ranges.content)
    ensures var ranges := RangesOf(head, src, headEnd).value;
      && (RangesOf(again, m, headEnd) == Ok(ranges) <==> LastBreakStays(src, m, headEnd, ranges))
      && SameOrLater(RangesOf(again, m, headEnd), ranges, headEnd)
  {
    hide HeaderValue, FromStrRadix, ScanFrom, FromRanges, ResponseEnd, Ascii, Lowercase, LastBreakStays, SameOrLater;
    var ranges := RangesOf(head, src, headEnd).value;
    if ranges.boundaries.Some? {
      ScanStays(src, m, headEnd);
    } else {
      PlainRangesStay(src, m, headEnd, ranges);
    }
  }

  lemma PlainRangesStay(src: seq<byte>, m: seq<byte>, headEnd: nat, ranges: BodyRanges)
    requires |m| == |src| && ranges.trailers.None?
    ensures LastBreakStays(src, m, headEnd, ranges) && SameOrLater(Ok(ranges), ranges, headEnd)
  {
  }

  lemma ScanStays(src: seq<byte>, m: seq<byte>, headEnd: nat)
    requires |m| == |src| <= ISIZE_MAX && ScanFrom(src, headEnd).Scanned?
    requires var ranges := ChunkedRanges(ScanFrom(src, headEnd)).value;
      FrameKept(src, m, headEnd, ResponseEnd(headEnd, ranges), ranges.content)
    ensures var ranges := ChunkedRanges(ScanFrom(src, headEnd)).value;
      && (ChunkedRanges(ScanFrom(m, headEnd)) == Ok(ranges) <==> LastBreakStays(src, m, headEnd, ranges))
      && SameOrLater(ChunkedRanges(ScanFrom(m, headEnd)), ranges, headEnd)
  {
    hide ScanFrom, FromRanges, ResponseEnd, EmptyLineAt, LineBreakAt, RangesFit, EndKept, SpanEnd;
    var scan := ScanFrom(src, headEnd);
    ScanEnds(src, headEnd);
    ScanAfterMasking(src, m, headEnd);
    if ScanFrom(m, headEnd).Scanned? { ScanEnds(m, headEnd); }
    KeptIsStays(src, m, headEnd, scan);
  }

  /** What a scan says of where a response ends. */
  lemma ScanEnds(src: seq<byte>, headEnd: nat)
    requires ScanFrom(src, headEnd).Scanned?
    ensures var scan := ScanFrom(src, headEnd);
      && scan.boundaries != []
      && FromRanges(scan.contents) == scan.contents && FromRanges(scan.boundaries) == scan.boundaries
      && FromRanges(scan.trailers) == scan.trailers
      && ResponseEnd(headEnd, ChunkedRanges(scan).value) == SpanEnd(scan.boundaries, scan.trailers)
  {
    hide ScanFrom, FromRanges, ResponseEnd, Bounds, EmptyLineAt, LineBreakAt, RangesFit, TrailerEnd;
    var scan := ScanFrom(src, headEnd);
    ScanBounds(src, headEnd);
    BoundsInside(src, headEnd, scan.contents, scan.boundaries);
    RangesStayApart(src, headEnd);
    ChunkedRangesFit(src, headEnd);
    TrailersFit(src, scan.boundaries, scan.trailers);
  }

  lemma KeptIsStays(src: seq<byte>, m: seq<byte>, headEnd: nat, scan: Scan)
    requires |m| == |src| && scan.Scanned? && scan.boundaries != [] && FromRanges(scan.trailers) == scan.trailers
    requires ResponseEnd(headEnd, ChunkedRanges(scan).value) == SpanEnd(scan.boundaries, scan.trailers)
    ensures EndKept(src, m, SpanEnd(scan.boundaries, scan.trailers), scan.trailers)
       <==> LastBreakStays(src, m, headEnd, ChunkedRanges(scan).value)
  {
    hide ResponseEnd, SpanEnd, FromRanges;
  }

  /** No trailers, or both bytes of the line break behind the response's span are opened. */
  ghost predicate LastBreakOpened(keep: set<nat>, headEnd: nat, ranges: BodyRanges) {
    var end := ResponseEnd(headEnd, ranges);
    NoTrailers(ranges) || (end in keep && end + 1 in keep)
  }

  /** No line break is made of stars, so what stays of the last one is what is opened of it. */
  lemma StaysIfOpened(src: seq<byte>, m: seq<byte>, keep: set<nat>, headEnd: nat, head: Response)
    requires MaskOf(src, m, keep) && |m| == |src| && RangesOf(head, src, headEnd).Ok?
    ensures var ranges := RangesOf(head, src, headEnd).value;
      LastBreakStays(src, m, headEnd, ranges) <==> LastBreakOpened(keep, headEnd, ranges)
  {
    hide ScanFrom, FromRanges, ResponseEnd, HeaderValue, FromStrRadix, Ascii, Lowercase, RangesFit;
    var ranges := RangesOf(head, src, headEnd).value;
    if !NoTrailers(ranges) {
      ChunkedRangesFit(src, headEnd);
      NoRanges(ScanFrom(src, headEnd).trailers);
      var end := ResponseEnd(headEnd, ranges);
      assert EmptyLineAt(src, end - 2);
      assert src[end] != STAR && src[end + 1] != STAR;
    }
  }

  lemma NoRanges(ranges: seq<Range>)
    ensures ranges == [] ==> FromRanges(ranges) == []
  {
  }

  /**
   A disclosed response reads as what was received, as long as the root of a JSON body fits its ranges. Chunks
   are scanned again in the masked message. The response read is the one received, with closed header values
   and hidden leaves masked, if and only if the body is readable and, with chunk trailers, the two bytes behind
   the response's span are opened as well.
   */
  lemma MaskedResponseReads(src: seq<byte>, m: seq<byte>, keep: set<nat>, offset: nat, headEnd: nat, head: Response,
                            r: Response, shown: set<JsonValue>)
    requires offset <= headEnd <= |src| <= ISIZE_MAX
    requires ResponseHeadReads(src, offset, headEnd, head) && IsResponse(src, offset, headEnd, head, r)
    requires BodyFits(src, headEnd, head) && MaskOf(src, m, keep)
    requires forall x :: x in Indices(r.span.indices) ==>
      (x in keep <==> x in Covered(ResponseSteps(r)) || x in ShownInBody(r.body, shown))
    ensures IsResponse(m, offset, headEnd, RereadResponseHead(m, head), MaskedResponse(m, r, shown))
       <==> BodyReadable(r.body, shown) && LastBreakOpened(keep, headEnd, RangesOf(head, src, headEnd).value)
    ensures forall k :: 0 <= k < |r.headers| ==>
      && RereadHeader(m, r.headers[k]).name == r.headers[k].name
      && RereadHeader(m, r.headers[k]).value ==
         if OpenedName(r.headers[k].name.data) then r.headers[k].value else Starred(r.headers[k].value)
  {
    hide Covered, ResponseSteps, BodyNested, HeadersNested, HeadersKept, BodyKept, ValueIndices, ClosedInBody,
         ShownInBody, MaskedBody, BodyReadable, BodyFits, ParseBody, FromRange, Reads, Reread, HeadersRead, MaskOf,
         HeaderSpans, RereadHeader, RereadHeaders, HeaderValue, FirstOfName, ContentType, NewSpan, RangesOf,
         RangesFit, ResponseEnd, Spans, InRange, OpenedName, LastBreakStays, LastBreakOpened, NoTrailers;
    var closed := ClosedResponseHeaders(r.headers);
    var area := RangeIndices(Range(offset, headEnd));
    var ranges := RangesOf(head, src, headEnd).value;
    SameLength(src, m, keep);
    ResponseIsKept(src, m, keep, offset, headEnd, head, r, shown);
    forall k | 0 <= k < |r.headers|
      ensures RereadHeader(m, r.headers[k]).name == r.headers[k].name
      ensures RereadHeader(m, r.headers[k]).value ==
        if OpenedName(r.headers[k].name.data) then r.headers[k].value else Starred(r.headers[k].value)
    {
      HeaderRereads(src, m, keep, r.headers, area, closed, k);
    }
    forall k, name | 0 <= k < |r.headers| && name in OPENED && FirstOfName(r.headers, k, name) ensures k !in closed {
      OpenedByName(r.headers, k, name);
    }
    LengthAndTypeStay(src, m, keep, r.headers, area, closed);
    ResponseFrameKept(src, m, keep, offset, headEnd, ranges);
    RangesStay(src, m, headEnd, head, RereadResponseHead(m, head));
    StaysIfOpened(src, m, keep, headEnd, head);
    EndFits(src, headEnd, ranges);
    if LastBreakStays(src, m, headEnd, ranges) {
      ResponseRereads(src, m, keep, offset, headEnd, head, r, shown);
    } else {
      LaterSpan(src, m, offset, headEnd, RereadResponseHead(m, head), r, MaskedResponse(m, r, shown), ranges);
    }
  }

  lemma ResponseFrameKept(src: seq<byte>, m: seq<byte>, keep: set<nat>, offset: nat, headEnd: nat, ranges: BodyRanges)
    requires MaskOf(src, m, keep) && |m| == |src| && offset <= headEnd
    requires forall x ::
      x in RangeIndices(Range(offset, ResponseEnd(headEnd, ranges))) && headEnd <= x && x !in Indices(ranges.content)
      ==> x in keep
    ensures FrameKept(src, m, headEnd, ResponseEnd(headEnd, ranges), ranges.content)
    ensures FrameOpened(keep, headEnd, ranges)
  {
    hide ResponseEnd;
    forall x | headEnd <= x < ResponseEnd(headEnd, ranges) && x < |src| && x !in Indices(ranges.content)
      ensures m[x] == src[x]
    {
      assert x in RangeIndices(Range(offset, ResponseEnd(headEnd, ranges)));
    }
  }

  /** With the ranges found again, reading the response comes down to reading its body. */
  lemma ResponseRereads(src: seq<byte>, m: seq<byte>, keep: set<nat>, offset: nat, headEnd: nat, head: Response,
                        r: Response, shown: set<JsonValue>)
    requires offset <= headEnd <= |src| == |m| && MaskOf(src, m, keep) && IsResponse(src, offset, headEnd, head, r)
    requires BodyFits(src, headEnd, head) && BodyKept(keep, r.body, shown)
    requires var ranges := RangesOf(head, src, headEnd).value;
      && RangesOf(RereadResponseHead(m, head), m, headEnd) == Ok(ranges)
      && FrameOpened(keep, headEnd, ranges)
    requires ContentType(RereadHeaders(m, head.headers)) == ContentType(head.headers)
    requires RereadStatus(m, r.status) == r.status
    ensures IsResponse(m, offset, headEnd, RereadResponseHead(m, head), MaskedResponse(m, r, shown))
       <==> BodyReadable(r.body, shown)
  {
    hide BodyKept, MaskedBody, BodyReadable, ParseBody, FromRange, Reread, MaskOf, RereadHeaders, ContentType,
         NewSpan, RangesOf, RangesFit, RootFits, ResponseEnd, Spans, InRange;
    var ranges := RangesOf(head, src, headEnd).value;
    FitSameLength(src, m, headEnd, ranges);
    EndFits(src, headEnd, ranges);
    SpanRereads(src, m, offset, ResponseEnd(headEnd, ranges));
    if ranges.content != [] {
      BodyReads(src, m, keep, ranges.content, ContentType(head.headers), shown);
      MaskedBodySome(m, r.body, shown);
    } else {
      NoMaskedBody(m, shown);
    }
    if ranges.boundaries.Some? {
      BoundariesKept(src, headEnd, ranges, keep);
      SpansKept(src, m, keep, ranges.boundaries.value);
    }
  }

  /** Found to end further on, or nowhere, the response read has another span or is none. */
  lemma LaterSpan(src: seq<byte>, m: seq<byte>, offset: nat, headEnd: nat, again: Response, r: Response,
                  hoped: Response, ranges: BodyRanges)
    requires offset <= headEnd <= ResponseEnd(headEnd, ranges) <= |src| == |m|
    requires SameOrLater(RangesOf(again, m, headEnd), ranges, headEnd) && RangesOf(again, m, headEnd) != Ok(ranges)
    requires r.span == NewSpan(src, offset, ResponseEnd(headEnd, ranges)) && hoped.span == Reread(m, r.span)
    ensures !IsResponse(m, offset, headEnd, again, hoped)
  {
    hide RangesOf, ResponseEnd, Spans, InRange, ParseBody, FromRange, NewSpan, Reread, ContentType;
    var end := ResponseEnd(headEnd, ranges);
    SpanRereads(src, m, offset, end);
    if IsResponse(m, offset, headEnd, again, hoped) {
      var later := ResponseEnd(headEnd, RangesOf(again, m, headEnd).value);
      LongerSpan(m, offset, end, later);
    }
  }

  lemma LongerSpan(m: seq<byte>, lo: nat, hi: nat, later: nat)
    requires lo <= hi < later <= |m|
    ensures NewSpan(m, lo, hi) != NewSpan(m, lo, later)
  {
    assert |NewSpan(m, lo, hi).data| == hi - lo && |NewSpan(m, lo, later).data| == later - lo;
  }

  lemma EndFits(src: seq<byte>, headEnd: nat, ranges: BodyRanges)
    requires RangesFit(src, headEnd, ranges)
    ensures headEnd <= ResponseEnd(headEnd, ranges) <= |src|
    ensures InBounds(ranges.content, |src|)
    ensures ranges.boundaries.Some? ==> InRange(src, ranges.boundaries.value)
  {
  }

  ghost predicate FrameOpened(keep: set<nat>, headEnd: nat, ranges: BodyRanges) {
    forall x :: headEnd <= x < ResponseEnd(headEnd, ranges) && x !in Indices(ranges.content) ==> x in keep
  }

  lemma BoundariesKept(src: seq<byte>, headEnd: nat, ranges: BodyRanges, keep: set<nat>)
    requires RangesFit(src, headEnd, ranges) && ranges.boundaries.Some? && FrameOpened(keep, headEnd, ranges)
    ensures Indices(ranges.boundaries.value) <= keep
  {
    hide ResponseEnd, InRange;
  }

  lemma OpenedByName(headers: seq<Header>, k: nat, name: seq<byte>)
    requires k < |headers| && name in OPENED && FirstOfName(headers, k, name)
    ensures OpenedName(headers[k].name.data)
  {
    hide SameName;
  }

  /**
   With chunk trailers, what a response's span covers is not enough: unless the two bytes behind it are kept
   as well, its ranges are found no more, for want of a trailers' end, or the response is found to end further on.
   */
  lemma TrailersBreakReading(src: seq<byte>, m: seq<byte>, offset: nat, headEnd: nat, head: Response, again: Response)
    requires offset <= headEnd <= |m| == |src| <= ISIZE_MAX && RangesOf(head, src, headEnd).Ok?
    requires !LastBreakStays(src, m, headEnd, RangesOf(head, src, headEnd).value)
    requires again.status.code.data == head.status.code.data
    requires HeaderValue(again.headers, TRANSFER_ENCODING) == HeaderValue(head.headers, TRANSFER_ENCODING)
    requires HeaderValue(again.headers, CONTENT_LENGTH) == HeaderValue(head.headers, CONTENT_LENGTH)
    requires var ranges := RangesOf(head, src, headEnd).value;
      FrameKept(src, m, headEnd, ResponseEnd(headEnd, ranges), ranges.content)
    ensures RangesOf(again, m, headEnd).Ok? || RangesOf(again, m, headEnd) == Err(NoTrailerEnd)
    ensures forall r :: IsResponse(m, offset, headEnd, again, r) ==>
      |r.span.data| > ResponseEnd(headEnd, RangesOf(head, src, headEnd).value) - offset
  {
    hide RangesOf, ResponseEnd, Spans, InRange, ParseBody, FromRange, ContentType, FrameKept, LastBreakStays;
    RangesStay(src, m, headEnd, head, again);
  }
}
