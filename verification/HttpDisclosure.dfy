/** Parsed messages, structure committed: what parsing places well, and exactly what stays closed. */
module HttpDisclosure {
  import opened RangeSets
  import opened Wire
  import opened Numerals
  import opened JsonTree
  import opened JsonCommit
  import opened JsonPartition
  import opened HttpMessages
  import opened HttpCommit
  import opened HttpBody
  import opened ChunkedBody
  import opened ChunkedLaws
  import P = JsonParser
  import JsonNesting
  import JsonOffset
  import JsonPlacement
  import JsonTextLaws
  import ChunkPlacement

  // ----- JSON bodies

  lemma ParsedInside(part: seq<byte>, n: nat)
    requires P.Parse(part).Some?
    ensures Indices(Offset(P.Parse(part).value, n).span.indices) <= RangeIndices(Range(n, n + |part|))
  {
    hide P.Parse, Offset;
    var v := P.Parse(part).value;
    JsonNesting.ParsedTreeNested(part);
    InBoundsMeansBelow(v.span.indices, |part|);
    JsonOffset.OffsetMovesSpan(v, n);
  }

  /** A body in one range: its tree lies inside the body and every node points at its data in the message. */
  lemma SingleRangeBodyIsPlaced(src: seq<byte>, lo: nat, hi: nat, contentType: seq<byte>)
    requires lo < hi <= |src| && FromRange(lo, hi) != [] && InBounds(FromRange(lo, hi), |src|)
    requires ParseBody(src, FromRange(lo, hi), contentType).Ok?
    ensures var body := ParseBody(src, FromRange(lo, hi), contentType).value;
      && body.span == NewSpan(src, lo, hi)
      && BodyNested(Some(body))
      && (body.content.Json? ==> Faithful(src, body.content.value))
  {
    hide P.Parse, Offset, Faithful, WellNested, FromRange, IndexRanges;
    IndexOneRange(src, lo, hi);
    FromRangeStart(lo, hi);
    var part := src[lo..hi];
    if IsJsonType(contentType) {
      var v := P.Parse(part).value;
      ParsedInside(part, lo);
      JsonNesting.ParsedTreeNested(part);
      JsonPlacement.OffsetKeepsNesting(v, lo);
      JsonPlacement.OffsetIsFaithful(src, part, lo, v);
    }
  }

  lemma FromRangeStart(lo: nat, hi: nat)
    requires lo < hi
    ensures FromRange(lo, hi) == [Range(lo, hi)]
  {
  }

  /** A JSON body in several ranges is placed by its least index alone, so all of its nodes are right if the root is. */
  lemma ManyRangeBodyIsPlacedIff(src: seq<byte>, range: RangeSet, contentType: seq<byte>)
    requires range != [] && InBounds(range, |src|) && IsJsonType(contentType) && ParseBody(src, range, contentType).Ok?
    ensures var root := ParseBody(src, range, contentType).value.content.value;
      Faithful(src, root) <==> Reads(src, root.span)
  {
    hide P.Parse, Offset, Faithful, Reads, IndexRanges;
    var part := IndexRanges(src, range);
    JsonPlacement.PlacedIffRootIs(src, part, range[0].start);
    JsonOffset.OffsetMovesSpan(P.Parse(part).value, range[0].start);
  }

  /** The indices are none, or all in one of the ranges. */
  ghost predicate InOneRange(indices: RangeSet, rs: RangeSet) {
    indices == [] || exists k ::
      0 <= k < |rs| && rs[k].start <= indices[0].start && indices[|indices| - 1].end <= rs[k].end
  }

  /**
   The root of a JSON body fits its ranges. This can be told before the body is parsed as a whole: an object
   or an array fits when the bytes of the first range parse on their own. A leaf fits when its indices,
   counted from the first range's start, do not leave the range they begin in.
   */
  ghost predicate RootFits(src: seq<byte>, range: RangeSet, contentType: seq<byte>)
    requires range != [] && InBounds(range, |src|)
  {
    var payload := P.Parse(IndexRanges(src, range));
    IsJsonType(contentType) && payload.Some? ==>
      if payload.value.Container() then P.Parse(FirstBytes(src, range)).Some?
      else InOneRange(ShiftRight(payload.value.span.indices, range[0].start), range)
  }

  function FirstBytes(src: seq<byte>, range: RangeSet): seq<byte>
    requires range != [] && InBounds(range, |src|)
  {
    InBoundsTail(range, |src|);
    src[range[0].start..range[0].end]
  }

  /** The root of a JSON body lies inside the body, as far as its span says. */
  ghost predicate RootInBody(body: Option<Body>) {
    body.Some? && body.value.content.Json? ==> Indices(body.value.content.value.span.indices) <= BodySpan(body)
  }

  /** A run of indices lies in a set exactly when it lies in one of the set's ranges. */
  lemma InOneRangeIff(indices: RangeSet, rs: RangeSet)
    requires |indices| <= 1
    ensures Indices(indices) <= Indices(rs) <==> InOneRange(indices, rs)
  {
    if indices != [] {
      assert indices == [indices[0]] && indices[1..] == [];
      RunInSet(rs, indices[0].start, indices[0].end);
      assert Indices(indices) == RangeIndices(indices[0]);
    }
  }

  /** A run from the start of the first range on lies in the set exactly when it is no longer than that range. */
  lemma RunFromStart(rs: RangeSet, e: nat)
    requires rs != [] && e > 0
    ensures RangeIndices(Range(rs[0].start, rs[0].start + e)) <= Indices(rs) <==> e <= rs[0].end - rs[0].start
  {
    RunInSet(rs, rs[0].start, rs[0].start + e);
    forall k | 0 < k < |rs| ensures rs[0].start < rs[k].start { LaterStart(rs, k); }
    var lo, hi := rs[0].start, rs[0].start + e;
    if e <= rs[0].end - rs[0].start { assert rs[0].start <= lo && hi <= rs[0].end; }
    if k :| 0 <= k < |rs| && rs[k].start <= lo && hi <= rs[k].end { assert k == 0; }
  }

  lemma {:induction false} LaterStart(rs: RangeSet, k: nat)
    requires 0 < k < |rs|
    ensures rs[0].end < rs[k].start
  {
    if k > 1 { LaterStart(rs[1..], k - 1); }
  }

  lemma FirstBytesLead(src: seq<byte>, range: RangeSet)
    requires range != [] && InBounds(range, |src|)
    ensures FirstBytes(src, range) != [] && FirstBytes(src, range) <= IndexRanges(src, range)
    ensures |FirstBytes(src, range)| == range[0].end - range[0].start
  {
    InBoundsTail(range, |src|);
    assert IndexRanges(src, range) == FirstBytes(src, range) + IndexRanges(src, range[1..]);
  }

  /** The root of a parsed JSON body lies in the body exactly when it fits the ranges. */
  lemma RootInBodyIffFits(src: seq<byte>, range: RangeSet, contentType: seq<byte>)
    requires range != [] && InBounds(range, |src|) && ParseBody(src, range, contentType).Ok?
    ensures var body := ParseBody(src, range, contentType).value;
      && (RootInBody(Some(body)) <==> RootFits(src, range, contentType))
      && (IsJsonType(contentType) && body.content.value.Container() ==>
            (RootFits(src, range, contentType) <==> |body.content.value.span.data| <= |FirstBytes(src, range)|))
  {
    hide P.Parse, Offset, IndexRanges, FirstBytes, InOneRange, Indices, ShiftRight, WellNested;
    if IsJsonType(contentType) {
      var payload := IndexRanges(src, range);
      var v := P.Parse(payload).value;
      var start := range[0].start;
      JsonOffset.OffsetMovesSpan(v, start);
      MovedKind(v, start);
      if v.Container() {
        FirstBytesLead(src, range);
        JsonPlacement.ContainerStandsAlone(payload);
        ChunkPlacement.ContainerCloses(payload);
        JsonTextLaws.ShorterSourceParses(FirstBytes(src, range), payload);
        RootRun(v, |v.span.data|, payload, start);
        RunFromStart(range, |v.span.data|);
      } else {
        JsonNesting.ParsedTreeNested(payload);
        OneRangeLeaf(v);
        JsonPlacement.ShiftLength(v.span.indices, start);
        InOneRangeIff(ShiftRight(v.span.indices, start), range);
      }
    }
  }

  lemma MovedKind(v: JsonValue, n: nat)
    ensures Offset(v, n).Container() <==> v.Container()
    ensures Offset(v, n).span.data == v.span.data
  {
  }

  lemma RootRun(v: JsonValue, e: nat, payload: seq<byte>, start: nat)
    requires e <= |payload| && v.span == NewSpan(payload, 0, e)
    ensures Indices(ShiftRight(v.span.indices, start)) == RangeIndices(Range(start, start + e))
  {
    hide ShiftRight, FromRange;
    ShiftFromRange(0, e, start);
  }

  lemma OneRangeLeaf(v: JsonValue)
    requires WellNested(v) && !v.Container()
    ensures |v.span.indices| <= 1
  {
  }

  /**
   A chunked JSON body whose root is no string is placed right if and only if its root fits the first content;
   for objects and arrays, if and only if the first content parses on its own.
   */
  lemma ChunkedBodyIsPlacedIff(src: seq<byte>, headEnd: nat, contentType: seq<byte>)
    requires ScanFrom(src, headEnd).Scanned? && ScanFrom(src, headEnd).contents != []
    requires ChunkPlacement.LineBreaksAfter(src, ScanFrom(src, headEnd).contents)
    requires var range := FromRanges(ScanFrom(src, headEnd).contents);
      && range != [] && InBounds(range, |src|)
      && IsJsonType(contentType) && ParseBody(src, range, contentType).Ok?
      && !ParseBody(src, range, contentType).value.content.value.String?
    ensures var range := FromRanges(ScanFrom(src, headEnd).contents);
      var root := ParseBody(src, range, contentType).value.content.value;
      && (Faithful(src, root) <==> |root.span.data| <= |FirstBytes(src, range)|)
      && (root.Container() ==> (Faithful(src, root) <==> P.Parse(FirstBytes(src, range)).Some?))
  {
    hide ScanFrom, FromRanges, Layout, P.Parse, Offset, Faithful, IndexRanges, Concatenated,
         ChunkPlacement.LineBreaksAfter;
    var scan := ScanFrom(src, headEnd);
    var range := FromRanges(scan.contents);
    ScannedIsLayout(src, headEnd);
    RangesStayApart(src, headEnd);
    ChunkPlacement.ContentsInBounds(src, headEnd, scan.contents, scan.boundaries, scan.trailers);
    ConcatenatedIsIndexRanges(src, range);
    var v := P.Parse(Concatenated(src, scan.contents)).value;
    MovedKind(v, range[0].start);
    MovedString(v, range[0].start);
    ChunkPlacement.ChunkedRootIsPlacedIff(src, headEnd, scan.contents, scan.boundaries, scan.trailers);
  }

  lemma MovedString(v: JsonValue, n: nat)
    ensures Offset(v, n).String? <==> v.String?
  {
  }

  /** The number 12 sent as two chunks of one digit: its span takes in the line break after the first chunk. */
  lemma TwoChunksAreMisplaced()
    ensures var src: seq<byte> := [0x31, CR, LF, 0x31, CR, LF, 0x32];
      var range: RangeSet := [Range(0, 1), Range(6, 7)];
      && InBounds(range, |src|) && ParseBody(src, range, JSON_TYPE).Ok?
      && var root := ParseBody(src, range, JSON_TYPE).value.content.value;
      && root.span.data == [0x31, 0x32]
      && root.span.indices == FromRange(0, 2)
      && !Faithful(src, root)
  {
    var src: seq<byte> := [0x31, CR, LF, 0x31, CR, LF, 0x32];
    var range: RangeSet := [Range(0, 1), Range(6, 7)];
    var part: seq<byte> := [0x31, 0x32];
    assert range[1..] == [Range(6, 7)] && range[1..][1..] == [];
    assert IndexRanges(src, range[1..]) == src[6..7] + [];
    assert IndexRanges(src, range) == part;
    NumberTwelve(part);
    ShiftFromRange(0, 2, 0);
    IndexOneRange(src, 0, 2);
    assert src[0..2][1] == CR;
  }

  lemma NumberTwelve(part: seq<byte>)
    requires part == [0x31, 0x32]
    ensures P.Parse(part) == Some(Number(NewSpan(part, 0, 2))) && NewSpan(part, 0, 2).data == part
  {
    hide P.Value, NewSpan;
    JsonNesting.ValueByFirstByte(part, 0);
    assert P.Run(part, 0, P.IsDigit) == 2 by {
      assert P.Run(part, 2, P.IsDigit) == 2;
      assert P.Run(part, 1, P.IsDigit) == 2;
    }
    TwelveSpan(part);
  }

  lemma TwelveSpan(part: seq<byte>)
    requires |part| == 2
    ensures NewSpan(part, 0, 2).data == part
  {
  }

  /** `Body::offset` moves the body's own span and leaves its content where it was. */
  function OffsetBody(body: Body, n: nat): Body { Body(OffsetSpan(body.span, n), body.content) }

  /** So a body of unknown content no longer agrees with its content, unless it is moved by nothing or empty. */
  lemma OffsetBodyLeavesContent(body: Body, n: nat)
    requires body.content.Unknown? && BodyNested(Some(body))
    ensures BodyNested(Some(OffsetBody(body, n))) <==> n == 0 || body.span.indices == []
  {
    if n == 0 { JsonOffset.ShiftNothing(body.span.indices); }
  }

  /**
   A JSON body in one range no longer holds its tree once it is moved past the root's first index: for an
   object or an array, once it is moved at all.
   */
  lemma OffsetBodyLeavesJson(src: seq<byte>, lo: nat, hi: nat, contentType: seq<byte>, n: nat)
    requires lo < hi <= |src| && FromRange(lo, hi) != [] && InBounds(FromRange(lo, hi), |src|)
    requires IsJsonType(contentType) && ParseBody(src, FromRange(lo, hi), contentType).Ok?
    ensures var body := ParseBody(src, FromRange(lo, hi), contentType).value;
      var root := body.content.value;
      && (BodyNested(Some(OffsetBody(body, n))) <==>
            root.span.indices == [] || lo + n <= root.span.indices[0].start)
      && (root.Container() ==> (BodyNested(Some(OffsetBody(body, n))) <==> n == 0))
  {
    hide P.Parse, Offset, Faithful, WellNested, FromRange, IndexRanges, ShiftRight, Indices, BodyNested;
    var body := ParseBody(src, FromRange(lo, hi), contentType).value;
    var part := src[lo..hi];
    SingleRangeBodyIsPlaced(src, lo, hi, contentType);
    IndexOneRange(src, lo, hi);
    FromRangeStart(lo, hi);
    var root, v := body.content.value, P.Parse(part).value;
    ShiftFromRange(lo, hi, n);
    MovedBodyNested(body, n);
    MovedInside(root.span.indices, lo, hi, n);
    MovedKind(v, lo);
    if v.Container() { RootStart(part, v, lo); }
  }

  /** Moved without its content, a body still holds its tree if the root's indices are still inside. */
  lemma MovedBodyNested(body: Body, n: nat)
    requires body.content.Json? && BodyNested(Some(body))
    ensures |body.content.value.span.indices| <= 1
    ensures Indices(body.content.value.span.indices) <= Indices(body.span.indices)
    ensures BodyNested(Some(OffsetBody(body, n))) <==>
              Indices(body.content.value.span.indices) <= Indices(ShiftRight(body.span.indices, n))
  {
    hide WellNested, Indices, ShiftRight;
    RootOneRange(body.content.value);
  }

  /** The root of a container starts at the first index of its body. */
  lemma RootStart(part: seq<byte>, v: JsonValue, lo: nat)
    requires P.Parse(part) == Some(v) && v.Container()
    ensures Offset(v, lo).span.indices != [] && Offset(v, lo).span.indices[0].start == lo
  {
    hide P.Parse, Offset, FromRange, ShiftRight;
    JsonOffset.OffsetMovesSpan(v, lo);
    JsonPlacement.ContainerStandsAlone(part);
    ChunkPlacement.ContainerCloses(part);
    ShiftFromRange(0, |v.span.data|, lo);
    FromRangeStart(lo, lo + |v.span.data|);
  }

  lemma RootOneRange(root: JsonValue)
    requires WellNested(root)
    ensures |root.span.indices| <= 1
  {
  }

  /** A run inside a range stays inside the range moved up exactly when the range still starts before it. */
  lemma MovedInside(run: RangeSet, lo: nat, hi: nat, n: nat)
    requires |run| <= 1 && lo < hi && Indices(run) <= Indices(FromRange(lo, hi))
    ensures Indices(run) <= Indices(FromRange(lo + n, hi + n)) <==> run == [] || lo + n <= run[0].start
  {
    if run != [] {
      assert run == [run[0]] && run[1..] == [];
      assert run[0].start in RangeIndices(run[0]);
      assert forall x :: x in RangeIndices(run[0]) ==> x in Indices(FromRange(lo, hi));
    }
  }

  // ----- Requests

  lemma {:induction false} HeadersNestedInMore(headers: seq<Header>, region: set<nat>, more: set<nat>)
    requires HeadersNested(headers, region) && region <= more
    ensures HeadersNested(headers, more)
  {
    if headers != [] { HeadersNestedInMore(headers[1..], region, more); }
  }

  /** What is known of a parsed request head: target and headers lie apart from each other before the body. */
  ghost predicate RequestHeadNested(offset: nat, headEnd: nat, head: Request) {
    var target, area := Indices(head.line.target.indices), RangeIndices(Range(offset, headEnd));
    target <= area && HeadersNested(head.headers, area - target)
  }

  /**
   Every parsed request opens exactly its bytes without the closed header values and the closed part of its
   body; nothing more is needed of the message than that its head was parsed in order.
   */
  lemma ParsedRequestIsExact(src: seq<byte>, offset: nat, headEnd: nat, head: Request, r: Request)
    requires offset <= headEnd <= |src| && RequestHeadNested(offset, headEnd, head)
    requires IsRequest(src, offset, headEnd, head, r)
    ensures RequestNested(r)
    ensures Covered(RequestSteps(r)) ==
      RangeIndices(Range(offset, headEnd + RequestBodyLen(head.headers).value))
      - ClosedInRequest(head.headers) - ClosedInBody(r.body)
  {
    hide HeadersNested, BodyNested, RequestSteps, Covered, ClosedInRequest, ClosedInBody, RequestBodyLen, ParseBody,
         FromRange, P.Parse;
    var end := headEnd + RequestBodyLen(head.headers).value;
    var target := Indices(head.line.target.indices);
    if headEnd < end {
      FromRangeStart(headEnd, end);
      SingleRangeBodyIsPlaced(src, headEnd, end, ContentType(head.headers));
    } else {
      NoBodyNested();
    }
    assert Indices(r.span.indices) == RangeIndices(Range(offset, end));
    HeadersNestedInMore(head.headers, RangeIndices(Range(offset, headEnd)) - target,
                        Indices(r.span.indices) - target - BodySpan(r.body));
    RequestStructureIsExact(r);
  }

  lemma NoBodyNested()
    ensures BodyNested(None) && RootInBody(None)
  {
  }

  // ----- Responses

  lemma {:induction false} SpansCover(src: seq<byte>, ranges: seq<Range>)
    requires InRange(src, ranges)
    ensures Covered(SpanSteps(Spans(src, ranges))) == Indices(ranges)
  {
    if ranges != [] {
      SpansCover(src, ranges[1..]);
      var span := NewSpan(src, ranges[0].start, ranges[0].end);
      CoveredOne(span.indices);
      CoveredConcat([Set(span.indices)], SpanSteps(Spans(src, ranges[1..])));
    }
  }

  lemma NoSpansCover(src: seq<byte>)
    ensures Covered(SpanSteps([])) == {} && HeaderSpans([]) == {}
  {
  }

  lemma BodyOverRanges(src: seq<byte>, range: RangeSet, contentType: seq<byte>)
    requires range != [] && InBounds(range, |src|) && ParseBody(src, range, contentType).Ok?
    ensures var body := ParseBody(src, range, contentType).value;
      && body.span.indices == range
      && (BodyNested(Some(body)) <==> RootInBody(Some(body)))
      && (|range| == 1 || !IsJsonType(contentType) ==> RootInBody(Some(body)))
  {
    hide P.Parse, Offset, WellNested, IndexRanges;
    if IsJsonType(contentType) {
      var part := IndexRanges(src, range);
      JsonNesting.ParsedTreeNested(part);
      JsonPlacement.OffsetKeepsNesting(P.Parse(part).value, range[0].start);
    }
    if |range| == 1 {
      assert range == FromRange(range[0].start, range[0].end);
      InBoundsTail(range, |src|);
      SingleRangeBodyIsPlaced(src, range[0].start, range[0].end, contentType);
    }
  }

  /** The root of a response's JSON body, if it has one, fits the ranges of the body. */
  ghost predicate BodyFits(src: seq<byte>, headEnd: nat, head: Response) {
    var ranges := RangesOf(head, src, headEnd);
    ranges.Ok? && ranges.value.content != [] && InBounds(ranges.value.content, |src|) ==>
      RootFits(src, ranges.value.content, ContentType(head.headers))
  }

  /**
   Every parsed response, chunked or not, opens exactly its span without the closed header values and the
   closed part of its body, provided the root of a JSON body fits its ranges: that is what nesting comes down
   to, and one range is enough for it. Boundaries open nothing of their own.
   */
  lemma ParsedResponseIsExact(src: seq<byte>, offset: nat, headEnd: nat, head: Response, r: Response)
    requires offset <= headEnd <= |src| && HeadersNested(head.headers, RangeIndices(Range(offset, headEnd)))
    requires IsResponse(src, offset, headEnd, head, r)
    ensures ResponseNested(r) <==> BodyFits(src, headEnd, head)
    ensures |RangesOf(head, src, headEnd).value.content| == 1 ==> BodyFits(src, headEnd, head)
    ensures BodyFits(src, headEnd, head) ==>
      && Covered(ResponseSteps(r)) == Indices(r.span.indices) - ClosedInResponse(head.headers) - ClosedInBody(r.body)
      && Covered(SpanSteps(OrEmpty(r.boundaries))) <= Indices(ResponseFrame(r))
  {
    hide HeadersNested, BodyNested, ResponseSteps, Covered, ClosedInResponse, ClosedInBody, RangesOf, ParseBody,
         FromRange, P.Parse, SpanSteps, Spans, HeaderSpans, ResponseFrame, ResponseEnd, InRange, RootInBody, RootFits;
    var ranges := RangesOf(head, src, headEnd).value;
    var end := ResponseEnd(headEnd, ranges);
    var area := RangeIndices(Range(offset, headEnd));
    if ranges.content != [] {
      BodyOverRanges(src, ranges.content, ContentType(head.headers));
      RootInBodyIffFits(src, ranges.content, ContentType(head.headers));
    } else {
      NoBodyNested();
    }
    assert Indices(r.span.indices) == RangeIndices(Range(offset, end));
    assert BodySpan(r.body) == Indices(ranges.content);
    HeadersInRegion(head.headers, area);
    HeadersNestedInMore(head.headers, area, Indices(r.span.indices) - BodySpan(r.body));
    NoSpansCover(src);
    if ranges.boundaries.Some? { SpansCover(src, ranges.boundaries.value); }
    if RootInBody(r.body) { ResponseStructureIsExact(r); }
  }

  /**
   The span of a response to a chunked encoding is the whole message exactly when there are no trailers;
   with trailers it stops short of the last line break.
   */
  lemma ResponseSpanIsMessage(prefix: seq<byte>, chunks: seq<Chunk>, last: seq<byte>, trailers: seq<byte>,
                              suffix: seq<byte>)
    requires |prefix + Encode(chunks, last, trailers) + suffix| <= ISIZE_MAX
    requires forall k :: 0 <= k < |chunks| ==> Legal(chunks[k])
    requires FromStrRadix(last, 16) == Some(0) && LegalTrailers(trailers)
    ensures var src := prefix + Encode(chunks, last, trailers) + suffix;
      var ranges := ChunkedRanges(ScanFrom(src, |prefix|));
      var end := |prefix| + |Encode(chunks, last, trailers)|;
      && ranges.Ok?
      && ResponseEnd(|prefix|, ranges.value) == (if trailers == [] then end else end - 2)
      && (ResponseEnd(|prefix|, ranges.value) == end <==> trailers == [])
  {
    hide Encode, Legal, LegalTrailers, FromStrRadix, ScanFrom, FromRanges, RangesFit, Payload, SizeLines, LineBreakAt,
         IndexRanges, InBounds;
    var src := prefix + Encode(chunks, last, trailers) + suffix;
    ChunkedRoundTrip(prefix, chunks, last, trailers, suffix);
    ChunkedRangesFit(src, |prefix|);
    HoldsInside(prefix, Encode(chunks, last, trailers), suffix);
    EncodingIsScanned(src, |prefix|, chunks, last, trailers);
  }
}
