/**
 The body of a masked message, read again: when it is the original body with exactly the hidden leaves of its
 JSON text masked, and when it is not.
 */
module BodyReading {
  import opened RangeSets
  import opened Wire
  import opened JsonTree
  import opened JsonTexts
  import opened JsonTextLaws
  import opened JsonDisclosure
  import opened HttpMessages
  import opened HttpCommit
  import opened HttpBody
  import opened HttpDisclosure
  import opened Disclosure
  import opened BodyMasking
  import P = JsonParser
  import T = Transcripts
  import JsonNesting
  import JsonOffset
  import JsonPlacement
  import ChunkPlacement

  // ----- Masked sources

  /** `m` is `src` with a star for every byte that is not kept. */
  ghost predicate MaskOf(src: seq<byte>, m: seq<byte>, keep: set<nat>) {
    |m| == |src| && forall p :: 0 <= p < |src| ==> m[p] == if p in keep then src[p] else STAR
  }

  /** What `parse_partial` reads is each direction with all but the opened indices starred. */
  lemma ParsePartialMasks(t: T.Transcript, sentIdx: RangeSet, receivedIdx: RangeSet)
    requires T.ToPartial(t, sentIdx, receivedIdx).Some?
    ensures var masked := T.SetUnauthed(T.ToPartial(t, sentIdx, receivedIdx).value, STAR);
      && MaskOf(t.sent, masked.sent.data, Indices(sentIdx))
      && MaskOf(t.received, masked.received.data, Indices(receivedIdx))
  {
    OpenedThenMasked(t.sent, sentIdx);
    OpenedThenMasked(t.received, receivedIdx);
  }

  lemma OpenedThenMasked(data: seq<byte>, idx: RangeSet)
    requires T.Opened(data, idx).Some?
    ensures var side := T.Opened(data, idx).value;
      MaskOf(data, T.FillSide(side, T.Unauthed(side), STAR).data, Indices(idx))
  {
    var side := T.Opened(data, idx).value;
    forall p | 0 <= p < |data|
      ensures T.FillSide(side, T.Unauthed(side), STAR).data[p] == if p in Indices(idx) then data[p] else STAR
    {
      assert p in RangeIndices(Range(0, |data|));
    }
  }

  lemma KeptSpanReads(src: seq<byte>, m: seq<byte>, keep: set<nat>, span: Span)
    requires MaskOf(src, m, keep) && Reads(src, span) && Indices(span.indices) <= keep
    ensures Reread(m, span) == span
  {
    T.IndexRangesSame(src, m, span.indices);
  }

  lemma {:induction false} StarsRead(m: seq<byte>, rs: RangeSet)
    requires InBounds(rs, |m|) && forall p :: p in Indices(rs) && p < |m| ==> m[p] == STAR
    ensures IndexRanges(m, rs) == Stars(Len(rs))
  {
    if rs != [] {
      InBoundsTail(rs, |m|);
      StarsRead(m, rs[1..]);
      var part := m[rs[0].start..rs[0].end];
      forall k | 0 <= k < |part| ensures part[k] == STAR {
        assert rs[0].start + k in RangeIndices(rs[0]);
      }
      assert IndexRanges(m, rs) == part + IndexRanges(m, rs[1..]);
    }
  }

  lemma ClosedSpanReads(src: seq<byte>, m: seq<byte>, keep: set<nat>, span: Span)
    requires MaskOf(src, m, keep) && Reads(src, span) && Indices(span.indices) !! keep
    ensures Reread(m, span) == Starred(span)
  {
    hide IndexRanges;
    InBoundsMeansBelow(span.indices, |src|);
    StarsRead(m, span.indices);
  }

  // ----- The body

  /** The shown leaves of a JSON body. */
  ghost function ShownInBody(body: Option<Body>, shown: set<JsonValue>): set<nat> {
    if body.Some? && body.value.content.Json? then Shown(body.value.content.value, shown) else {}
  }

  /** The body with its leaves masked but for the shown ones. */
  ghost function MaskedBody(m: seq<byte>, body: Option<Body>, shown: set<JsonValue>): Option<Body> {
    match body
    case None => None
    case Some(b) =>
      match b.content
      case Json(v) => Some(Body(Reread(m, b.span), Json(Redact(v, shown, m))))
      case Unknown(span) => Some(Body(Reread(m, b.span), Unknown(Reread(m, span))))
  }

  /** In the body, what is kept is what is not closed, and the shown leaves. */
  ghost predicate BodyKept(keep: set<nat>, body: Option<Body>, shown: set<JsonValue>) {
    forall x :: x in BodySpan(body) ==> (x in keep <==> x !in ClosedInBody(body) || x in ShownInBody(body, shown))
  }

  /** A body of unknown content is kept as a whole. */
  lemma KeptBody(src: seq<byte>, m: seq<byte>, keep: set<nat>, range: RangeSet, contentType: seq<byte>,
                 shown: set<JsonValue>)
    requires MaskOf(src, m, keep) && range != [] && InBounds(range, |src|) && !IsJsonType(contentType)
    requires BodyKept(keep, Some(ParseBody(src, range, contentType).value), shown)
    ensures ParseBody(m, range, contentType).Ok?
    ensures Some(ParseBody(m, range, contentType).value)
       == MaskedBody(m, Some(ParseBody(src, range, contentType).value), shown)
    ensures ParseBody(m, range, contentType) == ParseBody(src, range, contentType)
  {
    T.IndexRangesSame(src, m, range);
  }

  // ----- Objects and arrays

  /** An object or array that fits the first range, masked at its hidden leaves, parses with these leaves masked. */
  lemma MaskedContainerReads(src: seq<byte>, m: seq<byte>, keep: set<nat>, range: RangeSet, contentType: seq<byte>,
                             shown: set<JsonValue>)
    requires MaskOf(src, m, keep) && range != [] && InBounds(range, |src|) && IsJsonType(contentType)
    requires ParseBody(src, range, contentType).Ok? && RootFits(src, range, contentType)
    requires var body := Some(ParseBody(src, range, contentType).value);
      body.value.content.value.Container() && BodyKept(keep, body, shown)
    ensures ParseBody(m, range, contentType).Ok?
    ensures Some(ParseBody(m, range, contentType).value)
         == MaskedBody(m, Some(ParseBody(src, range, contentType).value), shown)
  {
    hide P.Parse, Offset, Redact, IndexRanges, FromRange, FirstBytes, RootFits, NewSpan, MaskOf, BodyKept,
         ShownInBody, Reread, MaskedAt, Hidden;
    var body := ParseBody(src, range, contentType).value;
    var v, payload, lo := body.content.value, IndexRanges(src, range), range[0].start;
    var e := |v.span.data|;
    SameLength(src, m, keep);
    RootAlone(src, range, contentType);
    HiddenAreMasked(src, m, keep, range, contentType, shown);
    FromRangeStart(lo, lo + e);
    IndexOneRange(m, lo, lo + e);
    MaskedBodyParses(src, m, lo, lo + e, contentType, shown);
    FirstPart(m, IndexRanges(m, range), range, e);
    LongerMaskedParses(m, range, lo, e, v, shown);
    BodyRereads(src, m, range, contentType);
  }

  lemma SameLength(src: seq<byte>, m: seq<byte>, keep: set<nat>)
    requires MaskOf(src, m, keep)
    ensures |m| == |src|
  {
  }

  lemma BodyRereads(src: seq<byte>, m: seq<byte>, range: RangeSet, contentType: seq<byte>)
    requires range != [] && InBounds(range, |src|) && |m| == |src| && ParseBody(src, range, contentType).Ok?
    ensures Reread(m, ParseBody(src, range, contentType).value.span) == Span(IndexRanges(m, range), range)
  {
    hide P.Parse, Offset, IndexRanges;
  }

  /** In the root, exactly the hidden leaves are masked. */
  lemma HiddenAreMasked(src: seq<byte>, m: seq<byte>, keep: set<nat>, range: RangeSet, contentType: seq<byte>,
                        shown: set<JsonValue>)
    requires MaskOf(src, m, keep) && range != [] && InBounds(range, |src|) && IsJsonType(contentType)
    requires ParseBody(src, range, contentType).Ok? && RootFits(src, range, contentType)
    requires BodyKept(keep, Some(ParseBody(src, range, contentType).value), shown)
    requires ParseBody(src, range, contentType).value.content.value.Container()
    ensures var v := ParseBody(src, range, contentType).value.content.value;
      MaskedAt(src, m, Indices(v.span.indices), Hidden(v, shown))
  {
    hide P.Parse, Offset, IndexRanges, RootFits, Shown, Hidden, WellNested;
    RootInBodyIffFits(src, range, contentType);
    BodyOverRanges(src, range, contentType);
    ShownOrHidden(ParseBody(src, range, contentType).value.content.value, shown);
  }

  /** A root that fits the first range is also what that stretch of the source is parsed to as a body of its own. */
  lemma RootAlone(src: seq<byte>, range: RangeSet, contentType: seq<byte>)
    requires range != [] && InBounds(range, |src|) && IsJsonType(contentType)
    requires ParseBody(src, range, contentType).Ok? && RootFits(src, range, contentType)
    requires ParseBody(src, range, contentType).value.content.value.Container()
    ensures var v := ParseBody(src, range, contentType).value.content.value;
      var lo, e := range[0].start, |v.span.data|;
      && 0 < e <= range[0].end - range[0].start && lo + e <= |src|
      && FromRange(lo, lo + e) == [Range(lo, lo + e)] && InBounds(FromRange(lo, lo + e), |src|)
      && ParseBody(src, FromRange(lo, lo + e), contentType) == Ok(Body(NewSpan(src, lo, lo + e), Json(v)))
  {
    hide P.Parse, Offset, IndexRanges, FromRange, FirstBytes, RootFits;
    var payload, lo := IndexRanges(src, range), range[0].start;
    var v0 := P.Parse(payload).value;
    var e := |v0.span.data|;
    RootInBodyIffFits(src, range, contentType);
    MovedKind(v0, lo);
    FirstBytesLead(src, range);
    JsonPlacement.ContainerStandsAlone(payload);
    ChunkPlacement.ContainerCloses(payload);
    FirstPart(src, payload, range, e);
    FromRangeStart(lo, lo + e);
    IndexOneRange(src, lo, lo + e);
    WholeSlice(payload, e);
  }

  lemma WholeSlice(payload: seq<byte>, e: nat)
    requires e <= |payload|
    ensures NewSpan(payload, 0, e).data == payload[..e]
  {
  }

  /** What the ranges hold begins with what the source holds from the first range's start on. */
  lemma FirstPart(src: seq<byte>, payload: seq<byte>, range: RangeSet, e: nat)
    requires range != [] && InBounds(range, |src|) && payload == IndexRanges(src, range)
    requires e <= range[0].end - range[0].start
    ensures e <= |payload| && range[0].start + e <= |src|
    ensures payload[..e] == src[range[0].start..range[0].start + e]
  {
    hide IndexRanges;
    InBoundsTail(range, |src|);
    FirstBytesLead(src, range);
    var first := FirstBytes(src, range);
    assert payload[..e] == first[..e];
  }

  lemma LongerMaskedParses(m: seq<byte>, range: RangeSet, lo: nat, e: nat, v: JsonValue, shown: set<JsonValue>)
    requires range != [] && InBounds(range, |m|) && lo == range[0].start && lo + e <= |m|
    requires e <= |IndexRanges(m, range)| && IndexRanges(m, range)[..e] == m[lo..lo + e]
    requires P.Parse(m[lo..lo + e]).Some? && Offset(P.Parse(m[lo..lo + e]).value, lo) == Redact(v, shown, m)
    requires v.Container()
    ensures P.Parse(IndexRanges(m, range)) == P.Parse(m[lo..lo + e])
  {
    hide P.Parse, Offset, Redact, IndexRanges;
    RedactKind(v, shown, m);
    MovedKind(P.Parse(m[lo..lo + e]).value, lo);
    LongerSourceParses(m[lo..lo + e], IndexRanges(m, range));
  }

  lemma RedactKind(v: JsonValue, shown: set<JsonValue>, m: seq<byte>)
    ensures Redact(v, shown, m).Container() <==> v.Container()
  {
  }

  // ----- Leaves

  /**
   Whether a masked body reads as one hopes. An object or array does, and so does a body of unknown content. A
   string as the whole of a body does not, since its quotes are masked. Any other leaf does when it is shown
   and no run of stars itself, or when nothing stands behind it that could be masked.
   */
  ghost predicate BodyReadable(body: Option<Body>, shown: set<JsonValue>) {
    body.Some? && body.value.content.Json? ==>
      var v := body.value.content.value;
      && !v.String?
      && (v.Container() || (v in shown && !v.Redacted?) || |v.span.data| == |body.value.span.data|)
  }

  /** All stars parse as one redacted value. */
  lemma StarsAreRedacted(part: seq<byte>)
    requires part != [] && part == Stars(|part|)
    ensures P.Parse(part) == Some(Redacted(SpanOf(part, 0)))
  {
    hide P.Value;
    assert part[0..|part|] == part;
    TextParses(part, 0, StarsText(|part|));
  }

  lemma StarLeads(part: seq<byte>)
    requires P.At(part, 0, STAR)
    ensures P.Parse(part).Some? && P.Parse(part).value.Redacted?
  {
    hide P.Value;
    JsonNesting.ValueByFirstByte(part, 0);
  }

  /** A number or literal is parsed the same when stars follow it. */
  lemma StarsEndLeaf(payload: seq<byte>, part: seq<byte>, e: nat)
    requires P.Parse(payload).Some? && e == |P.Parse(payload).value.span.data|
    requires var v := P.Parse(payload).value; !v.Container() && !v.String? && !v.Redacted?
    requires e <= |payload| && e <= |part| && part[..e] == payload[..e]
    requires forall k :: e <= k < |part| ==> part[k] == STAR
    ensures P.Parse(part) == P.Parse(payload)
  {
    hide P.Value, P.Parse, Print, Legal, Tree, Holds, TextEnds;
    var v := P.Parse(payload).value;
    ParsesExactlyTexts(payload, v);
    var t: Text :| IsTextOf(t, payload, v);
    LeafText(t);
    PrefixHolds(payload[..e], part, Print(t)) by { HoldsTake(payload, Print(t), e); }
    StarEndsText(t, part, e);
    assert IsTextOf(t, part, v);
    ParsesExactlyTexts(part, v);
  }

  lemma HoldsTake(payload: seq<byte>, bytes: seq<byte>, e: nat)
    requires Holds(payload, 0, bytes) && e == |bytes|
    ensures Holds(payload[..e], 0, bytes)
  {
  }

  lemma LeafText(t: Text)
    requires !Tree(t, 0).String? && !Tree(t, 0).Container()
    ensures t.Bare() && |Tree(t, 0).span.data| == |Print(t)|
    ensures Tree(t, 0).Redacted? <==> t.StarsText?
  {
    hide Print, FromRange;
  }

  lemma StarEndsText(t: Text, part: seq<byte>, e: nat)
    requires e == |part| || P.At(part, e, STAR)
    ensures t.Bare() && !t.StarsText? ==> TextEnds(t, part, e)
  {
  }

  /** Of a body that is a leaf, only the leaf is ever kept, and only when it is shown. */
  lemma LeafIsKept(keep: set<nat>, body: Body, shown: set<JsonValue>)
    requires body.content.Json? && !body.content.value.Container() && BodyKept(keep, Some(body), shown)
    ensures forall x :: x in Indices(body.span.indices) ==>
      (x in keep <==> body.content.value in shown && x in Indices(body.content.value.span.indices))
  {
  }

  /** Behind the first `e` bytes, the ranges hold stars. */
  lemma StarsBehind(m: seq<byte>, range: RangeSet, e: nat)
    requires range != [] && InBounds(range, |m|) && e <= range[0].end - range[0].start
    requires forall p :: p in Indices(range) && range[0].start + e <= p < |m| ==> m[p] == STAR
    ensures forall k :: e <= k < |IndexRanges(m, range)| ==> IndexRanges(m, range)[k] == STAR
  {
    InBoundsTail(range, |m|);
    IndicesAbove(range[1..], range[0].end);
    StarsRead(m, range[1..]);
    var first := m[range[0].start..range[0].end];
    forall k | e <= k < |first| ensures first[k] == STAR {
      assert range[0].start + k in RangeIndices(range[0]);
    }
    assert IndexRanges(m, range) == first + IndexRanges(m, range[1..]);
  }

  /** What is known of a body whose root is a leaf other than a string. */
  lemma LeafInFirst(src: seq<byte>, range: RangeSet, contentType: seq<byte>)
    requires range != [] && InBounds(range, |src|) && IsJsonType(contentType)
    requires ParseBody(src, range, contentType).Ok? && RootFits(src, range, contentType)
    requires var v := ParseBody(src, range, contentType).value.content.value; !v.Container() && !v.String?
    ensures var payload := IndexRanges(src, range);
      var v0, lo := P.Parse(payload).value, range[0].start;
      var e := |v0.span.data|;
      && !v0.Container() && !v0.String? && 0 < e <= |payload| && e <= range[0].end - range[0].start
      && v0.span == NewSpan(payload, 0, e)
      && Indices(Offset(v0, lo).span.indices) == RangeIndices(Range(lo, lo + e))
  {
    hide P.Parse, Offset, IndexRanges, RootFits, NewSpan, WellNested, Indices, ShiftRight, FromRange, FirstBytes;
    var payload, lo := IndexRanges(src, range), range[0].start;
    var v0 := P.Parse(payload).value;
    MovedKind(v0, lo);
    MovedString(v0, lo);
    JsonOffset.OffsetMovesSpan(v0, lo);
    ChunkPlacement.RootSpan(payload);
    JsonNesting.ParsedTreeNested(payload);
    LeafSpans(v0);
    var e := |v0.span.data|;
    SpanLength(payload, e);
    RootRun(v0, e, payload, lo);
    RootInBodyIffFits(src, range, contentType);
    RunFromStart(range, e);
  }

  lemma LeafSpans(v: JsonValue)
    requires WellNested(v) && !v.Container() && !v.String?
    ensures v.span.indices != []
  {
  }

  lemma SpanLength(payload: seq<byte>, e: nat)
    requires e <= |payload|
    ensures NewSpan(payload, 0, e).indices != [] ==> e > 0
  {
  }

  /** What a masked leaf body holds: the leaf if it is shown, and stars. */
  lemma LeafBytes(src: seq<byte>, m: seq<byte>, keep: set<nat>, range: RangeSet, contentType: seq<byte>,
                  shown: set<JsonValue>)
    requires MaskOf(src, m, keep) && range != [] && InBounds(range, |src|) && IsJsonType(contentType)
    requires ParseBody(src, range, contentType).Ok? && RootFits(src, range, contentType)
    requires var v := ParseBody(src, range, contentType).value.content.value; !v.Container() && !v.String?
    requires BodyKept(keep, Some(ParseBody(src, range, contentType).value), shown)
    ensures var v := ParseBody(src, range, contentType).value.content.value;
      var payload, part := IndexRanges(src, range), IndexRanges(m, range);
      var e := |v.span.data|;
      && |part| == |payload| && 0 < e <= |payload|
      && (forall k :: e <= k < |part| ==> part[k] == STAR)
      && (if v in shown then part[..e] == payload[..e] else part == Stars(|part|))
  {
    hide P.Parse, Offset, IndexRanges, RootFits, NewSpan, BodyKept, Indices;
    var body := ParseBody(src, range, contentType).value;
    var v, lo := body.content.value, range[0].start;
    var payload, part := IndexRanges(src, range), IndexRanges(m, range);
    MovedKind(P.Parse(payload).value, lo);
    LeafInFirst(src, range, contentType);
    LeafIsKept(keep, body, shown);
    var e := |v.span.data|;
    FirstPart(src, payload, range, e);
    FirstPart(m, part, range, e);
    InBoundsMeansBelow(range, |m|);
    FirstRange(range);
    StarsBehind(m, range, if v in shown then e else 0);
    if v in shown {
      assert m[lo..lo + e] == src[lo..lo + e] by {
        forall k | lo <= k < lo + e ensures m[k] == src[k] { assert k in RangeIndices(range[0]); }
      }
    }
  }

  /** Masked and read again, a leaf is as one hopes exactly when `BodyReadable` says so. */
  lemma MaskedLeafReads(src: seq<byte>, m: seq<byte>, keep: set<nat>, range: RangeSet, contentType: seq<byte>,
                        shown: set<JsonValue>)
    requires MaskOf(src, m, keep) && range != [] && InBounds(range, |src|) && IsJsonType(contentType)
    requires ParseBody(src, range, contentType).Ok? && RootFits(src, range, contentType)
    requires var v := ParseBody(src, range, contentType).value.content.value; !v.Container() && !v.String?
    requires BodyKept(keep, Some(ParseBody(src, range, contentType).value), shown)
    ensures var body := ParseBody(src, range, contentType).value;
      ReadsAs(ParseBody(m, range, contentType), MaskedBody(m, Some(body), shown)) <==> BodyReadable(Some(body), shown)
  {
    hide P.Parse, Offset, IndexRanges, RootFits, NewSpan, BodyKept, Indices, MaskOf, Reread, FromRange;
    SameLength(src, m, keep);
    var body := ParseBody(src, range, contentType).value;
    var v, lo := body.content.value, range[0].start;
    var payload, part := IndexRanges(src, range), IndexRanges(m, range);
    var v0, e := P.Parse(payload).value, |v.span.data|;
    LeafBytes(src, m, keep, range, contentType, shown);
    LeafInFirst(src, range, contentType);
    MovedKind(v0, lo);
    BodyRereads(src, m, range, contentType);
    MovedLeaf(v0, lo);
    if v in shown && !v.Redacted? {
      StarsEndLeaf(payload, part, e);
    } else {
      if v in shown { RedactedIsStars(payload); StarsJoin(part, e); }
      StarsAreRedacted(part);
      RedactedMoves(part, lo);
      LeafRedacts(v, shown, m, payload, lo, e);
      StarsOfLength(part, e);
      if v in shown { assert v.span.data == payload[..e] == Stars(e); }
    }
  }

  /** A body was parsed, and it is the given one. */
  ghost predicate ReadsAs(r: Result<Body>, body: Option<Body>) { r.Ok? && Some(r.value) == body }

  lemma MovedLeaf(v: JsonValue, n: nat)
    ensures Offset(v, n).Redacted? <==> v.Redacted?
  {
  }

  lemma RedactedIsStars(payload: seq<byte>)
    requires P.Parse(payload).Some? && P.Parse(payload).value.Redacted?
    ensures var e := |P.Parse(payload).value.span.data|;
      e <= |payload| && payload[..e] == P.Parse(payload).value.span.data == Stars(e)
  {
    hide P.Parse, P.Value, Legal, Holds, TextEnds, FromRange;
    var v := P.Parse(payload).value;
    ParsesExactlyTexts(payload, v);
    var t: Text :| IsTextOf(t, payload, v);
    RedactedText(t, v);
    HoldsInBounds(payload, 0, Print(t));
    HoldsSliceIs(payload, Print(t));
  }

  lemma RedactedText(t: Text, v: JsonValue)
    requires Tree(t, 0) == v && v.Redacted?
    ensures Print(t) == Stars(|Print(t)|) == v.span.data
  {
    hide FromRange;
  }

  lemma HoldsSliceIs(payload: seq<byte>, bytes: seq<byte>)
    requires Holds(payload, 0, bytes)
    ensures |bytes| <= |payload| && payload[..|bytes|] == bytes
  {
  }

  lemma StarsJoin(part: seq<byte>, e: nat)
    requires e <= |part| && part[..e] == Stars(e) && forall k :: e <= k < |part| ==> part[k] == STAR
    ensures part == Stars(|part|)
  {
    assert forall k :: 0 <= k < e ==> part[k] == part[..e][k];
  }

  lemma RedactedMoves(part: seq<byte>, lo: nat)
    ensures Offset(Redacted(SpanOf(part, 0)), lo) == Redacted(Span(part, FromRange(lo, lo + |part|)))
  {
    hide FromRange;
    ShiftFromRange(0, |part|, lo);
  }

  /** A hidden leaf is hoped to be as many stars as it has bytes. */
  lemma LeafRedacts(v: JsonValue, shown: set<JsonValue>, m: seq<byte>, payload: seq<byte>, lo: nat, e: nat)
    requires !v.Container() && !v.String? && e == |v.span.data|
    requires P.Parse(payload).Some? && e <= |payload|
    requires v == Offset(P.Parse(payload).value, lo) && P.Parse(payload).value.span == NewSpan(payload, 0, e)
    ensures v.span == Span(payload[..e], FromRange(lo, lo + e))
    ensures v !in shown ==> Redact(v, shown, m) == Redacted(Span(Stars(e), FromRange(lo, lo + e)))
    ensures v in shown ==> Redact(v, shown, m) == v
  {
    hide P.Parse, FromRange;
    JsonOffset.OffsetMovesSpan(P.Parse(payload).value, lo);
    ShiftFromRange(0, e, lo);
  }

  /** Stars over different runs are different spans. */
  lemma StarsOfLength(part: seq<byte>, e: nat)
    requires part == Stars(|part|)
    ensures part == Stars(e) <==> |part| == e
  {
  }

  /** A string as the whole of a body loses its opening quote, and is no string when it is read again. */
  lemma MaskedStringReads(src: seq<byte>, m: seq<byte>, keep: set<nat>, range: RangeSet, contentType: seq<byte>,
                          shown: set<JsonValue>)
    requires MaskOf(src, m, keep) && range != [] && InBounds(range, |src|) && IsJsonType(contentType)
    requires ParseBody(src, range, contentType).Ok?
    requires ParseBody(src, range, contentType).value.content.value.String?
    requires BodyKept(keep, Some(ParseBody(src, range, contentType).value), shown)
    ensures var body := ParseBody(src, range, contentType).value;
      !ReadsAs(ParseBody(m, range, contentType), MaskedBody(m, Some(body), shown))
  {
    hide P.Parse, Offset, IndexRanges, BodyKept, Reread, FirstBytes;
    var body := ParseBody(src, range, contentType).value;
    var v, lo := body.content.value, range[0].start;
    var payload, part := IndexRanges(src, range), IndexRanges(m, range);
    LeafIsKept(keep, body, shown);
    StringStartsLate(payload, lo);
    FirstRange(range);
    InBoundsTail(range, |src|);
    assert lo in RangeIndices(range[0]);
    FirstPart(m, part, range, 1);
    FirstBytesLead(m, range);
    assert part[..1][0] == m[lo..lo + 1][0] == STAR;
    StarLeads(part);
    MovedLeaf(P.Parse(part).value, lo);
    RedactString(v, shown, m);
  }

  lemma RedactString(v: JsonValue, shown: set<JsonValue>, m: seq<byte>)
    requires v.String?
    ensures Redact(v, shown, m).String?
  {
  }

  /** The opening quote is no part of a string's span. */
  lemma StringStartsLate(payload: seq<byte>, lo: nat)
    requires P.Parse(payload).Some? && Offset(P.Parse(payload).value, lo).String?
    ensures lo !in Indices(Offset(P.Parse(payload).value, lo).span.indices)
  {
    hide P.Parse, P.Value, Legal, Holds, TextEnds, Offset, ShiftRight, FromRange;
    var v := P.Parse(payload).value;
    MovedString(v, lo);
    JsonOffset.OffsetMovesSpan(v, lo);
    ParsesExactlyTexts(payload, v);
    var t: Text :| IsTextOf(t, payload, v);
    var start := StringSpan(t, v);
    ShiftFromRange(start, start + |v.span.data|, lo);
    IndexOfRun(start + lo, start + lo + |v.span.data|, lo);
  }

  lemma StringSpan(t: Text, v: JsonValue) returns (start: nat)
    requires Tree(t, 0) == v && v.String?
    ensures v.span.indices == FromRange(start, start + |v.span.data|) && start > 0
  {
    hide FromRange, PiecesText;
    start := 1 + |t.q.blank|;
  }

  lemma IndexOfRun(lo: nat, hi: nat, x: nat)
    requires lo <= hi && x < lo
    ensures x !in Indices(FromRange(lo, hi))
  {
  }

  /** A masked body, read again: it is the original with its hidden leaves masked exactly when it is readable. */
  lemma BodyReads(src: seq<byte>, m: seq<byte>, keep: set<nat>, range: RangeSet, contentType: seq<byte>,
                  shown: set<JsonValue>)
    requires MaskOf(src, m, keep) && range != [] && InBounds(range, |src|) && ParseBody(src, range, contentType).Ok?
    requires RootFits(src, range, contentType)
    requires BodyKept(keep, Some(ParseBody(src, range, contentType).value), shown)
    ensures var body := ParseBody(src, range, contentType).value;
      ReadsAs(ParseBody(m, range, contentType), MaskedBody(m, Some(body), shown)) <==> BodyReadable(Some(body), shown)
  {
    hide BodyKept, MaskedBody, P.Parse, IndexRanges, MaskOf, RootFits, Offset;
    if !IsJsonType(contentType) {
      KeptBody(src, m, keep, range, contentType, shown);
    } else if ParseBody(src, range, contentType).value.content.value.Container() {
      MaskedContainerReads(src, m, keep, range, contentType, shown);
    } else if ParseBody(src, range, contentType).value.content.value.String? {
      MaskedStringReads(src, m, keep, range, contentType, shown);
    } else {
      MaskedLeafReads(src, m, keep, range, contentType, shown);
    }
  }
}
