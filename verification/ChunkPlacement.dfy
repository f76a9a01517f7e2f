/**
 Where a JSON text that came in chunks lies in the message. Its tree is placed by the first content alone,
 and that is right exactly when the root's text lies in the first content.
 */
module ChunkPlacement {
  import opened RangeSets
  import opened Wire
  import opened Numerals
  import opened JsonTree
  import opened ChunkedBody
  import opened ChunkedLaws
  import P = JsonParser
  import JsonNesting
  import JsonPlacement
  import JsonTexts
  import JsonTextLaws

  /** What stands between contents: line breaks, and the digits of sizes with a plus sign at most. */
  predicate FrameByte(b: byte) { b == CR || b == LF || b == PLUS_SIGN || Digit(b, 16).Some? }

  /** Each content is followed by a line break, as section 7.1 of RFC 9112 has it; the scanner does not check. */
  ghost predicate LineBreaksAfter(src: seq<byte>, contents: seq<Range>) {
    forall k :: 0 <= k < |contents| ==> LineBreakAt(src, contents[k].end)
  }

  lemma SizeLineIsFrame(src: seq<byte>, b: Range, size: nat, x: nat)
    requires SizeLine(src, b, size) && b.Has(x)
    ensures x < |src| && FrameByte(src[x])
  {
    hide FromStrRadix;
    if x < b.end - 2 {
      OnlyDigits(src[b.start..b.end - 2], 16, x - b.start);
    }
  }

  /** The contents of a layout lie in the source; the payload is no longer than the stretch they take up. */
  lemma {:induction false} ContentsInBounds(src: seq<byte>, pos: nat, contents: seq<Range>, boundaries: seq<Range>,
                                            trailers: seq<Range>)
    requires Layout(src, pos, contents, boundaries, trailers)
    ensures forall k :: 0 <= k < |contents| ==> contents[k].start <= contents[k].end <= |src|
    ensures contents != [] ==> contents[0].start + |Concatenated(src, contents)| <= LastEnd(contents) <= |src|
    decreases |contents|
  {
    hide Layout, SizeLine, TrailersAt;
    if contents != [] {
      LayoutStarts(src, pos, contents, boundaries, trailers);
      var b, c, rest := boundaries[0], contents[0], contents[1..];
      assert contents == [c] + rest && boundaries == [b] + boundaries[1..];
      LayoutCons(src, b, c, rest, boundaries[1..], trailers);
      LayoutHasBoundary(src, c.end + 2, Scanned(rest, boundaries[1..], trailers));
      ContentsInBounds(src, c.end + 2, rest, boundaries[1..], trailers);
      if rest != [] {
        NextContent(src, c.end + 2, rest, boundaries[1..], trailers);
      }
    }
  }

  /** The next content starts behind its size line. */
  lemma NextContent(src: seq<byte>, pos: nat, contents: seq<Range>, boundaries: seq<Range>, trailers: seq<Range>)
    requires Layout(src, pos, contents, boundaries, trailers) && contents != []
    ensures |boundaries| == |contents| + 1 && boundaries[0].start == pos < boundaries[0].end == contents[0].start
    ensures contents[0].start < contents[0].end
    ensures SizeLine(src, boundaries[0], contents[0].end - contents[0].start)
  {
    hide SizeLine, TrailersAt;
    assert ChunkAt(src, contents, boundaries, 0);
    SizeLineNonEmpty(src, boundaries[0], contents[0].end - contents[0].start);
  }

  /**
   A byte of the stretch that the contents take up is a frame byte, or it is a byte of the payload; behind
   the first content the payload lags behind the source.
   */
  lemma {:induction false} ByteAt(src: seq<byte>, pos: nat, contents: seq<Range>, boundaries: seq<Range>,
                                  trailers: seq<Range>, x: nat) returns (j: nat)
    requires Layout(src, pos, contents, boundaries, trailers) && LineBreaksAfter(src, contents) && contents != []
    requires contents[0].start <= x < LastEnd(contents)
    requires forall k :: 0 <= k < |contents| ==> contents[k].start <= contents[k].end <= |src|
    ensures x < |src|
    ensures FrameByte(src[x]) ||
      (j < |Concatenated(src, contents)| && Concatenated(src, contents)[j] == src[x] && j <= x - contents[0].start)
    ensures FrameByte(src[x]) || x < contents[0].end ||
      contents[0].end - contents[0].start <= j < x - contents[0].start
    decreases |contents|
  {
    hide Layout, SizeLine, TrailersAt, FrameByte, LineBreaksAfter, Concatenated;
    ContentsInBounds(src, pos, contents, boundaries, trailers);
    var c, rest := contents[0], contents[1..];
    PayloadHead(src, contents);
    j := 0;
    if x < c.end {
      j := x - c.start;
      assert src[c.start..c.end][j] == src[x];
    } else if x < c.end + 2 {
      LineBreakIsFrame(src, contents, 0, x);
    } else {
      LayoutStarts(src, pos, contents, boundaries, trailers);
      var b := boundaries[0];
      assert contents == [c] + rest && boundaries == [b] + boundaries[1..];
      LayoutCons(src, b, c, rest, boundaries[1..], trailers);
      NextContent(src, c.end + 2, rest, boundaries[1..], trailers);
      if x < rest[0].start {
        SizeLineIsFrame(src, boundaries[1], rest[0].end - rest[0].start, x);
      } else {
        LaterLineBreaks(src, contents);
        var i := ByteAt(src, c.end + 2, rest, boundaries[1..], trailers, x);
        j := c.end - c.start + i;
      }
    }
  }

  lemma PayloadHead(src: seq<byte>, contents: seq<Range>)
    requires forall k :: 0 <= k < |contents| ==> contents[k].start <= contents[k].end <= |src|
    requires contents != []
    ensures Concatenated(src, contents) == src[contents[0].start..contents[0].end] + Concatenated(src, contents[1..])
  {
  }

  lemma LineBreakIsFrame(src: seq<byte>, contents: seq<Range>, k: nat, x: nat)
    requires LineBreaksAfter(src, contents) && k < |contents| && contents[k].end <= x < contents[k].end + 2
    ensures x < |src| && FrameByte(src[x])
  {
    assert LineBreakAt(src, contents[k].end);
  }

  lemma LaterLineBreaks(src: seq<byte>, contents: seq<Range>)
    requires LineBreaksAfter(src, contents) && contents != []
    ensures LineBreaksAfter(src, contents[1..])
  {
    hide LineBreakAt;
  }

  /**
   As far as the source spells the payload from the first content on, everything behind the first content
   is made of frame bytes.
   */
  lemma {:induction false} AgreementIsFrame(src: seq<byte>, pos: nat, contents: seq<Range>, boundaries: seq<Range>,
                                            trailers: seq<Range>, e: nat, q: nat)
    requires Layout(src, pos, contents, boundaries, trailers) && LineBreaksAfter(src, contents) && contents != []
    requires forall k :: 0 <= k < |contents| ==> contents[k].start <= contents[k].end <= |src|
    requires e <= |Concatenated(src, contents)| && contents[0].start + e <= |src|
    requires src[contents[0].start..contents[0].start + e] == Concatenated(src, contents)[..e]
    requires contents[0].end - contents[0].start <= q < e
    ensures FrameByte(Concatenated(src, contents)[q])
    decreases q
  {
    hide Layout, LineBreaksAfter, FrameByte, Concatenated;
    var start, payload := contents[0].start, Concatenated(src, contents);
    ContentsInBounds(src, pos, contents, boundaries, trailers);
    assert src[start + q] == src[start..start + e][q] == payload[..e][q] == payload[q];
    var j := ByteAt(src, pos, contents, boundaries, trailers, start + q);
    if !FrameByte(src[start + q]) {
      AgreementIsFrame(src, pos, contents, boundaries, trailers, e, j);
    }
  }

  lemma BracketsAreNoFrame()
    ensures !FrameByte(P.RBRACE) && !FrameByte(P.RBRACKET)
  {
  }

  /** The last byte of a container is its closing bracket. */
  lemma ContainerCloses(part: seq<byte>)
    requires P.Parse(part).Some? && P.Parse(part).value.Container()
    ensures var e := |P.Parse(part).value.span.data|;
      0 < e <= |part| && (part[e - 1] == P.RBRACE || part[e - 1] == P.RBRACKET)
  {
    hide P.Value, P.ObjectRule, P.ArrayRule, P.Parse;
    JsonTextLaws.BracketsMakeContainers(part);
    JsonPlacement.ContainerStandsAlone(part);
    ContainerEnd(part);
  }

  lemma ContainerEnd(part: seq<byte>)
    requires P.Parse(part).Some? && |P.Parse(part).value.span.data| <= |part|
    requires P.Parse(part).value.span == NewSpan(part, 0, |P.Parse(part).value.span.data|)
    requires P.At(part, 0, P.LBRACE) || P.At(part, 0, P.LBRACKET)
    ensures var e := |P.Parse(part).value.span.data|;
      0 < e <= |part| && (part[e - 1] == P.RBRACE || part[e - 1] == P.RBRACKET)
  {
    hide P.Value, P.ObjectRule, P.ArrayRule, NewSpan, FromRange;
    JsonNesting.ValueByFirstByte(part, 0);
    JsonNesting.ContainerLastByte(part, 0);
    RootEnds(part);
  }

  /** The root of a container spans what its rule matched. */
  lemma RootEnds(part: seq<byte>)
    requires P.Value(part, 0).Match? && (P.At(part, 0, P.LBRACE) || P.At(part, 0, P.LBRACKET))
    ensures |P.Value(part, 0).node.span.data| == P.Value(part, 0).end
  {
    hide P.Value, P.Pair, P.MorePairs, P.MoreValues, P.Skip;
    JsonNesting.ValueByFirstByte(part, 0);
  }

  /** Numbers, literals and runs of stars hold no line break. */
  lemma BareHasNoBreak(t: JsonTexts.Text, k: nat)
    requires t.Bare() && JsonTexts.Legal(t) && k < |JsonTexts.Print(t)|
    ensures JsonTexts.Print(t)[k] != CR
  {
    if t.NumberText? { NumeralHasNoBreak(t.n, k); }
  }

  lemma NumeralHasNoBreak(n: JsonTexts.Numeral, k: nat)
    requires JsonTexts.LegalNumeral(n) && k < |JsonTexts.NumeralText(n)|
    ensures JsonTexts.NumeralText(n)[k] != CR
  {
    assert forall i :: 0 <= i < |JsonTexts.FractionText(n.fraction)| ==> JsonTexts.FractionText(n.fraction)[i] != CR;
    assert forall i :: 0 <= i < |JsonTexts.ExponentText(n.exponent)| ==> JsonTexts.ExponentText(n.exponent)[i] != CR;
  }

  /** A root that is no string spans its source from the first byte on; a leaf of that kind holds no line break. */
  lemma RootSpan(part: seq<byte>)
    requires P.Parse(part).Some? && !P.Parse(part).value.String?
    ensures var v := P.Parse(part).value;
      && |v.span.data| <= |part| && v.span == NewSpan(part, 0, |v.span.data|)
      && (!v.Container() ==> forall k :: 0 <= k < |v.span.data| ==> part[k] != CR)
  {
    hide P.Value, P.Parse, JsonTexts.Print, JsonTexts.Legal, NewSpan, Holds;
    var v := P.Parse(part).value;
    if v.Container() {
      JsonPlacement.ContainerStandsAlone(part);
    } else {
      JsonTextLaws.ParsesExactlyTexts(part, v);
      var t: JsonTexts.Text :| JsonTextLaws.IsTextOf(t, part, v);
      LeafIsBare(t);
      JsonTextLaws.SpanHolds(part, 0, JsonTexts.Print(t));
      forall k | 0 <= k < |v.span.data| ensures part[k] != CR {
        JsonTextLaws.HeldByte(part, 0, JsonTexts.Print(t), k);
        BareHasNoBreak(t, k);
      }
    }
  }

  lemma LeafIsBare(t: JsonTexts.Text)
    requires !JsonTexts.Tree(t, 0).String? && !JsonTexts.Tree(t, 0).Container()
    ensures t.Bare() && JsonTexts.Tree(t, 0).span == JsonTexts.SpanOf(JsonTexts.Print(t), 0)
  {
    hide JsonTexts.Print, JsonTexts.SpanOf;
  }

  /** The source spells the payload as far as the first content goes. */
  lemma FirstContentReads(src: seq<byte>, payload: seq<byte>, lo: nat, hi: nat, v: JsonValue)
    requires lo <= hi <= |src| && src[lo..hi] <= payload && |v.span.data| <= hi - lo
    requires v.span == NewSpan(payload, 0, |v.span.data|)
    ensures Reads(src, OffsetSpan(v.span, lo))
  {
    hide FromRange, ShiftRight, IndexRanges;
    var e := |v.span.data|;
    assert src[lo..lo + e] == src[lo..hi][..e] == payload[..e];
    IndexOneRange(src, lo, lo + e);
    ShiftFromRange(0, e, lo);
  }

  /**
   Unless its root is a string, a JSON text that came in chunks is placed right exactly when the root's text
   lies in the first content: brackets are no frame bytes and other leaves hold no line break, so the source
   cannot spell the root across the frame. A container lies there exactly when the first content alone parses.
   */
  lemma ChunkedRootIsPlacedIff(src: seq<byte>, pos: nat, contents: seq<Range>, boundaries: seq<Range>,
                               trailers: seq<Range>)
    requires Layout(src, pos, contents, boundaries, trailers) && LineBreaksAfter(src, contents) && contents != []
    requires forall k :: 0 <= k < |contents| ==> contents[k].start <= contents[k].end <= |src|
    requires P.Parse(Concatenated(src, contents)).Some? && !P.Parse(Concatenated(src, contents)).value.String?
    ensures var v := P.Parse(Concatenated(src, contents)).value;
      var c := contents[0];
      && (Faithful(src, Offset(v, c.start)) <==> |v.span.data| <= c.end - c.start)
      && (v.Container() ==> (Faithful(src, Offset(v, c.start)) <==> P.Parse(src[c.start..c.end]).Some?))
  {
    hide Layout, LineBreaksAfter, FrameByte, Faithful, Offset, P.Parse, Reads, Concatenated, NewSpan;
    var payload, c := Concatenated(src, contents), contents[0];
    var v := P.Parse(payload).value;
    var e := |v.span.data|;
    FirstContent(src, pos, contents, boundaries, trailers);
    RootSpan(payload);
    JsonPlacement.PlacedIffRootIs(src, payload, c.start);
    if v.Container() { JsonTextLaws.ShorterSourceParses(src[c.start..c.end], payload); }
    if e <= c.end - c.start {
      FirstContentReads(src, payload, c.start, c.end, v);
    } else if Reads(src, OffsetSpan(v.span, c.start)) {
      JsonPlacement.RootIsPlaced(src, payload, c.start, e);
      SpelledAcross(src, pos, contents, boundaries, trailers, e);
    }
  }

  /** No root reaches across the frame. */
  lemma SpelledAcross(src: seq<byte>, pos: nat, contents: seq<Range>, boundaries: seq<Range>, trailers: seq<Range>,
                      e: nat)
    requires Layout(src, pos, contents, boundaries, trailers) && LineBreaksAfter(src, contents) && contents != []
    requires forall k :: 0 <= k < |contents| ==> contents[k].start <= contents[k].end <= |src|
    requires contents[0].end - contents[0].start < e <= |Concatenated(src, contents)| && contents[0].start + e <= |src|
    requires src[contents[0].start..contents[0].start + e] == Concatenated(src, contents)[..e]
    ensures P.Parse(Concatenated(src, contents)).Some? && !P.Parse(Concatenated(src, contents)).value.String? ==>
      |P.Parse(Concatenated(src, contents)).value.span.data| != e
  {
    hide Layout, FrameByte, P.Parse, Concatenated, NewSpan;
    var payload, c := Concatenated(src, contents), contents[0];
    if P.Parse(payload).Some? && !P.Parse(payload).value.String? && |P.Parse(payload).value.span.data| == e {
      RootSpan(payload);
      var q := c.end - c.start;
      assert src[c.end] == src[c.start..c.start + e][q] == payload[..e][q] == payload[q];
      assert LineBreakAt(src, c.end);
      if P.Parse(payload).value.Container() {
        ContainerCloses(payload);
        AgreementIsFrame(src, pos, contents, boundaries, trailers, e, e - 1);
        BracketsAreNoFrame();
      }
    }
  }

  /** A span of one range, moved, reads exactly when the source holds its data there. */
  lemma OneRunReads(src: seq<byte>, span: Span, n: nat)
    requires |span.indices| == 1
    ensures var lo, hi := span.indices[0].start + n, span.indices[0].end + n;
      Reads(src, OffsetSpan(span, n)) <==> hi <= |src| && src[lo..hi] == span.data
  {
    hide FromRange, ShiftRight, IndexRanges, InBounds;
    var r := span.indices[0];
    OneRun(span.indices);
    ShiftFromRange(r.start, r.end, n);
    JsonPlacement.OneRangeInBounds(r.start + n, r.end + n, |src|);
    if r.end + n <= |src| { IndexOneRange(src, r.start + n, r.end + n); }
  }

  lemma OneRun(indices: RangeSet)
    requires |indices| == 1
    ensures indices[0].start < indices[0].end && indices == FromRange(indices[0].start, indices[0].end)
  {
  }

  /**
   A string is placed right under the same condition, as long as it begins in the first content and holds no
   carriage return, which a string in a JSON text should not.
   */
  lemma ChunkedStringIsPlacedIff(src: seq<byte>, pos: nat, contents: seq<Range>, boundaries: seq<Range>,
                                 trailers: seq<Range>)
    requires Layout(src, pos, contents, boundaries, trailers) && LineBreaksAfter(src, contents) && contents != []
    requires forall k :: 0 <= k < |contents| ==> contents[k].start <= contents[k].end <= |src|
    requires P.Parse(Concatenated(src, contents)).Some? && P.Parse(Concatenated(src, contents)).value.String?
    requires var span := P.Parse(Concatenated(src, contents)).value.span;
      && span.indices != [] && span.indices[0].start < contents[0].end - contents[0].start
      && CR !in span.data
    ensures var v := P.Parse(Concatenated(src, contents)).value;
      var c := contents[0];
      Faithful(src, Offset(v, c.start)) <==> v.span.indices[0].end <= c.end - c.start
  {
    hide Layout, LineBreaksAfter, Faithful, Offset, P.Parse, Reads, Concatenated, OffsetSpan;
    var payload, c := Concatenated(src, contents), contents[0];
    var v := P.Parse(payload).value;
    FirstContent(src, pos, contents, boundaries, trailers);
    JsonPlacement.PlacedIffRootIs(src, payload, c.start);
    StringRun(payload);
    BreakInside(src, contents);
    RunUpToBreak(src, payload, v.span, c.start, c.end);
  }

  /** A run that holds no carriage return does not reach over one. */
  lemma RunUpToBreak(src: seq<byte>, payload: seq<byte>, span: Span, lo: nat, hi: nat)
    requires lo <= hi < |src| && src[hi] == CR && src[lo..hi] <= payload
    requires |span.indices| == 1 && span.indices[0].start < hi - lo
    requires span.indices[0].end <= |payload|
    requires span.data == payload[span.indices[0].start..span.indices[0].end] && CR !in span.data
    ensures Reads(src, OffsetSpan(span, lo)) <==> span.indices[0].end <= hi - lo
  {
    hide Reads, OffsetSpan;
    var r := span.indices[0];
    OneRunReads(src, span, lo);
    if r.end <= hi - lo {
      SliceInside(src, payload, lo, hi, r.start, r.end);
    } else if r.end + lo <= |src| {
      assert src[r.start + lo..r.end + lo][hi - lo - r.start] == CR;
    }
  }

  lemma SliceInside(src: seq<byte>, payload: seq<byte>, lo: nat, hi: nat, i: nat, j: nat)
    requires lo <= hi <= |src| && src[lo..hi] <= payload && i <= j <= hi - lo
    ensures src[i + lo..j + lo] == payload[i..j]
  {
    forall k | i <= k < j ensures src[k + lo] == payload[k] {
      assert src[lo..hi][k] == payload[k];
    }
  }

  lemma BreakInside(src: seq<byte>, contents: seq<Range>)
    requires LineBreaksAfter(src, contents) && contents != []
    ensures contents[0].end < |src| && src[contents[0].end] == CR
  {
    assert LineBreakAt(src, contents[0].end);
  }

  lemma StringRun(part: seq<byte>)
    requires P.Parse(part).Some? && P.Parse(part).value.String? && P.Parse(part).value.span.indices != []
    ensures var span := P.Parse(part).value.span;
      && |span.indices| == 1 && span.indices[0].end <= |part|
      && span.data == part[span.indices[0].start..span.indices[0].end]
  {
    hide P.Parse, IndexRanges, FromRange;
    var span := P.Parse(part).value.span;
    JsonNesting.ParsedTreeNested(part);
    OneRun(span.indices);
    JsonPlacement.OneRangeInBounds(span.indices[0].start, span.indices[0].end, |part|);
    IndexOneRange(part, span.indices[0].start, span.indices[0].end);
  }

  /** The payload begins with the first content. */
  lemma FirstContent(src: seq<byte>, pos: nat, contents: seq<Range>, boundaries: seq<Range>, trailers: seq<Range>)
    requires Layout(src, pos, contents, boundaries, trailers) && contents != []
    requires forall k :: 0 <= k < |contents| ==> contents[k].start <= contents[k].end <= |src|
    ensures contents[0].start < contents[0].end
    ensures src[contents[0].start..contents[0].end] <= Concatenated(src, contents)
  {
    hide SizeLine, TrailersAt;
    assert ChunkAt(src, contents, boundaries, 0);
  }

  // ----- Encodings

  /** An encoding has its line breaks after the contents. */
  lemma {:induction false} EncodingHasLineBreaks(src: seq<byte>, pos: nat, chunks: seq<Chunk>, last: seq<byte>,
                                                 trailers: seq<byte>)
    requires Holds(src, pos, Encode(chunks, last, trailers))
    ensures LineBreaksAfter(src, ContentsAt(pos, chunks))
    decreases |chunks|
  {
    hide Holds, Tail, Encode, LineBreakAt;
    if chunks != [] {
      var start := pos + |chunks[0].sizeLine| + 2;
      EncodingCons(chunks, last, trailers);
      ChunkHolds(src, pos, chunks[0], Encode(chunks[1..], last, trailers));
      HoldsLineBreak(src, start + |chunks[0].data|);
      EncodingHasLineBreaks(src, start + |chunks[0].data| + 2, chunks[1..], last, trailers);
    }
  }

  lemma EncodingCons(chunks: seq<Chunk>, last: seq<byte>, trailers: seq<byte>)
    requires chunks != []
    ensures Encode(chunks, last, trailers) ==
      chunks[0].sizeLine + (LINE_BREAK + (chunks[0].data + (LINE_BREAK + Encode(chunks[1..], last, trailers))))
  {
    hide Tail;
  }

  /**
   For every chunked encoding of a JSON text whose root is no string: all of its nodes point at their data in
   the message if and only if the root's text fits the first chunk; for an object or an array, if and only if
   the first chunk parses on its own.
   */
  lemma EncodedRootIsPlacedIff(src: seq<byte>, pos: nat, chunks: seq<Chunk>, last: seq<byte>, trailers: seq<byte>)
    requires |src| <= ISIZE_MAX && chunks != [] && Holds(src, pos, Encode(chunks, last, trailers))
    requires (forall k :: 0 <= k < |chunks| ==> Legal(chunks[k]))
    requires FromStrRadix(last, 16) == Some(0) && LegalTrailers(trailers)
    requires P.Parse(Payload(chunks)).Some? && !P.Parse(Payload(chunks)).value.String?
    ensures var v := P.Parse(Payload(chunks)).value;
      var placed := Faithful(src, Offset(v, pos + |chunks[0].sizeLine| + 2));
      && (placed <==> |v.span.data| <= |chunks[0].data|)
      && (v.Container() ==> (placed <==> P.Parse(chunks[0].data).Some?))
  {
    hide Holds, Encode, Legal, LegalTrailers, FromStrRadix, ScanFrom, Layout, Faithful, Offset, P.Parse, Concatenated,
         Payload, LineBreaksAfter, TrailersOf;
    EncodingIsScanned(src, pos, chunks, last, trailers);
    ScannedIsLayout(src, pos);
    EncodingHasLineBreaks(src, pos, chunks, last, trailers);
    PayloadComesBack(src, pos, chunks, last, trailers);
    var scan := ScanFrom(src, pos);
    ChunkedRootIsPlacedIff(src, pos, scan.contents, scan.boundaries, scan.trailers);
    EncodingCons(chunks, last, trailers);
    ChunkHolds(src, pos, chunks[0], Encode(chunks[1..], last, trailers));
    HoldsIsSlice(src, pos + |chunks[0].sizeLine| + 2, chunks[0].data);
  }
}
