/** Scanning a chunked body again after parts of it have been masked. */
module ChunkMasking {
  import opened RangeSets
  import opened Wire
  import opened Numerals
  import opened ChunkedBody
  import opened ChunkedLaws

  /** Where a scanned message ends as far as a response's span goes: with trailers, before the last line break. */
  function SpanEnd(boundaries: seq<Range>, trailers: seq<Range>): nat
    requires boundaries != []
  {
    if trailers == [] then LastEnd(boundaries) + 2 else trailers[|trailers| - 1].end + 2
  }

  /** Every byte between the contents is as it was. */
  ghost predicate FrameKept(src: seq<byte>, m: seq<byte>, pos: nat, end: nat, contents: seq<Range>)
    requires |m| == |src|
  {
    forall p :: pos <= p < end && p < |src| && p !in Indices(contents) ==> m[p] == src[p]
  }

  /** A scan starts with its first boundary, and goes on behind the first content. */
  lemma ScanStarts(src: seq<byte>, pos: nat)
    requires |src| <= ISIZE_MAX && ScanFrom(src, pos).Scanned?
    ensures var scan := ScanFrom(src, pos);
      && |scan.boundaries| == |scan.contents| + 1
      && scan.boundaries[0].start == pos
      && if scan.contents == [] then
           && SizeLine(src, scan.boundaries[0], 0)
           && TrailersAt(src, scan.boundaries[0].end, scan.trailers)
         else
           var b, c := scan.boundaries[0], scan.contents[0];
           && c.start == b.end && c.start < c.end
           && SizeLine(src, b, c.end - c.start)
           && ScanFrom(src, c.end + 2) == Scanned(scan.contents[1..], scan.boundaries[1..], scan.trailers)
  {
    hide ScanFrom, Layout, SizeLine, TrailersAt;
    var scan := ScanFrom(src, pos);
    ScannedIsLayout(src, pos);
    LayoutStarts(src, pos, scan.contents, scan.boundaries, scan.trailers);
    var b := scan.boundaries[0];
    if scan.contents == [] {
      LayoutEnd(src, b, scan.trailers);
    } else {
      var c := scan.contents[0];
      assert scan.contents == [c] + scan.contents[1..] && scan.boundaries == [b] + scan.boundaries[1..];
      LayoutCons(src, b, c, scan.contents[1..], scan.boundaries[1..], scan.trailers);
      LayoutIsScanned(src, c.end + 2, scan.contents[1..], scan.boundaries[1..], scan.trailers);
    }
  }

  lemma SizeLineKept(src: seq<byte>, m: seq<byte>, b: Range, size: nat)
    requires |m| == |src| && SizeLine(src, b, size) && forall p :: b.start <= p < b.end ==> m[p] == src[p]
    ensures SizeLine(m, b, size)
  {
    assert m[b.start..b.end - 2] == src[b.start..b.end - 2];
  }

  /** Nothing is wanting behind the span: there are no trailers, or the line break that ends them is there. */
  ghost predicate EndKept(src: seq<byte>, m: seq<byte>, end: nat, trailers: seq<Range>)
    requires |m| == |src|
  {
    trailers == [] || (end + 2 <= |src| && m[end] == src[end] && m[end + 1] == src[end + 1])
  }

  /** What the trailers of the masked source may be: the same, or they end further on, or nowhere. */
  ghost predicate SameUpToTrailers(after: Scan, scan: Scan)
    requires scan.Scanned? && scan.boundaries != []
  {
    after.MissingTrailerEnd? ||
    (after.Scanned? && after.contents == scan.contents && after.boundaries == scan.boundaries
     && (after == scan || SpanEnd(after.boundaries, after.trailers) > SpanEnd(scan.boundaries, scan.trailers)))
  }

  /** The last step of a scan, after masking. */
  lemma TailAfterMasking(src: seq<byte>, m: seq<byte>, b: Range, trailers: seq<Range>)
    requires |m| == |src| && b.end <= |src| && TrailersAt(src, b.end, trailers)
    requires forall p :: b.end <= p < SpanEnd([b], trailers) ==> p < |src| && m[p] == src[p]
    ensures ScanTrailers(m, b) == Scanned([], [b], trailers) <==> EndKept(src, m, SpanEnd([b], trailers), trailers)
    ensures SameUpToTrailers(ScanTrailers(m, b), Scanned([], [b], trailers))
  {
    hide TrailerEnd;
    if trailers != [] {
      var e := trailers[0].end;
      FirstEmptyLine(src, b.end, e);
      assert !LineBreakAt(m, b.end);
      forall k | b.end <= k < e ensures !EmptyLineAt(m, k) {
        assert !EmptyLineAt(src, k);
      }
      if EndKept(src, m, e + 2, trailers) {
        assert EmptyLineAt(m, e);
        TrailerEndIs(m, b.end, e);
      } else {
        TrailerEndLater(m, b.end, e);
      }
    }
  }

  lemma FirstEmptyLine(src: seq<byte>, pos: nat, e: nat)
    requires pos <= |src| && TrailerEnd(src, pos) == Some(e)
    ensures pos <= e && EmptyLineAt(src, e) && forall k :: pos <= k < e ==> !EmptyLineAt(src, k)
  {
  }

  lemma TrailerEndLater(m: seq<byte>, pos: nat, e: nat)
    requires pos <= |m| && forall k :: pos <= k <= e ==> !EmptyLineAt(m, k)
    ensures TrailerEnd(m, pos).Some? ==> TrailerEnd(m, pos).value > e
  {
  }

  /**
   Masking contents does not disturb a scan, as long as everything else up to the end of the response's span
   is kept and the line break behind the trailers, which that span lacks, is kept too: then, and only then,
   the scan is the same. Otherwise it fails for want of the trailers' end or finds one further on.
   */
  lemma {:induction false} ScanAfterMasking(src: seq<byte>, m: seq<byte>, pos: nat)
    requires |m| == |src| <= ISIZE_MAX && ScanFrom(src, pos).Scanned?
    requires ScanFrom(src, pos).boundaries != []
    requires var scan := ScanFrom(src, pos);
      FrameKept(src, m, pos, SpanEnd(scan.boundaries, scan.trailers), scan.contents)
    ensures var scan := ScanFrom(src, pos);
      && (ScanFrom(m, pos) == scan <==> EndKept(src, m, SpanEnd(scan.boundaries, scan.trailers), scan.trailers))
      && SameUpToTrailers(ScanFrom(m, pos), scan)
    decreases |src| - pos
  {
    hide ScanFrom, SizeLine, FromStrRadix, TrailerEnd, ScanTrailers, Bounds;
    var scan := ScanFrom(src, pos);
    var end := SpanEnd(scan.boundaries, scan.trailers);
    var b := scan.boundaries[0];
    ScanStarts(src, pos);
    ScanBounds(src, pos);
    BoundsInside(src, pos, scan.contents, scan.boundaries);
    if scan.contents == [] {
      assert scan.boundaries == [b];
      SizeLineInside(src, b, 0);
      SizeLineKept(src, m, b, 0);
      LastStep(m, b);
      TailInside(src, b, scan.trailers);
      TailAfterMasking(src, m, b, scan.trailers);
    } else {
      var c := scan.contents[0];
      var next := ScanFrom(src, c.end + 2);
      assert scan.contents == [c] + scan.contents[1..] && scan.boundaries == [b] + scan.boundaries[1..];
      SizeLineInside(src, b, c.end - c.start);
      ContentsAfter(src, b, c, next.contents, next.boundaries);
      SizeLineKept(src, m, b, c.end - c.start);
      ScanAfterMasking(src, m, c.end + 2);
      ChunkStep(m, b, c);
      PrefixedSame(b, c, ScanFrom(m, c.end + 2), next);
    }
  }

  /** The span of a body ends inside the source. */
  lemma TailInside(src: seq<byte>, b: Range, trailers: seq<Range>)
    requires b.end <= |src| && TrailersAt(src, b.end, trailers)
    ensures b.end <= SpanEnd([b], trailers) <= |src|
  {
  }

  lemma PrefixedSame(b: Range, c: Range, after: Scan, next: Scan)
    requires next.Scanned? && next.boundaries != [] && SameUpToTrailers(after, next)
    ensures Prefixed(b, c, after) == Prefixed(b, c, next) <==> after == next
    ensures SameUpToTrailers(Prefixed(b, c, after), Prefixed(b, c, next))
  {
    if after.Scanned? {
      assert ([c] + after.contents)[1..] == after.contents && ([c] + next.contents)[1..] == next.contents;
      assert ([b] + after.boundaries)[1..] == after.boundaries && ([b] + next.boundaries)[1..] == next.boundaries;
    }
  }

  lemma SizeLineInside(src: seq<byte>, b: Range, size: nat)
    requires SizeLine(src, b, size)
    ensures b.start < b.end <= |src|
  {
    hide FromStrRadix;
  }

  lemma BoundsInside(src: seq<byte>, pos: nat, contents: seq<Range>, boundaries: seq<Range>)
    requires Bounds(src, pos, contents, boundaries)
    ensures boundaries != [] && pos < LastEnd(boundaries) <= |src|
    ensures Indices(contents) !! Indices(boundaries)
  {
  }

  /** The first boundary holds no content, and behind the first content only later contents lie. */
  lemma ContentsAfter(src: seq<byte>, b: Range, c: Range, contents: seq<Range>, boundaries: seq<Range>)
    requires b.start < b.end == c.start < c.end
    requires var scan := ScanFrom(src, c.end + 2);
      scan.Scanned? && scan.contents == contents && scan.boundaries == boundaries
    ensures boundaries != [] && c.end + 2 < LastEnd(boundaries) <= |src|
    ensures LastEnd([b] + boundaries) == LastEnd(boundaries)
    ensures forall p :: p in RangeIndices(b) ==> p !in Indices([c] + contents)
    ensures forall p :: c.end + 2 <= p && p !in Indices(contents) ==> p !in Indices([c] + contents)
  {
    hide ScanFrom;
    ScanBounds(src, c.end + 2);
    assert ([c] + contents)[1..] == contents;
  }
}
