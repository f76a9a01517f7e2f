/** Exactly what the chunk scanner accepts, and that it reads back every chunked encoding. */
module ChunkedLaws {
  import opened RangeSets
  import opened Wire
  import opened Numerals
  import opened ChunkedBody
  import JsonTree

  /** No byte buffer is longer than this. */
  const ISIZE_MAX: nat := 0x7FFF_FFFF_FFFF_FFFF

  /** What separates the lines of a message. */
  lemma LineBreakText(src: seq<byte>, i: nat)
    ensures LineBreakAt(src, i) <==> i + 2 <= |src| && Spelled(src[i..i + 2], "\r\n")
  {
    if i + 2 <= |src| { assert src[i..i + 2][0] == src[i] && src[i..i + 2][1] == src[i + 1]; }
  }

  // ----- Everything the scanner accepts

  /** A size line with its line break, and the size it states. */
  ghost predicate SizeLine(src: seq<byte>, b: Range, size: nat) {
    && b.start + 2 <= b.end <= |src|
    && LineBreakAt(src, b.end - 2)
    && FromStrRadix(src[b.start..b.end - 2], 16) == Some(size)
  }

  ghost predicate TrailersAt(src: seq<byte>, pos: nat, trailers: seq<Range>) {
    && pos <= |src|
    && if LineBreakAt(src, pos) then trailers == []
       else TrailerEnd(src, pos).Some? && trailers == [Range(pos, TrailerEnd(src, pos).value)]
  }

  /** Content `k` is as long as the boundary before it says, and two bytes lie between it and the next boundary. */
  ghost predicate ChunkAt(src: seq<byte>, contents: seq<Range>, boundaries: seq<Range>, k: nat)
    requires k < |contents| < |boundaries|
  {
    && contents[k].start == boundaries[k].end
    && contents[k].start < contents[k].end
    && contents[k].end + 2 == boundaries[k + 1].start
    && SizeLine(src, boundaries[k], contents[k].end - contents[k].start)
  }

  /** Boundaries and contents take turns from `pos` on. The last boundary states a size of zero. */
  ghost predicate Layout(src: seq<byte>, pos: nat, contents: seq<Range>, boundaries: seq<Range>, trailers: seq<Range>) {
    && |boundaries| == |contents| + 1
    && boundaries[0].start == pos
    && (forall k :: 0 <= k < |contents| ==> ChunkAt(src, contents, boundaries, k))
    && SizeLine(src, boundaries[|contents|], 0)
    && TrailersAt(src, boundaries[|contents|].end, trailers)
  }

  /** A size line holds no line break of its own, so the scanner finds its end. */
  lemma {:induction false} LineEndIs(src: seq<byte>, i: nat, e: nat)
    requires i <= e && LineBreakAt(src, e)
    requires forall k :: i <= k < e ==> src[k] != CR
    ensures LineEnd(src, i) == e
    decreases e - i
  {
    if i < e { LineEndIs(src, i + 1, e); }
  }

  lemma SizeLineEnd(src: seq<byte>, b: Range, size: nat)
    requires SizeLine(src, b, size)
    ensures LineEnd(src, b.start) == b.end - 2
  {
    hide FromStrRadix, LineEnd;
    var line := src[b.start..b.end - 2];
    forall k | b.start <= k < b.end - 2 ensures src[k] != CR {
      OnlyDigits(line, 16, k - b.start);
    }
    LineEndIs(src, b.start, b.end - 2);
  }

  /** A layout with one more chunk in front. */
  lemma LayoutCons(src: seq<byte>, b: Range, c: Range, contents: seq<Range>, boundaries: seq<Range>,
                   trailers: seq<Range>)
    requires boundaries != []
    ensures Layout(src, b.start, [c] + contents, [b] + boundaries, trailers) <==>
      && c.start == b.end
      && c.start < c.end
      && SizeLine(src, b, c.end - c.start)
      && Layout(src, c.end + 2, contents, boundaries, trailers)
  {
    hide SizeLine, TrailersAt;
    var cs, bs := [c] + contents, [b] + boundaries;
    if |boundaries| == |contents| + 1 {
      assert bs[|cs|] == boundaries[|contents|];
      forall k: nat | k < |contents| ensures ChunkAt(src, cs, bs, k + 1) == ChunkAt(src, contents, boundaries, k) {
        ChunkAtCons(src, b, c, contents, boundaries, k);
      }
      if Layout(src, b.start, cs, bs, trailers) {
        assert ChunkAt(src, cs, bs, 0);
        forall k: nat | k < |contents| ensures ChunkAt(src, contents, boundaries, k) {
          assert ChunkAt(src, cs, bs, k + 1);
        }
      } else if c.start == b.end && c.start < c.end && SizeLine(src, b, c.end - c.start)
             && Layout(src, c.end + 2, contents, boundaries, trailers) {
        forall k: nat | k < |cs| ensures ChunkAt(src, cs, bs, k) {
          if k > 0 { assert ChunkAt(src, contents, boundaries, k - 1); }
        }
      }
    }
  }

  lemma ChunkAtCons(src: seq<byte>, b: Range, c: Range, contents: seq<Range>, boundaries: seq<Range>, k: nat)
    requires k < |contents| < |boundaries|
    ensures ChunkAt(src, [c] + contents, [b] + boundaries, k + 1) == ChunkAt(src, contents, boundaries, k)
  {
    hide SizeLine;
  }

  lemma LayoutEnd(src: seq<byte>, b: Range, trailers: seq<Range>)
    ensures Layout(src, b.start, [], [b], trailers) <==> SizeLine(src, b, 0) && TrailersAt(src, b.end, trailers)
  {
    hide SizeLine, TrailersAt;
  }

  /** The scanner's last step, and the ones before it, in terms of size lines. */
  lemma LastStep(src: seq<byte>, b: Range)
    requires SizeLine(src, b, 0)
    ensures ScanFrom(src, b.start) == ScanTrailers(src, b)
  {
    hide FromStrRadix, ScanTrailers, LineEnd;
    SizeLineEnd(src, b, 0);
  }

  lemma ChunkStep(src: seq<byte>, b: Range, c: Range)
    requires |src| <= ISIZE_MAX && c.start == b.end && c.start < c.end <= |src| + 2
    requires SizeLine(src, b, c.end - c.start)
    ensures ScanFrom(src, b.start) == Prefixed(b, c, ScanFrom(src, c.end + 2))
  {
    hide FromStrRadix, ScanTrailers, LineEnd, Prefixed;
    SizeLineEnd(src, b, c.end - c.start);
  }

  lemma TrailersScan(src: seq<byte>, b: Range, trailers: seq<Range>)
    ensures ScanTrailers(src, b) == Scanned([], [b], trailers) <==> TrailersAt(src, b.end, trailers)
  {
    hide LineBreakAt, TrailerEnd;
  }

  lemma {:induction false} ScannedIsLayout(src: seq<byte>, pos: nat)
    requires ScanFrom(src, pos).Scanned?
    ensures var scan := ScanFrom(src, pos); Layout(src, pos, scan.contents, scan.boundaries, scan.trailers)
    decreases |src| - pos
  {
    hide FromStrRadix, Layout, TrailersAt, ScanTrailers, LineEnd;
    var line := LineEnd(src, pos);
    var size := FromStrRadix(src[pos..line], 16).value;
    var b := Range(pos, line + 2);
    if size == 0 {
      LastBoundary(src, b);
      TrailersScan(src, b, ScanFrom(src, pos).trailers);
      LayoutEnd(src, b, ScanFrom(src, pos).trailers);
    } else {
      var next := ScanFrom(src, line + 2 + size + 2);
      ScannedIsLayout(src, line + 2 + size + 2);
      LayoutHasBoundary(src, line + 2 + size + 2, next);
      LayoutCons(src, b, Range(line + 2, line + 2 + size), next.contents, next.boundaries, next.trailers);
    }
  }

  lemma LastBoundary(src: seq<byte>, b: Range)
    ensures ScanTrailers(src, b).Scanned? ==>
      b.end <= |src| && ScanTrailers(src, b).contents == [] && ScanTrailers(src, b).boundaries == [b]
  {
    hide LineBreakAt, TrailerEnd;
  }

  /** A layout ends inside the source. */
  lemma LayoutHasBoundary(src: seq<byte>, pos: nat, scan: Scan)
    requires scan.Scanned? && Layout(src, pos, scan.contents, scan.boundaries, scan.trailers)
    ensures scan.boundaries != [] && pos <= |src|
  {
    hide TrailersAt, FromStrRadix;
    if scan.contents != [] { assert ChunkAt(src, scan.contents, scan.boundaries, 0); }
  }

  lemma {:induction false} LayoutIsScanned(src: seq<byte>, pos: nat, contents: seq<Range>, boundaries: seq<Range>,
                                           trailers: seq<Range>)
    requires |src| <= ISIZE_MAX && Layout(src, pos, contents, boundaries, trailers)
    ensures ScanFrom(src, pos) == Scanned(contents, boundaries, trailers)
    decreases |contents|
  {
    hide Layout, SizeLine, TrailersAt, ScanFrom, ScanTrailers;
    LayoutHasBoundary(src, pos, Scanned(contents, boundaries, trailers));
    LayoutStarts(src, pos, contents, boundaries, trailers);
    var b := boundaries[0];
    if contents == [] {
      LayoutEnd(src, b, trailers);
      LastStep(src, b);
      TrailersScan(src, b, trailers);
    } else {
      var c := contents[0];
      assert contents == [c] + contents[1..] && boundaries == [b] + boundaries[1..];
      LayoutCons(src, b, c, contents[1..], boundaries[1..], trailers);
      LayoutHasBoundary(src, c.end + 2, Scanned(contents[1..], boundaries[1..], trailers));
      LayoutIsScanned(src, c.end + 2, contents[1..], boundaries[1..], trailers);
      ChunkStep(src, b, c);
    }
  }

  lemma LayoutStarts(src: seq<byte>, pos: nat, contents: seq<Range>, boundaries: seq<Range>, trailers: seq<Range>)
    requires Layout(src, pos, contents, boundaries, trailers)
    ensures |boundaries| == |contents| + 1 && boundaries[0].start == pos
    ensures contents == [] ==> boundaries == [boundaries[0]]
  {
    hide SizeLine, TrailersAt;
  }

  /** The scanner accepts exactly the sources laid out as chunks, and returns exactly that layout. */
  lemma ScannerAcceptsLayouts(src: seq<byte>, pos: nat, contents: seq<Range>, boundaries: seq<Range>,
                              trailers: seq<Range>)
    requires |src| <= ISIZE_MAX
    ensures ScanFrom(src, pos) == Scanned(contents, boundaries, trailers)
       <==> Layout(src, pos, contents, boundaries, trailers)
  {
    if ScanFrom(src, pos).Scanned? { ScannedIsLayout(src, pos); }
    if Layout(src, pos, contents, boundaries, trailers) { LayoutIsScanned(src, pos, contents, boundaries, trailers); }
  }

  // ----- Everything the scanner refuses

  /** One chunk at `pos`: its size line, and its content up to the line break before `next`, which may lie outside. */
  ghost predicate OneChunk(src: seq<byte>, pos: nat, b: Range, next: nat) {
    b.start == pos && b.end + 2 < next && SizeLine(src, b, next - 2 - b.end)
  }

  /** From `pos` on, chunks with these size lines stand one behind the other up to `next`. */
  ghost predicate ChunksUpTo(src: seq<byte>, pos: nat, lines: seq<Range>, next: nat)
    decreases |lines|
  {
    if lines == [] then next == pos
    else exists middle: nat :: OneChunk(src, pos, lines[0], middle) && ChunksUpTo(src, middle, lines[1..], next)
  }

  /** Why the scanner stops at a position where the next size line should be. */
  ghost predicate StopsAt(src: seq<byte>, pos: nat, scan: Scan) {
    var size := if pos <= |src| then FromStrRadix(src[pos..LineEnd(src, pos)], 16) else None;
    match scan
    case BadSize => pos <= |src| && size.None?
    case MissingTrailerEnd =>
      && size == Some(0) && LineEnd(src, pos) < |src|
      && !LineBreakAt(src, LineEnd(src, pos) + 2)
      && forall k :: LineEnd(src, pos) + 2 <= k ==> !EmptyLineAt(src, k)
    case Panic =>
      || pos > |src|
      || (size.Some? && (LineEnd(src, pos) == |src| || LineEnd(src, pos) + 2 + size.value + 2 > USIZE_MAX))
    case Scanned(_, _, _) => false
  }

  ghost predicate StopsBehind(src: seq<byte>, pos: nat, lines: seq<Range>, scan: Scan) {
    exists next: nat :: ChunksUpTo(src, pos, lines, next) && StopsAt(src, next, scan)
  }

  /**
   The scanner fails exactly where chunks end and no further chunk or end can be read: on a line that is no
   size, for want of the empty line behind trailers, or with a panic, when a content or a line reaches past the
   end of the source or the cursor past 64 bits.
   */
  lemma ScannerRefuses(src: seq<byte>, pos: nat, scan: Scan)
    requires |src| <= ISIZE_MAX && !scan.Scanned?
    ensures ScanFrom(src, pos) == scan <==> exists lines :: StopsBehind(src, pos, lines, scan)
  {
    hide ScanFrom, StopsAt, ChunksUpTo;
    if ScanFrom(src, pos) == scan {
      var lines, next := WhereItStops(src, pos);
      assert StopsBehind(src, pos, lines, scan);
    }
    if lines :| StopsBehind(src, pos, lines, scan) {
      var next: nat :| ChunksUpTo(src, pos, lines, next) && StopsAt(src, next, scan);
      StopsThere(src, pos, lines, next, scan);
    }
  }

  lemma {:induction false} WhereItStops(src: seq<byte>, pos: nat) returns (lines: seq<Range>, next: nat)
    requires |src| <= ISIZE_MAX && !ScanFrom(src, pos).Scanned?
    ensures ChunksUpTo(src, pos, lines, next) && StopsAt(src, next, ScanFrom(src, pos))
    decreases |src| - pos
  {
    hide FromStrRadix, LineEnd, TrailerEnd;
    lines, next := [], pos;
    if pos <= |src| {
      var line := LineEnd(src, pos);
      var size := FromStrRadix(src[pos..line], 16);
      if size.Some? && size.value > 0 && line < |src| && line + 2 + size.value + 2 <= USIZE_MAX {
        var b, middle := Range(pos, line + 2), line + 2 + size.value + 2;
        var rest;
        rest, next := WhereItStops(src, middle);
        lines := [b] + rest;
        assert lines[1..] == rest && OneChunk(src, pos, b, middle);
      }
    }
  }

  lemma StopsHere(src: seq<byte>, pos: nat, scan: Scan)
    requires |src| <= ISIZE_MAX && StopsAt(src, pos, scan)
    ensures ScanFrom(src, pos) == scan
  {
    hide FromStrRadix, LineEnd, TrailerEnd;
  }

  /** A chunk with a failing scan behind it fails the same way. */
  lemma FailsBehind(src: seq<byte>, pos: nat, b: Range, next: nat, scan: Scan)
    requires OneChunk(src, pos, b, next) && !scan.Scanned? && ScanFrom(src, next) == scan
    requires next > USIZE_MAX ==> scan.Panic?
    ensures ScanFrom(src, pos) == scan
  {
    hide FromStrRadix, LineEnd, ScanTrailers;
    SizeLineEnd(src, b, next - 2 - b.end);
  }

  lemma PastTheEnd(src: seq<byte>, pos: nat)
    ensures pos > |src| ==> ScanFrom(src, pos) == Panic
  {
  }

  lemma {:induction false} StopsThere(src: seq<byte>, pos: nat, lines: seq<Range>, next: nat, scan: Scan)
    requires |src| <= ISIZE_MAX && ChunksUpTo(src, pos, lines, next) && StopsAt(src, next, scan)
    ensures ScanFrom(src, pos) == scan
    decreases |lines|
  {
    hide StopsAt, ScanFrom, OneChunk;
    if lines == [] {
      StopsHere(src, pos, scan);
    } else {
      var middle: nat :| OneChunk(src, pos, lines[0], middle) && ChunksUpTo(src, middle, lines[1..], next);
      StopsThere(src, middle, lines[1..], next, scan);
      PastTheEnd(src, middle);
      NeverScanned(src, next, scan);
      FailsBehind(src, pos, lines[0], middle, scan);
    }
  }

  lemma NeverScanned(src: seq<byte>, pos: nat, scan: Scan)
    requires StopsAt(src, pos, scan)
    ensures !scan.Scanned?
  {
  }

  lemma {:induction false} SpacedIsCanonical(rs: seq<Range>)
    requires forall k :: 0 <= k < |rs| ==> rs[k].start < rs[k].end
    requires forall k :: 0 <= k < |rs| - 1 ==> rs[k].end < rs[k + 1].start
    ensures Canonical(rs) && FromRanges(rs) == rs
  {
    if rs != [] {
      SpacedIsCanonical(rs[1..]);
    }
    CanonicalUnique(FromRanges(rs), rs);
  }

  /** Nothing is lost or merged when the scanner's ranges become range sets. */
  lemma RangesStayApart(src: seq<byte>, pos: nat)
    requires ScanFrom(src, pos).Scanned?
    ensures var scan := ScanFrom(src, pos);
      && FromRanges(scan.contents) == scan.contents
      && FromRanges(scan.boundaries) == scan.boundaries
  {
    hide ScanFrom, SizeLine, TrailersAt;
    ScannedIsLayout(src, pos);
    var scan := ScanFrom(src, pos);
    var cs, bs := scan.contents, scan.boundaries;
    forall k: nat | k < |cs|
      ensures cs[k].start == bs[k].end && cs[k].start < cs[k].end && cs[k].end + 2 == bs[k + 1].start
      ensures SizeLine(src, bs[k], cs[k].end - cs[k].start)
    {
      assert ChunkAt(src, cs, bs, k);
    }
    forall k | 0 <= k < |scan.boundaries| ensures scan.boundaries[k].start < scan.boundaries[k].end {
      SizeLineNonEmpty(src, scan.boundaries[k],
                       if k < |scan.contents| then scan.contents[k].end - scan.contents[k].start else 0);
    }
    SpacedIsCanonical(scan.contents);
    SpacedIsCanonical(scan.boundaries);
  }

  lemma SizeLineNonEmpty(src: seq<byte>, b: Range, size: nat)
    requires SizeLine(src, b, size)
    ensures b.start + 3 <= b.end <= |src|
  {
  }

  // ----- Where the ranges lie

  function LastEnd(boundaries: seq<Range>): nat
    requires boundaries != []
  {
    boundaries[|boundaries| - 1].end
  }

  ghost predicate Bounds(src: seq<byte>, pos: nat, contents: seq<Range>, boundaries: seq<Range>) {
    && boundaries != []
    && pos < LastEnd(boundaries) <= |src|
    && JsonTree.Inside(Indices(contents), pos, LastEnd(boundaries))
    && JsonTree.Inside(Indices(boundaries), pos, LastEnd(boundaries))
    && Indices(contents) !! Indices(boundaries)
  }

  lemma {:induction false} ScanBounds(src: seq<byte>, pos: nat)
    requires ScanFrom(src, pos).Scanned?
    ensures Bounds(src, pos, ScanFrom(src, pos).contents, ScanFrom(src, pos).boundaries)
    ensures TrailersAt(src, LastEnd(ScanFrom(src, pos).boundaries), ScanFrom(src, pos).trailers)
    decreases |src| - pos
  {
    hide FromStrRadix, Bounds, TrailersAt, ScanTrailers, LastEnd;
    var line := LineEnd(src, pos);
    var size := FromStrRadix(src[pos..line], 16).value;
    var b := Range(pos, line + 2);
    if size == 0 {
      LastBoundary(src, b);
      TrailersScan(src, b, ScanFrom(src, pos).trailers);
      LastBounds(src, b);
    } else {
      var c := Range(line + 2, line + 2 + size);
      var next := ScanFrom(src, c.end + 2);
      ScanBounds(src, c.end + 2);
      BoundsCons(src, b, c, next.contents, next.boundaries);
    }
  }

  lemma LastBounds(src: seq<byte>, b: Range)
    requires b.start < b.end <= |src|
    ensures Bounds(src, b.start, [], [b]) && LastEnd([b]) == b.end
  {
    assert [b][1..] == [];
  }

  lemma BoundsCons(src: seq<byte>, b: Range, c: Range, contents: seq<Range>, boundaries: seq<Range>)
    requires b.start < b.end == c.start < c.end && Bounds(src, c.end + 2, contents, boundaries)
    ensures Bounds(src, b.start, [c] + contents, [b] + boundaries)
    ensures LastEnd([b] + boundaries) == LastEnd(boundaries)
  {
    assert ([c] + contents)[1..] == contents && ([b] + boundaries)[1..] == boundaries;
  }

  // ----- Encoding and scanning back

  const LINE_BREAK: seq<byte> := [CR, LF]

  /** A chunk with its size line, in whatever spelling the size has. */
  datatype Chunk = Chunk(sizeLine: seq<byte>, data: seq<byte>)

  predicate Legal(c: Chunk) { c.data != [] && FromStrRadix(c.sizeLine, 16) == Some(|c.data|) }

  /** The end of a body: an empty line, or trailers and an empty line. */
  function Tail(trailers: seq<byte>): seq<byte> {
    if trailers == [] then LINE_BREAK else trailers + (LINE_BREAK + LINE_BREAK)
  }

  /** Trailers do not start with a line break, and the first empty line is the one that ends them. */
  ghost predicate LegalTrailers(trailers: seq<byte>) {
    trailers != [] ==>
      !LineBreakAt(Tail(trailers), 0) && forall k :: 0 <= k < |trailers| ==> !EmptyLineAt(Tail(trailers), k)
  }

  /** The chunked encoding: chunks, a last chunk of size zero, trailers. */
  function Encode(chunks: seq<Chunk>, last: seq<byte>, trailers: seq<byte>): seq<byte> {
    if chunks == [] then last + (LINE_BREAK + Tail(trailers))
    else chunks[0].sizeLine + (LINE_BREAK + (chunks[0].data + (LINE_BREAK + Encode(chunks[1..], last, trailers))))
  }

  function Payload(chunks: seq<Chunk>): seq<byte> {
    if chunks == [] then [] else chunks[0].data + Payload(chunks[1..])
  }

  lemma HoldsLineBreak(src: seq<byte>, pos: nat)
    requires Holds(src, pos, LINE_BREAK)
    ensures LineBreakAt(src, pos)
  {
    assert src[pos..pos + 2][0] == CR && src[pos..pos + 2][1] == LF;
  }

  /** Where the contents of an encoding that starts at `pos` lie. */
  function ContentsAt(pos: nat, chunks: seq<Chunk>): seq<Range>
    decreases |chunks|
  {
    if chunks == [] then []
    else
      var start := pos + |chunks[0].sizeLine| + 2;
      [Range(start, start + |chunks[0].data|)] + ContentsAt(start + |chunks[0].data| + 2, chunks[1..])
  }

  /** Where its size lines lie. */
  function BoundariesAt(pos: nat, chunks: seq<Chunk>, last: seq<byte>): (b: seq<Range>)
    ensures |b| == |chunks| + 1
    decreases |chunks|
  {
    if chunks == [] then [Range(pos, pos + |last| + 2)]
    else
      var start := pos + |chunks[0].sizeLine| + 2;
      [Range(pos, start)] + BoundariesAt(start + |chunks[0].data| + 2, chunks[1..], last)
  }

  function TrailersOf(pos: nat, trailers: seq<byte>): seq<Range> {
    if trailers == [] then [] else [Range(pos, pos + |trailers|)]
  }

  lemma {:induction false} TrailerEndIs(src: seq<byte>, i: nat, e: nat)
    requires i <= e && EmptyLineAt(src, e)
    requires forall k :: i <= k < e ==> !EmptyLineAt(src, k)
    ensures TrailerEnd(src, i) == Some(e)
    decreases e - i
  {
    if i < e { TrailerEndIs(src, i + 1, e); }
  }

  lemma TailIsTrailers(src: seq<byte>, pos: nat, trailers: seq<byte>)
    requires Holds(src, pos, Tail(trailers)) && LegalTrailers(trailers)
    ensures TrailersAt(src, pos, TrailersOf(pos, trailers))
  {
    var tail := Tail(trailers);
    if trailers == [] {
      HoldsLineBreak(src, pos);
    } else {
      var e := pos + |trailers|;
      HoldsParts(src, pos, trailers, LINE_BREAK + LINE_BREAK);
      HoldsParts(src, e, LINE_BREAK, LINE_BREAK);
      HoldsLineBreak(src, e);
      HoldsLineBreak(src, e + 2);
      assert forall k :: 0 <= k < |tail| ==> tail[k] == src[pos..pos + |tail|][k] == src[pos + k];
      forall k | pos <= k < e ensures !EmptyLineAt(src, k) {
        assert !EmptyLineAt(tail, k - pos);
      }
      assert !LineBreakAt(tail, 0);
      TrailerEndIs(src, pos, e);
    }
  }

  lemma {:induction false} EncodingIsScanned(src: seq<byte>, pos: nat, chunks: seq<Chunk>, last: seq<byte>,
                                             trailers: seq<byte>)
    requires |src| <= ISIZE_MAX && Holds(src, pos, Encode(chunks, last, trailers))
    requires forall k :: 0 <= k < |chunks| ==> Legal(chunks[k])
    requires FromStrRadix(last, 16) == Some(0) && LegalTrailers(trailers)
    ensures var b := BoundariesAt(pos, chunks, last);
      ScanFrom(src, pos) == Scanned(ContentsAt(pos, chunks), b, TrailersOf(b[|chunks|].end, trailers))
    decreases |chunks|
  {
    hide FromStrRadix, LegalTrailers, ScanFrom, Holds, Legal, Tail, TrailersOf;
    if chunks == [] {
      LastIsScanned(src, pos, last, trailers);
    } else {
      ChunkIsScanned(src, pos, chunks[0], Encode(chunks[1..], last, trailers));
      EncodingIsScanned(src, pos + |chunks[0].sizeLine| + 2 + |chunks[0].data| + 2, chunks[1..], last, trailers);
    }
  }

  lemma LastIsScanned(src: seq<byte>, pos: nat, last: seq<byte>, trailers: seq<byte>)
    requires Holds(src, pos, last + (LINE_BREAK + Tail(trailers)))
    requires FromStrRadix(last, 16) == Some(0) && LegalTrailers(trailers)
    ensures var b := Range(pos, pos + |last| + 2);
      ScanFrom(src, pos) == Scanned([], [b], TrailersOf(b.end, trailers))
  {
    hide FromStrRadix, LegalTrailers, ScanFrom, ScanTrailers, Tail, TrailersOf, TrailersAt;
    var b := Range(pos, pos + |last| + 2);
    HoldsParts(src, pos, last, LINE_BREAK + Tail(trailers));
    HoldsParts(src, pos + |last|, LINE_BREAK, Tail(trailers));
    HoldsLineBreak(src, pos + |last|);
    TailIsTrailers(src, b.end, trailers);
    TrailersScan(src, b, TrailersOf(b.end, trailers));
    LastStep(src, b);
  }

  lemma ChunkHolds(src: seq<byte>, pos: nat, chunk: Chunk, rest: seq<byte>)
    requires Holds(src, pos, chunk.sizeLine + (LINE_BREAK + (chunk.data + (LINE_BREAK + rest))))
    ensures var start := pos + |chunk.sizeLine| + 2;
      && Holds(src, pos, chunk.sizeLine)
      && Holds(src, start - 2, LINE_BREAK)
      && Holds(src, start, chunk.data)
      && Holds(src, start + |chunk.data|, LINE_BREAK)
      && Holds(src, start + |chunk.data| + 2, rest)
  {
    hide Holds;
    var start := pos + |chunk.sizeLine| + 2;
    HoldsParts(src, pos, chunk.sizeLine, LINE_BREAK + (chunk.data + (LINE_BREAK + rest)));
    HoldsParts(src, start - 2, LINE_BREAK, chunk.data + (LINE_BREAK + rest));
    HoldsParts(src, start, chunk.data, LINE_BREAK + rest);
    HoldsParts(src, start + |chunk.data|, LINE_BREAK, rest);
  }

  lemma ChunkIsScanned(src: seq<byte>, pos: nat, chunk: Chunk, rest: seq<byte>)
    requires |src| <= ISIZE_MAX && Legal(chunk)
    requires Holds(src, pos, chunk.sizeLine + (LINE_BREAK + (chunk.data + (LINE_BREAK + rest))))
    ensures var start := pos + |chunk.sizeLine| + 2;
      && Holds(src, start, chunk.data)
      && Holds(src, start + |chunk.data| + 2, rest)
      && ScanFrom(src, pos) ==
         Prefixed(Range(pos, start), Range(start, start + |chunk.data|), ScanFrom(src, start + |chunk.data| + 2))
  {
    hide FromStrRadix, ScanFrom, LineBreakAt;
    var start := pos + |chunk.sizeLine| + 2;
    ChunkHolds(src, pos, chunk, rest);
    HoldsLineBreak(src, start - 2);
    ChunkStep(src, Range(pos, start), Range(start, start + |chunk.data|));
  }

  // ----- What was encoded comes back

  /** The bytes a list of ranges covers, in order. */
  function Concatenated(src: seq<byte>, ranges: seq<Range>): seq<byte>
    requires forall k :: 0 <= k < |ranges| ==> ranges[k].start <= ranges[k].end <= |src|
  {
    if ranges == [] then [] else src[ranges[0].start..ranges[0].end] + Concatenated(src, ranges[1..])
  }

  /** The lines of an encoding that are not payload. */
  function SizeLines(chunks: seq<Chunk>, last: seq<byte>): seq<byte> {
    if chunks == [] then last + LINE_BREAK else chunks[0].sizeLine + LINE_BREAK + SizeLines(chunks[1..], last)
  }

  lemma HoldsIsSlice(src: seq<byte>, pos: nat, bytes: seq<byte>)
    requires Holds(src, pos, bytes)
    ensures pos + |bytes| <= |src| && src[pos..pos + |bytes|] == bytes
  {
  }

  lemma NoPayload(src: seq<byte>)
    ensures Concatenated(src, []) == Payload([])
  {
  }

  lemma ConcatenatedCons(src: seq<byte>, r: Range, rest: seq<Range>)
    requires r.start <= r.end <= |src| && forall k :: 0 <= k < |rest| ==> rest[k].start <= rest[k].end <= |src|
    ensures Concatenated(src, [r] + rest) == src[r.start..r.end] + Concatenated(src, rest)
  {
    assert ([r] + rest)[1..] == rest;
  }

  lemma PayloadCons(chunks: seq<Chunk>)
    requires chunks != []
    ensures Payload(chunks) == chunks[0].data + Payload(chunks[1..])
  {
  }

  lemma {:induction false} PayloadComesBack(src: seq<byte>, pos: nat, chunks: seq<Chunk>, last: seq<byte>,
                                            trailers: seq<byte>)
    requires Holds(src, pos, Encode(chunks, last, trailers))
    ensures forall k :: 0 <= k < |ContentsAt(pos, chunks)| ==>
      ContentsAt(pos, chunks)[k].start <= ContentsAt(pos, chunks)[k].end <= |src|
    ensures Concatenated(src, ContentsAt(pos, chunks)) == Payload(chunks)
    decreases |chunks|
  {
    hide Holds, Tail, Payload, Concatenated;
    NoPayload(src);
    if chunks != [] {
      var start := pos + |chunks[0].sizeLine| + 2;
      ChunkHolds(src, pos, chunks[0], Encode(chunks[1..], last, trailers));
      HoldsIsSlice(src, start, chunks[0].data);
      PayloadComesBack(src, start + |chunks[0].data| + 2, chunks[1..], last, trailers);
      ConcatenatedCons(src, Range(start, start + |chunks[0].data|),
                       ContentsAt(start + |chunks[0].data| + 2, chunks[1..]));
      PayloadCons(chunks);
    }
  }

  lemma {:induction false} SizeLinesComeBack(src: seq<byte>, pos: nat, chunks: seq<Chunk>, last: seq<byte>,
                                             trailers: seq<byte>)
    requires Holds(src, pos, Encode(chunks, last, trailers))
    ensures var b := BoundariesAt(pos, chunks, last);
      && (forall k :: 0 <= k < |b| ==> b[k].start <= b[k].end <= |src|)
      && Concatenated(src, b) == SizeLines(chunks, last)
    decreases |chunks|
  {
    hide Holds, Tail, Concatenated;
    if chunks == [] {
      LastSizeLine(src, pos, last, trailers);
    } else {
      var start := pos + |chunks[0].sizeLine| + 2;
      ChunkHolds(src, pos, chunks[0], Encode(chunks[1..], last, trailers));
      TwoSlices(src, pos, chunks[0].sizeLine, LINE_BREAK);
      SizeLinesComeBack(src, start + |chunks[0].data| + 2, chunks[1..], last, trailers);
      OneMoreRange(src, Range(pos, start), BoundariesAt(start + |chunks[0].data| + 2, chunks[1..], last));
    }
  }

  lemma OneMoreRange(src: seq<byte>, r: Range, rest: seq<Range>)
    requires r.start <= r.end <= |src| && forall k :: 0 <= k < |rest| ==> rest[k].start <= rest[k].end <= |src|
    ensures Concatenated(src, [r] + rest) == src[r.start..r.end] + Concatenated(src, rest)
  {
  }

  lemma LastSizeLine(src: seq<byte>, pos: nat, last: seq<byte>, trailers: seq<byte>)
    requires Holds(src, pos, Encode([], last, trailers))
    ensures pos + |last| + 2 <= |src|
    ensures Concatenated(src, BoundariesAt(pos, [], last)) == SizeLines([], last)
  {
    hide Holds, Tail;
    HoldsParts(src, pos, last, LINE_BREAK + Tail(trailers));
    HoldsParts(src, pos + |last|, LINE_BREAK, Tail(trailers));
    TwoSlices(src, pos, last, LINE_BREAK);
    assert BoundariesAt(pos, [], last)[1..] == [];
  }

  lemma TwoSlices(src: seq<byte>, pos: nat, a: seq<byte>, b: seq<byte>)
    requires Holds(src, pos, a) && Holds(src, pos + |a|, b)
    ensures pos + |a| + |b| <= |src| && src[pos..pos + |a| + |b|] == a + b
  {
    assert src[pos..pos + |a| + |b|] == src[pos..pos + |a|] + src[pos + |a|..pos + |a| + |b|];
  }

  /** Reading a canonical list range by range is what `index_ranges` does. */
  lemma {:induction false} ConcatenatedIsIndexRanges(src: seq<byte>, ranges: RangeSet)
    requires InBounds(ranges, |src|)
    requires forall k :: 0 <= k < |ranges| ==> ranges[k].start <= ranges[k].end <= |src|
    ensures IndexRanges(src, ranges) == Concatenated(src, ranges)
  {
    if ranges != [] {
      InBoundsTail(ranges, |src|);
      ConcatenatedIsIndexRanges(src, ranges[1..]);
    }
  }

  lemma EncodeCons(chunks: seq<Chunk>, last: seq<byte>, trailers: seq<byte>)
    requires chunks != []
    ensures |Encode(chunks, last, trailers)|
       == |chunks[0].sizeLine| + 2 + |chunks[0].data| + 2 + |Encode(chunks[1..], last, trailers)|
  {
    hide Tail;
  }

  lemma {:induction false} LastBoundaryEnds(pos: nat, chunks: seq<Chunk>, last: seq<byte>, trailers: seq<byte>)
    ensures BoundariesAt(pos, chunks, last)[|chunks|].end + |Tail(trailers)| == pos + |Encode(chunks, last, trailers)|
    decreases |chunks|
  {
    hide Tail, Encode;
    if chunks == [] {
      EncodeEnd(last, trailers);
    } else {
      EncodeCons(chunks, last, trailers);
      var next := pos + |chunks[0].sizeLine| + 2 + |chunks[0].data| + 2;
      LastBoundaryEnds(next, chunks[1..], last, trailers);
      assert BoundariesAt(pos, chunks, last)[|chunks|] == BoundariesAt(next, chunks[1..], last)[|chunks| - 1];
    }
  }

  lemma EncodeEnd(last: seq<byte>, trailers: seq<byte>)
    ensures |Encode([], last, trailers)| == |last| + 2 + |Tail(trailers)|
  {
    hide Tail;
  }

  lemma HoldsInside(prefix: seq<byte>, bytes: seq<byte>, suffix: seq<byte>)
    ensures Holds(prefix + bytes + suffix, |prefix|, bytes)
  {
  }

  lemma ScannedInBounds(src: seq<byte>, ranges: seq<Range>)
    requires FromRanges(ranges) == ranges && forall k :: 0 <= k < |ranges| ==> ranges[k].start <= ranges[k].end <= |src|
    ensures InBounds(FromRanges(ranges), |src|) && IndexRanges(src, FromRanges(ranges)) == Concatenated(src, ranges)
  {
    var rs := FromRanges(ranges);
    ConcatenatedIsIndexRanges(src, rs);
  }

  /**
   Scanning undoes the encoding. Whatever stands before and after an encoding, whichever way its sizes
   are spelled: the content ranges read back the payload, the boundaries read back the size lines, the
   trailer range reads back the trailers, and what follows the last boundary is the rest of the encoding.
   */
  lemma ChunkedRoundTrip(prefix: seq<byte>, chunks: seq<Chunk>, last: seq<byte>, trailers: seq<byte>, suffix: seq<byte>)
    requires |prefix + Encode(chunks, last, trailers) + suffix| <= ISIZE_MAX
    requires forall k :: 0 <= k < |chunks| ==> Legal(chunks[k])
    requires FromStrRadix(last, 16) == Some(0) && LegalTrailers(trailers)
    ensures var src := prefix + Encode(chunks, last, trailers) + suffix;
      var scan := ScanFrom(src, |prefix|);
      && scan.Scanned?
      && |scan.boundaries| == |chunks| + 1
      && InBounds(FromRanges(scan.contents), |src|)
      && InBounds(FromRanges(scan.boundaries), |src|)
      && InBounds(FromRanges(scan.trailers), |src|)
      && IndexRanges(src, FromRanges(scan.contents)) == Payload(chunks)
      && IndexRanges(src, FromRanges(scan.boundaries)) == SizeLines(chunks, last)
      && IndexRanges(src, FromRanges(scan.trailers)) == trailers
      && scan.boundaries[|chunks|].end + |Tail(trailers)| == |prefix| + |Encode(chunks, last, trailers)|
  {
    hide Encode, Legal, LegalTrailers, ScanFrom, FromStrRadix, Holds, Tail, BoundariesAt, ContentsAt, Concatenated,
         TrailersOf, FromRanges, IndexRanges, Payload, SizeLines, InBounds;
    var src := prefix + Encode(chunks, last, trailers) + suffix;
    var pos := |prefix|;
    HoldsInside(prefix, Encode(chunks, last, trailers), suffix);
    EncodingIsScanned(src, pos, chunks, last, trailers);
    RangesStayApart(src, pos);
    PayloadComesBack(src, pos, chunks, last, trailers);
    SizeLinesComeBack(src, pos, chunks, last, trailers);
    ScannedInBounds(src, ContentsAt(pos, chunks));
    ScannedInBounds(src, BoundariesAt(pos, chunks, last));
    LastBoundaryEnds(pos, chunks, last, trailers);
    HoldsTail(src, pos, chunks, last, trailers);
    TrailersComeBack(src, BoundariesAt(pos, chunks, last)[|chunks|].end, trailers);
  }

  lemma {:induction false} HoldsTail(src: seq<byte>, pos: nat, chunks: seq<Chunk>, last: seq<byte>, trailers: seq<byte>)
    requires Holds(src, pos, Encode(chunks, last, trailers))
    ensures Holds(src, BoundariesAt(pos, chunks, last)[|chunks|].end, Tail(trailers))
    decreases |chunks|
  {
    hide Holds, Tail;
    if chunks == [] {
      HoldsParts(src, pos, last, LINE_BREAK + Tail(trailers));
      HoldsParts(src, pos + |last|, LINE_BREAK, Tail(trailers));
    } else {
      var next := pos + |chunks[0].sizeLine| + 2 + |chunks[0].data| + 2;
      ChunkHolds(src, pos, chunks[0], Encode(chunks[1..], last, trailers));
      HoldsTail(src, next, chunks[1..], last, trailers);
      assert BoundariesAt(pos, chunks, last)[|chunks|] == BoundariesAt(next, chunks[1..], last)[|chunks| - 1];
    }
  }

  lemma TrailersComeBack(src: seq<byte>, pos: nat, trailers: seq<byte>)
    requires Holds(src, pos, Tail(trailers))
    ensures InBounds(FromRanges(TrailersOf(pos, trailers)), |src|)
    ensures IndexRanges(src, FromRanges(TrailersOf(pos, trailers))) == trailers
  {
    if trailers != [] {
      HoldsParts(src, pos, trailers, LINE_BREAK + LINE_BREAK);
      assert TrailersOf(pos, trailers)[1..] == [];
      IndexOneRange(src, pos, pos + |trailers|);
      CanonicalUnique(FromRanges(TrailersOf(pos, trailers)), FromRange(pos, pos + |trailers|));
    }
  }

  // ----- Chunks as section 7.1 of RFC 9112 writes them

  /** Each part becomes a chunk whose size is written in hexadecimal. */
  function HexChunks(parts: seq<seq<byte>>): seq<Chunk> {
    if parts == [] then [] else [Chunk(HexDigits(|parts[0]|), parts[0])] + HexChunks(parts[1..])
  }

  function Flatten(parts: seq<seq<byte>>): seq<byte> {
    if parts == [] then [] else parts[0] + Flatten(parts[1..])
  }

  lemma {:induction false} HexChunksAreLegal(parts: seq<seq<byte>>)
    requires forall k :: 0 <= k < |parts| ==> 0 < |parts[k]| <= USIZE_MAX
    ensures |HexChunks(parts)| == |parts| && Payload(HexChunks(parts)) == Flatten(parts)
    ensures forall k :: 0 <= k < |HexChunks(parts)| ==> Legal(HexChunks(parts)[k])
  {
    hide FromStrRadix, HexDigits;
    if parts != [] {
      HexRoundTrip(|parts[0]|);
      HexChunksAreLegal(parts[1..]);
      assert HexChunks(parts)[1..] == HexChunks(parts[1..]);
    }
  }

  lemma {:induction false} PartsFit(parts: seq<seq<byte>>, last: seq<byte>, trailers: seq<byte>)
    ensures forall k :: 0 <= k < |parts| ==> |parts[k]| <= |Encode(HexChunks(parts), last, trailers)|
  {
    hide Encode, HexDigits;
    if parts != [] {
      EncodeCons(HexChunks(parts), last, trailers);
      assert HexChunks(parts)[1..] == HexChunks(parts[1..]);
      PartsFit(parts[1..], last, trailers);
      forall k | 0 <= k < |parts| ensures |parts[k]| <= |Encode(HexChunks(parts), last, trailers)| {
        if k > 0 { assert parts[k] == parts[1..][k - 1]; }
      }
    }
  }

  /** Every list of non-empty parts, sent as chunks without trailers, is scanned back to exactly those bytes. */
  lemma PartsRoundTrip(prefix: seq<byte>, parts: seq<seq<byte>>, suffix: seq<byte>)
    requires forall k :: 0 <= k < |parts| ==> parts[k] != []
    requires |prefix + Encode(HexChunks(parts), HexDigits(0), []) + suffix| <= ISIZE_MAX
    ensures var body := Encode(HexChunks(parts), HexDigits(0), []);
      var src := prefix + body + suffix;
      var scan := ScanFrom(src, |prefix|);
      && scan.Scanned? && scan.trailers == []
      && |scan.boundaries| == |parts| + 1
      && InBounds(FromRanges(scan.contents), |src|)
      && IndexRanges(src, FromRanges(scan.contents)) == Flatten(parts)
      && scan.boundaries[|parts|].end + 2 == |prefix| + |body|
  {
    hide Encode, Legal, ScanFrom, FromStrRadix, Holds, FromRanges, IndexRanges, Payload, SizeLines, InBounds,
         HexChunks, HexDigits;
    PartsFit(parts, HexDigits(0), []);
    HexChunksAreLegal(parts);
    HexRoundTrip(0);
    var src := prefix + Encode(HexChunks(parts), HexDigits(0), []) + suffix;
    ChunkedRoundTrip(prefix, HexChunks(parts), HexDigits(0), [], suffix);
    HoldsInside(prefix, Encode(HexChunks(parts), HexDigits(0), []), suffix);
    EncodingIsScanned(src, |prefix|, HexChunks(parts), HexDigits(0), []);
  }
}
