/** The chunked-body scanner (section 7.1 of RFC 9112): its cursor loop, and the scan it computes chunk by chunk. */
module ChunkedBody {
  import opened RangeSets
  import opened Wire
  import opened Numerals

  const CR: byte := 0x0D
  const LF: byte := 0x0A

  /** How a scan ends. A slice that starts past the end of the source is a panic, and so is an overflow. */
  datatype Scan =
    | Scanned(contents: seq<Range>, boundaries: seq<Range>, trailers: seq<Range>)
    | BadSize
    | MissingTrailerEnd
    | Panic

  predicate LineBreakAt(src: seq<byte>, i: nat) {
    i + 1 < |src| && src[i] == CR && src[i + 1] == LF
  }

  predicate EmptyLineAt(src: seq<byte>, i: nat) {
    LineBreakAt(src, i) && LineBreakAt(src, i + 2)
  }

  /** The position of the first line break from `i` on, or else the end of the source. */
  function LineEnd(src: seq<byte>, i: nat): (e: nat)
    requires i <= |src|
    ensures i <= e <= |src|
    ensures e < |src| ==> LineBreakAt(src, e)
    ensures forall k :: i <= k < e ==> !LineBreakAt(src, k)
    decreases |src| - i
  {
    if i == |src| || LineBreakAt(src, i) then i else LineEnd(src, i + 1)
  }

  /** The position of the first empty line's `CRLF CRLF` from `i` on. */
  function TrailerEnd(src: seq<byte>, i: nat): (e: Option<nat>)
    requires i <= |src|
    ensures e.Some? ==> i <= e.value && EmptyLineAt(src, e.value)
    ensures e.Some? ==> forall k :: i <= k < e.value ==> !EmptyLineAt(src, k)
    ensures e.None? ==> forall k :: i <= k ==> !EmptyLineAt(src, k)
    decreases |src| - i
  {
    if EmptyLineAt(src, i) then Some(i)
    else if i == |src| then None
    else TrailerEnd(src, i + 1)
  }

  /** After the last chunk: nothing but a line break, or trailers up to an empty line. */
  function ScanTrailers(src: seq<byte>, boundary: Range): Scan {
    var pos := boundary.end;
    if pos > |src| then Panic
    else if LineBreakAt(src, pos) then Scanned([], [boundary], [])
    else
      match TrailerEnd(src, pos)
      case None => MissingTrailerEnd
      case Some(e) => Scanned([], [boundary], [Range(pos, e)])
  }

  /** `scan` with a chunk in front of it. */
  function Prefixed(boundary: Range, content: Range, scan: Scan): Scan {
    match scan
    case Scanned(contents, boundaries, trailers) => Scanned([content] + contents, [boundary] + boundaries, trailers)
    case _ => scan
  }

  /** The scan from `pos` on, one chunk at a time. */
  function ScanFrom(src: seq<byte>, pos: nat): Scan
    decreases |src| - pos
  {
    if pos > |src| then Panic
    else
      var line := LineEnd(src, pos);
      match FromStrRadix(src[pos..line], 16)
      case None => BadSize
      case Some(size) =>
        var boundary := Range(pos, line + 2);
        if size == 0 then ScanTrailers(src, boundary)
        else if line + 2 + size + 2 > USIZE_MAX then Panic
        else Prefixed(boundary, Range(line + 2, line + 2 + size), ScanFrom(src, line + 2 + size + 2))
  }

  /** `scan` with chunks in front of it. */
  function Behind(contents: seq<Range>, boundaries: seq<Range>, scan: Scan): Scan {
    match scan
    case Scanned(c, b, t) => Scanned(contents + c, boundaries + b, t)
    case _ => scan
  }

  lemma BehindOne(contents: seq<Range>, boundaries: seq<Range>, boundary: Range, content: Range, scan: Scan)
    ensures Behind(contents, boundaries, Prefixed(boundary, content, scan))
         == Behind(contents + [content], boundaries + [boundary], scan)
  {
    match scan
    case Scanned(c, b, t) =>
      assert contents + ([content] + c) == contents + [content] + c;
      assert boundaries + ([boundary] + b) == boundaries + [boundary] + b;
    case _ =>
  }

  /** What `chunked_body_ranges` returns. */
  datatype ChunkRanges = ChunkRanges(contents: RangeSet, boundaries: RangeSet, trailers: RangeSet)

  /** `take_while` up to a line break. */
  method TakeLine(src: seq<byte>, pos: nat) returns (line: seq<byte>)
    requires pos <= |src|
    ensures line == src[pos..LineEnd(src, pos)]
  {
    var i := pos;
    while i < |src| && !(src[i] == CR && i + 1 < |src| && src[i + 1] == LF)
      invariant pos <= i <= |src| && LineEnd(src, i) == LineEnd(src, pos)
    {
      i := i + 1;
    }
    line := src[pos..i];
  }

  lemma BehindNothing(scan: Scan)
    ensures Behind([], [], scan) == scan
  {
    if scan.Scanned? { assert [] + scan.contents == scan.contents && [] + scan.boundaries == scan.boundaries; }
  }

  lemma BehindEnd(contents: seq<Range>, boundaries: seq<Range>, boundary: Range, trailers: seq<Range>)
    ensures Behind(contents, boundaries, Scanned([], [boundary], trailers))
       == Scanned(contents, boundaries + [boundary], trailers)
    ensures Behind(contents, boundaries, Panic) == Panic
    ensures Behind(contents, boundaries, BadSize) == BadSize
    ensures Behind(contents, boundaries, MissingTrailerEnd) == MissingTrailerEnd
  {
    assert contents + [] == contents;
  }

  /** `chunked_body_ranges`: the cursor loop, with the three vectors it pushes to. */
  method ChunkedBodyRanges(src: seq<byte>, headEnd: nat) returns (scan: Scan, ranges: ChunkRanges)
    ensures scan == ScanFrom(src, headEnd)
    ensures scan.Scanned? ==>
              ranges == ChunkRanges(FromRanges(scan.contents), FromRanges(scan.boundaries), FromRanges(scan.trailers))
  {
    hide Behind, FromStrRadix, LineEnd, TrailerEnd, Prefixed;
    var contents: seq<Range>, boundaries: seq<Range>, trailers: seq<Range> := [], [], [];
    var pos := headEnd;
    ranges := ChunkRanges([], [], []);
    BehindNothing(ScanFrom(src, headEnd));
    while true
      invariant Behind(contents, boundaries, ScanFrom(src, pos)) == ScanFrom(src, headEnd)
      decreases |src| - pos
    {
      BehindEnd(contents, boundaries, Range(0, 0), []);
      if pos > |src| { return Panic, ranges; }
      var digits := TakeLine(src, pos);
      var size := FromStrRadix(digits, 16);
      if size.None? { return BadSize, ranges; }
      var boundary := Range(pos, pos + |digits| + 2);
      if size.value == 0 {
        boundaries, pos := boundaries + [boundary], boundary.end;
        if pos > |src| { return Panic, ranges; }
        if !LineBreakAt(src, pos) {
          var end := TrailerEnd(src, pos);
          if end.None? { return MissingTrailerEnd, ranges; }
          trailers := [Range(pos, end.value)];
        }
        BehindEnd(contents, boundaries[..|boundaries| - 1], boundary, trailers);
        assert boundaries[..|boundaries| - 1] + [boundary] == boundaries;
        break;
      }
      if boundary.end + size.value + 2 > USIZE_MAX { return Panic, ranges; }
      var content := Range(boundary.end, boundary.end + size.value);
      BehindOne(contents, boundaries, boundary, content, ScanFrom(src, content.end + 2));
      boundaries, contents, pos := boundaries + [boundary], contents + [content], content.end + 2;
    }
    scan := Scanned(contents, boundaries, trailers);
    ranges := ChunkRanges(FromRanges(contents), FromRanges(boundaries), FromRanges(trailers));
  }
}
