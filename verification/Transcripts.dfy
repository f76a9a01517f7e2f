/** Transcripts and what a partial transcript, its masks and its compressed form hold, as values. */
module Transcripts {
  import opened RangeSets
  import opened Wire

  /** Everything sent and everything received. */
  datatype Transcript = Transcript(sent: seq<byte>, received: seq<byte>) {
    function Data(direction: Direction): seq<byte> {
      if direction.Sent? then sent else received
    }
  }

  /** Data with the indices it came from; `Subsequence::new` refuses any other length. */
  datatype RawSubsequence = Subsequence(idx: RangeSet, data: seq<byte>)

  type Subsequence = q: RawSubsequence | |q.data| == Len(q.idx) witness RawSubsequence.Subsequence([], [])

  function NewSubsequence(idx: RangeSet, data: seq<byte>): (s: Option<Subsequence>)
    ensures s.Some? <==> |data| == |Indices(idx)|
    ensures s.Some? ==> s.value.idx == idx && s.value.data == data
  {
    LenIsCardinality(idx);
    if Len(idx) != |data| then None else Some(RawSubsequence.Subsequence(idx, data))
  }

  /** `Transcript::get` */
  function Get(t: Transcript, direction: Direction, idx: RangeSet): (s: Option<Subsequence>)
    ensures s.Some? <==> InBounds(idx, |t.Data(direction)|)
    ensures s.Some? ==> s.value.idx == idx && s.value.data == IndexRanges(t.Data(direction), idx)
  {
    if !InBounds(idx, |t.Data(direction)|) then None
    else NewSubsequence(idx, IndexRanges(t.Data(direction), idx))
  }

  /** One direction of a partial transcript: its bytes and which of them are authenticated. */
  datatype Side = Side(data: seq<byte>, authed: RangeSet)

  datatype Partial = Partial(sent: Side, received: Side) {
    function At(direction: Direction): Side {
      if direction.Sent? then sent else received
    }

    function With(direction: Direction, side: Side): Partial {
      if direction.Sent? then this.(sent := side) else this.(received := side)
    }
  }

  // ----- Bytes at indices

  /** `from` at the indices, `base` elsewhere. */
  ghost function Paste(base: seq<byte>, at: set<nat>, from: seq<byte>): (r: seq<byte>)
    requires |base| == |from|
    ensures |r| == |base|
    ensures forall p :: 0 <= p < |base| ==> r[p] == if p in at then from[p] else base[p]
  {
    seq(|base|, p requires 0 <= p < |base| => if p in at then from[p] else base[p])
  }

  /** `value` at the indices, `base` elsewhere. */
  ghost function Fill(base: seq<byte>, at: set<nat>, value: byte): (r: seq<byte>)
    ensures |r| == |base|
    ensures forall p :: 0 <= p < |base| ==> r[p] == if p in at then value else base[p]
  {
    seq(|base|, p requires 0 <= p < |base| => if p in at then value else base[p])
  }

  lemma FillUnion(data: seq<byte>, a: set<nat>, b: set<nat>, value: byte)
    ensures Fill(Fill(data, a, value), b, value) == Fill(data, a + b, value)
  {
  }

  lemma PasteUnion(data: seq<byte>, a: set<nat>, b: set<nat>, from: seq<byte>)
    requires |data| == |from|
    ensures Paste(Paste(data, a, from), b, from) == Paste(data, a + b, from)
  {
  }

  function Zeros(n: nat): (zeros: seq<byte>)
    ensures |zeros| == n && forall p :: 0 <= p < n ==> zeros[p] == 0
  {
    seq(n, _ => 0)
  }

  /** `copy_to`: the parts of `part` written in turn over the ranges of `rs`. */
  function Scatter(base: seq<byte>, rs: RangeSet, part: seq<byte>): (r: seq<byte>)
    requires InBounds(rs, |base|) && |part| == Len(rs)
    ensures |r| == |base|
    decreases |rs|
  {
    if rs == [] then base
    else
      InBoundsTail(rs, |base|);
      var n := rs[0].end - rs[0].start;
      Scatter(base[..rs[0].start] + part[..n] + base[rs[0].end..], rs[1..], part[n..])
  }

  /** Writing over ranges leaves every other byte alone. */
  lemma {:induction false} ScatterElsewhere(base: seq<byte>, rs: RangeSet, part: seq<byte>)
    requires InBounds(rs, |base|) && |part| == Len(rs)
    ensures forall p :: 0 <= p < |base| && p !in Indices(rs) ==> Scatter(base, rs, part)[p] == base[p]
    decreases |rs|
  {
    if rs != [] {
      InBoundsTail(rs, |base|);
      var n := rs[0].end - rs[0].start;
      ScatterElsewhere(base[..rs[0].start] + part[..n] + base[rs[0].end..], rs[1..], part[n..]);
    }
  }

  lemma {:induction false} IndexRangesSame(a: seq<byte>, b: seq<byte>, rs: RangeSet)
    requires |a| == |b| && InBounds(rs, |a|)
    requires forall p :: 0 <= p < |a| && p in Indices(rs) ==> a[p] == b[p]
    ensures IndexRanges(a, rs) == IndexRanges(b, rs)
    decreases |rs|
  {
    if rs != [] {
      InBoundsTail(rs, |a|);
      assert a[rs[0].start..rs[0].end] == b[rs[0].start..rs[0].end] by {
        forall k | rs[0].start <= k < rs[0].end ensures a[k] == b[k] { assert k in RangeIndices(rs[0]); }
      }
      IndexRangesSame(a, b, rs[1..]);
    }
  }

  /** Reading back what was written gives it back. */
  lemma {:induction false} GatherScattered(base: seq<byte>, rs: RangeSet, part: seq<byte>)
    requires InBounds(rs, |base|) && |part| == Len(rs)
    ensures IndexRanges(Scatter(base, rs, part), rs) == part
    decreases |rs|
  {
    if rs != [] {
      InBoundsTail(rs, |base|);
      var n := rs[0].end - rs[0].start;
      var next := base[..rs[0].start] + part[..n] + base[rs[0].end..];
      var done := Scatter(next, rs[1..], part[n..]);
      GatherScattered(next, rs[1..], part[n..]);
      ScatterElsewhere(next, rs[1..], part[n..]);
      IndicesAbove(rs[1..], rs[0].end);
      assert done[rs[0].start..rs[0].end] == part[..n];
      assert part == part[..n] + part[n..];
    }
  }

  /** Writing back what was read pastes the source over the ranges. */
  lemma {:induction false} ScatterGathered(base: seq<byte>, rs: RangeSet, from: seq<byte>)
    requires |base| == |from| && InBounds(rs, |base|)
    ensures Scatter(base, rs, IndexRanges(from, rs)) == Paste(base, Indices(rs), from)
    decreases |rs|
  {
    if rs != [] {
      InBoundsTail(rs, |base|);
      var n := rs[0].end - rs[0].start;
      var part := IndexRanges(from, rs);
      assert part[..n] == from[rs[0].start..rs[0].end] && part[n..] == IndexRanges(from, rs[1..]);
      var next := base[..rs[0].start] + part[..n] + base[rs[0].end..];
      assert next == Paste(base, RangeIndices(rs[0]), from);
      ScatterGathered(next, rs[1..], from);
    }
  }

  // ----- Operations, with `None` for a panic

  /** One direction of `to_partial`. */
  ghost function Opened(data: seq<byte>, idx: RangeSet): Option<Side> {
    if !InBounds(idx, |data|) then None else Some(Side(Paste(Zeros(|data|), Indices(idx), data), idx))
  }

  /** `to_partial` */
  ghost function ToPartial(t: Transcript, sentIdx: RangeSet, receivedIdx: RangeSet): Option<Partial> {
    match (Opened(t.sent, sentIdx), Opened(t.received, receivedIdx))
    case (Some(sent), Some(received)) => Some(Partial(sent, received))
    case _ => None
  }

  /** `(0..len).difference(authed)` */
  function Unauthed(side: Side): RangeSet {
    Difference(FromRange(0, |side.data|), side.authed)
  }

  /** One direction of `union_transcript`: only what is newly authenticated is copied. */
  ghost function UnionSide(side: Side, other: Side): Option<Side> {
    if |side.data| != |other.data| || !InBounds(Difference(other.authed, side.authed), |side.data|) then None
    else
      var added := Indices(other.authed) - Indices(side.authed);
      Some(Side(Paste(side.data, added, other.data), Union(side.authed, other.authed)))
  }

  /** `union_transcript` */
  ghost function UnionTranscript(p: Partial, other: Partial): Option<Partial> {
    match (UnionSide(p.sent, other.sent), UnionSide(p.received, other.received))
    case (Some(sent), Some(received)) => Some(Partial(sent, received))
    case _ => None
  }

  /** `union_subsequence` */
  function UnionSubsequence(p: Partial, direction: Direction, part: Subsequence): Option<Partial> {
    var side := p.At(direction);
    if !InBounds(part.idx, |side.data|) then None
    else Some(p.With(direction, Side(Scatter(side.data, part.idx, part.data), Union(side.authed, part.idx))))
  }

  /** `set_unauthed` */
  ghost function SetUnauthed(p: Partial, value: byte): Partial {
    Partial(FillSide(p.sent, Unauthed(p.sent), value), FillSide(p.received, Unauthed(p.received), value))
  }

  ghost function FillSide(side: Side, at: RangeSet, value: byte): Side {
    Side(Fill(side.data, Indices(at), value), side.authed)
  }

  /** `set_unauthed_range` */
  ghost function SetUnauthedRange(p: Partial, value: byte, direction: Direction, lo: nat, hi: nat): Option<Partial> {
    var side := p.At(direction);
    var at := Difference(FromRange(lo, hi), side.authed);
    if !InBounds(at, |side.data|) then None else Some(p.With(direction, FillSide(side, at, value)))
  }

  /** `is_complete` */
  predicate IsComplete(p: Partial) {
    Len(p.sent.authed) == |p.sent.data| && Len(p.received.authed) == |p.received.data|
  }

  // ----- Compression

  datatype Compressed = Compressed(
    sentAuthed: seq<byte>, receivedAuthed: seq<byte>,
    sentIdx: RangeSet, receivedIdx: RangeSet,
    sentTotal: nat, receivedTotal: nat)

  datatype Validation = Accepted | LengthMismatch | OutOfBounds

  /** The check a compressed form passes before it is used. */
  function Validate(c: Compressed): Validation {
    if |c.sentAuthed| != Len(c.sentIdx) || |c.receivedAuthed| != Len(c.receivedIdx) then LengthMismatch
    else if !InBounds(c.sentIdx, c.sentTotal) || !InBounds(c.receivedIdx, c.receivedTotal) then OutOfBounds
    else Accepted
  }

  /** `From<PartialTranscript>`; reading outside the data is a panic. */
  function Compress(p: Partial): Option<Compressed> {
    if !InBounds(p.sent.authed, |p.sent.data|) || !InBounds(p.received.authed, |p.received.data|) then None
    else Some(Compressed(
      IndexRanges(p.sent.data, p.sent.authed), IndexRanges(p.received.data, p.received.authed),
      p.sent.authed, p.received.authed, |p.sent.data|, |p.received.data|))
  }

  /** `From<CompressedPartialTranscript>` on a form that passed the check. */
  function Decompress(c: Compressed): Partial
    requires Validate(c).Accepted?
  {
    Partial(
      Side(Scatter(Zeros(c.sentTotal), c.sentIdx, c.sentAuthed), c.sentIdx),
      Side(Scatter(Zeros(c.receivedTotal), c.receivedIdx, c.receivedAuthed), c.receivedIdx))
  }
}
