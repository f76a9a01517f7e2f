/** The partial transcript as the code keeps it: byte buffers changed in place by loops over ranges. */
module PartialTranscripts {
  import opened RangeSets
  import opened Wire
  import opened Transcripts
  import Laws = TranscriptLaws

  // ----- Slices

  /** `fill` on the slice `lo..hi`. */
  method FillRange(a: array<byte>, lo: nat, hi: nat, value: byte)
    requires lo <= hi <= a.Length
    modifies a
    ensures a[..] == Fill(old(a[..]), RangeIndices(Range(lo, hi)), value)
  {
    for i := lo to hi
      invariant forall p :: 0 <= p < a.Length ==> a[p] == if lo <= p < i then value else old(a[p])
    {
      a[i] := value;
    }
  }

  /** `copy_from_slice` between the slices `lo..hi` of two buffers of one length. */
  method CopyRange(a: array<byte>, from: seq<byte>, lo: nat, hi: nat)
    requires lo <= hi <= a.Length == |from|
    modifies a
    ensures a[..] == Paste(old(a[..]), RangeIndices(Range(lo, hi)), from)
  {
    for i := lo to hi
      invariant forall p :: 0 <= p < a.Length ==> a[p] == if lo <= p < i then from[p] else old(a[p])
    {
      a[i] := from[i];
    }
  }

  /** `copy_from_slice` from a whole slice. */
  method CopySlice(a: array<byte>, lo: nat, part: seq<byte>)
    requires lo + |part| <= a.Length
    modifies a
    ensures a[..] == old(a[..lo]) + part + old(a[lo + |part|..])
  {
    for i := 0 to |part|
      invariant forall p :: 0 <= p < a.Length ==> a[p] == if lo <= p < lo + i then part[p - lo] else old(a[p])
    {
      a[lo + i] := part[i];
    }
  }

  /** `for range in ranges.iter_ranges() { data[range].fill(value) }` */
  method FillRanges(a: array<byte>, ranges: RangeSet, value: byte)
    requires InBounds(ranges, a.Length)
    modifies a
    ensures a[..] == Fill(old(a[..]), Indices(ranges), value)
  {
    var rest := ranges;
    assert a[..] == Fill(a[..], {}, value);
    while rest != []
      invariant InBounds(rest, a.Length)
      invariant Fill(a[..], Indices(rest), value) == Fill(old(a[..]), Indices(ranges), value)
      decreases |rest|
    {
      InBoundsTail(rest, a.Length);
      FillUnion(a[..], RangeIndices(rest[0]), Indices(rest[1..]), value);
      FillRange(a, rest[0].start, rest[0].end, value);
      rest := rest[1..];
    }
    assert a[..] == Fill(a[..], {}, value);
  }

  /** `for range in ranges.iter_ranges() { data[range].copy_from_slice(&from[range]) }` */
  method CopyRanges(a: array<byte>, from: seq<byte>, ranges: RangeSet)
    requires InBounds(ranges, a.Length) && a.Length == |from|
    modifies a
    ensures a[..] == Paste(old(a[..]), Indices(ranges), from)
  {
    var rest := ranges;
    while rest != []
      invariant InBounds(rest, a.Length)
      invariant Paste(a[..], Indices(rest), from) == Paste(old(a[..]), Indices(ranges), from)
      decreases |rest|
    {
      InBoundsTail(rest, a.Length);
      PasteUnion(a[..], RangeIndices(rest[0]), Indices(rest[1..]), from);
      CopyRange(a, from, rest[0].start, rest[0].end);
      rest := rest[1..];
    }
    assert a[..] == Paste(a[..], {}, from);
  }

  lemma ScatterFirst(base: seq<byte>, rs: RangeSet, part: seq<byte>)
    requires rs != [] && InBounds(rs, |base|) && |part| == Len(rs)
    ensures rs[0].start <= rs[0].end <= |base| && InBounds(rs[1..], |base|)
    ensures var n := rs[0].end - rs[0].start;
      && n + Len(rs[1..]) == |part|
      && Scatter(base, rs, part) ==
           Scatter(base[..rs[0].start] + part[..n] + base[rs[0].end..], rs[1..], part[n..])
  {
    InBoundsTail(rs, |base|);
  }

  lemma ScatterNothing(base: seq<byte>, part: seq<byte>)
    requires |part| == Len([])
    ensures InBounds([], |base|) && Scatter(base, [], part) == base
  {
  }

  /** `Subsequence::copy_to`, and the two loops of decompression: an offset walks through the data. */
  method CopyTo(a: array<byte>, idx: RangeSet, data: seq<byte>)
    requires InBounds(idx, a.Length) && |data| == Len(idx)
    modifies a
    ensures a[..] == Scatter(old(a[..]), idx, data)
  {
    hide Scatter, Len, InBounds;
    var offset := 0;
    assert data[offset..] == data;
    var rest := idx;
    while rest != []
      invariant InBounds(rest, a.Length) && offset <= |data| && |data| - offset == Len(rest)
      invariant Scatter(a[..], rest, data[offset..]) == Scatter(old(a[..]), idx, data)
      decreases |rest|
    {
      InBoundsTail(rest, a.Length);
      var range := rest[0];
      var n := range.end - range.start;
      ghost var before := a[..];
      ScatterFirst(before, rest, data[offset..]);
      CopySlice(a, range.start, data[offset..offset + n]);
      assert data[offset..][..n] == data[offset..offset + n] && data[offset..][n..] == data[offset + n..];
      assert a[..] == before[..range.start] + data[offset..][..n] + before[range.end..];
      offset := offset + n;
      rest := rest[1..];
    }
    ScatterNothing(a[..], data[offset..]);
  }

  // ----- The partial transcript

  class PartialTranscript {
    var sent: array<byte>
    var received: array<byte>
    var sentAuthed: RangeSet
    var receivedAuthed: RangeSet

    /** The two buffers are two buffers. */
    ghost predicate Valid()
      reads this
    {
      sent != received
    }

    /** What the object holds, as a value. */
    ghost function View(): Partial
      reads this, sent, received
    {
      Partial(Side(sent[..], sentAuthed), Side(received[..], receivedAuthed))
    }

    /** `new`: the indices are taken as they are, in bounds or not. */
    constructor (sent: seq<byte>, received: seq<byte>, sentAuthed: RangeSet, receivedAuthed: RangeSet)
      ensures Valid() && fresh(this.sent) && fresh(this.received)
      ensures View() == Partial(Side(sent, sentAuthed), Side(received, receivedAuthed))
    {
      var s := new byte[|sent|](i requires 0 <= i < |sent| => sent[i]);
      var r := new byte[|received|](i requires 0 <= i < |received| => received[i]);
      this.sent, this.received := s, r;
      this.sentAuthed, this.receivedAuthed := sentAuthed, receivedAuthed;
      new;
      assert s[..] == sent && r[..] == received;
    }

    /** `Transcript::to_partial`; indices out of bounds are the documented panic. */
    constructor ToPartial(t: Transcript, sentIdx: RangeSet, receivedIdx: RangeSet)
      requires Transcripts.ToPartial(t, sentIdx, receivedIdx).Some?
      ensures Valid() && fresh(sent) && fresh(received)
      ensures Some(View()) == Transcripts.ToPartial(t, sentIdx, receivedIdx)
      ensures Laws.HoldsOnly(t.sent, sentIdx, View().sent) && Laws.HoldsOnly(t.received, receivedIdx, View().received)
    {
      var s := new byte[|t.sent|](_ => 0);
      var r := new byte[|t.received|](_ => 0);
      sent, received := s, r;
      sentAuthed, receivedAuthed := sentIdx, receivedIdx;
      new;
      assert s[..] == Zeros(|t.sent|) && r[..] == Zeros(|t.received|);
      CopyRanges(s, t.sent, sentIdx);
      CopyRanges(r, t.received, receivedIdx);
      Laws.PartialHoldsOnly(t, sentIdx, receivedIdx);
    }

    /** `From<CompressedPartialTranscript>` */
    constructor Decompress(c: Compressed)
      requires Validate(c).Accepted?
      ensures Valid() && fresh(sent) && fresh(received)
      ensures View() == Transcripts.Decompress(c)
    {
      var s := new byte[c.sentTotal](_ => 0);
      var r := new byte[c.receivedTotal](_ => 0);
      sent, received := s, r;
      sentAuthed, receivedAuthed := c.sentIdx, c.receivedIdx;
      new;
      assert s[..] == Zeros(c.sentTotal) && r[..] == Zeros(c.receivedTotal);
      CopyTo(s, c.sentIdx, c.sentAuthed);
      CopyTo(r, c.receivedIdx, c.receivedAuthed);
    }

    /** `clone`, as `parse_partial` does before it masks. */
    method Clone() returns (copy: PartialTranscript)
      requires Valid()
      ensures fresh(copy) && fresh(copy.sent) && fresh(copy.received)
      ensures copy.Valid() && copy.View() == View()
    {
      copy := new PartialTranscript(sent[..], received[..], sentAuthed, receivedAuthed);
    }

    /** `union_transcript`; unequal lengths are the documented panic, and copying needs indices in bounds. */
    method UnionTranscript(other: PartialTranscript)
      requires Valid() && other.Valid() && other != this
      requires {sent, received} !! {other.sent, other.received}
      requires Transcripts.UnionTranscript(View(), other.View()).Some?
      modifies this`sentAuthed, this`receivedAuthed, sent, received
      ensures Valid() && Some(View()) == old(Transcripts.UnionTranscript(View(), other.View()))
      ensures Laws.Merged(old(View().sent), other.View().sent, View().sent)
      ensures Laws.Merged(old(View().received), other.View().received, View().received)
      ensures other.View() == old(other.View())
    {
      Laws.UnionMeans(View(), other.View());
      CopyRanges(sent, other.sent[..], Difference(other.sentAuthed, sentAuthed));
      CopyRanges(received, other.received[..], Difference(other.receivedAuthed, receivedAuthed));
      sentAuthed := Union(sentAuthed, other.sentAuthed);
      receivedAuthed := Union(receivedAuthed, other.receivedAuthed);
    }

    /** `union_subsequence`; a subsequence out of bounds is the documented panic. */
    method UnionSubsequence(direction: Direction, part: Subsequence)
      requires Valid() && Transcripts.UnionSubsequence(View(), direction, part).Some?
      modifies this`sentAuthed, this`receivedAuthed, sent, received
      ensures Valid() && Some(View()) == old(Transcripts.UnionSubsequence(View(), direction, part))
      ensures direction.Sent? ==>
        Laws.Written(old(View().sent), part, View().sent) && View().received == old(View().received)
      ensures direction.Received? ==>
        Laws.Written(old(View().received), part, View().received) && View().sent == old(View().sent)
    {
      Laws.SubsequenceMeans(View(), direction, part);
      match direction
      case Sent =>
        CopyTo(sent, part.idx, part.data);
        sentAuthed := Union(sentAuthed, part.idx);
      case Received =>
        CopyTo(received, part.idx, part.data);
        receivedAuthed := Union(receivedAuthed, part.idx);
    }

    /** `set_unauthed` */
    method SetUnauthed(value: byte)
      requires Valid()
      modifies sent, received
      ensures View() == old(Transcripts.SetUnauthed(View(), value))
      ensures Laws.Masked(old(View().sent), 0, sent.Length, value, View().sent)
      ensures Laws.Masked(old(View().received), 0, received.Length, value, View().received)
    {
      Laws.MaskMeans(View(), value, Sent, 0, 0);
      var sentGaps := Difference(FromRange(0, sent.Length), sentAuthed);
      var receivedGaps := Difference(FromRange(0, received.Length), receivedAuthed);
      InBoundsMeansBelow(sentGaps, sent.Length);
      InBoundsMeansBelow(receivedGaps, received.Length);
      FillRanges(sent, sentGaps, value);
      FillRanges(received, receivedGaps, value);
    }

    /**
     What `parse_partial` hands to the parsers: the bytes of a masked clone. The transcript itself
     stays as it is.
     */
    method MaskedBytes() returns (sentBytes: seq<byte>, receivedBytes: seq<byte>)
      requires Valid()
      ensures sentBytes == Transcripts.SetUnauthed(View(), STAR).sent.data
      ensures receivedBytes == Transcripts.SetUnauthed(View(), STAR).received.data
    {
      var parseable := Clone();
      parseable.SetUnauthed(STAR);
      sentBytes, receivedBytes := parseable.sent[..], parseable.received[..];
    }

    /** `From<PartialTranscript>`; indices out of bounds panic when they are read. */
    method Compress() returns (c: Compressed)
      requires Valid() && Transcripts.Compress(View()).Some?
      ensures Some(c) == Transcripts.Compress(View())
    {
      c := Compressed(
        IndexRanges(sent[..], sentAuthed), IndexRanges(received[..], receivedAuthed),
        sentAuthed, receivedAuthed, sent.Length, received.Length);
    }

    /** `set_unauthed_range`; filling outside the buffer panics. */
    method SetUnauthedRange(value: byte, direction: Direction, lo: nat, hi: nat)
      requires Valid() && Transcripts.SetUnauthedRange(View(), value, direction, lo, hi).Some?
      modifies sent, received
      ensures Some(View()) == old(Transcripts.SetUnauthedRange(View(), value, direction, lo, hi))
      ensures direction.Sent? ==>
        Laws.Masked(old(View().sent), lo, hi, value, View().sent) && View().received == old(View().received)
      ensures direction.Received? ==>
        Laws.Masked(old(View().received), lo, hi, value, View().received) && View().sent == old(View().sent)
    {
      Laws.MaskMeans(View(), value, direction, lo, hi);
      match direction
      case Sent => FillRanges(sent, Difference(FromRange(lo, hi), sentAuthed), value);
      case Received => FillRanges(received, Difference(FromRange(lo, hi), receivedAuthed), value);
    }
  }
}
