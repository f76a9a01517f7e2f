/** What every run of operations on a partial transcript keeps, and the laws of merging, masking and compressing. */
module TranscriptLaws {
  import opened RangeSets
  import opened Wire
  import opened Transcripts

  // ----- What each operation does, byte by byte

  /** A byte is the data's own if it is opened, and zero if it is not. */
  ghost predicate HoldsOnly(data: seq<byte>, idx: RangeSet, side: Side) {
    && side.authed == idx && |side.data| == |data|
    && forall x :: 0 <= x < |data| ==> side.data[x] == if x in Indices(idx) then data[x] else 0
  }

  /** A partial transcript holds the opened bytes and zeros, and exists exactly when the indices do. */
  lemma PartialHoldsOnly(t: Transcript, sentIdx: RangeSet, receivedIdx: RangeSet)
    ensures ToPartial(t, sentIdx, receivedIdx).Some? <==>
      && (forall x :: x in Indices(sentIdx) ==> x < |t.sent|)
      && (forall x :: x in Indices(receivedIdx) ==> x < |t.received|)
    ensures var p := ToPartial(t, sentIdx, receivedIdx);
      p.Some? ==>
        && HoldsOnly(t.sent, sentIdx, p.value.sent) && HoldsOnly(t.received, receivedIdx, p.value.received)
        && SetUnauthed(p.value, 0) == p.value
  {
    InBoundsMeansBelow(sentIdx, |t.sent|);
    InBoundsMeansBelow(receivedIdx, |t.received|);
    var p := ToPartial(t, sentIdx, receivedIdx);
    if p.Some? {
      GapsAreZero(t.sent, sentIdx);
      GapsAreZero(t.received, receivedIdx);
      ZeroMeansSame(p.value.sent);
      ZeroMeansSame(p.value.received);
    }
  }

  lemma GapsAreZero(data: seq<byte>, idx: RangeSet)
    requires Opened(data, idx).Some?
    ensures HoldsOnly(data, idx, Opened(data, idx).value) && ZeroUnauthed(Opened(data, idx).value)
  {
    hide Difference, FromRange;
  }

  ghost predicate AgreeAt(a: seq<byte>, b: seq<byte>, at: set<nat>) {
    |a| == |b| && forall x :: x in at && x < |a| && x < |b| ==> a[x] == b[x]
  }

  /** What a partial transcript tells of its transcript: the lengths and the opened bytes, and nothing else. */
  lemma PartialTellsOnlyOpened(t: Transcript, u: Transcript, sentIdx: RangeSet, receivedIdx: RangeSet)
    requires ToPartial(t, sentIdx, receivedIdx).Some? && ToPartial(u, sentIdx, receivedIdx).Some?
    ensures ToPartial(t, sentIdx, receivedIdx) == ToPartial(u, sentIdx, receivedIdx) <==>
      AgreeAt(t.sent, u.sent, Indices(sentIdx)) && AgreeAt(t.received, u.received, Indices(receivedIdx))
  {
    OpenedTellsOnlyOpened(t.sent, u.sent, sentIdx);
    OpenedTellsOnlyOpened(t.received, u.received, receivedIdx);
  }

  lemma OpenedTellsOnlyOpened(a: seq<byte>, b: seq<byte>, idx: RangeSet)
    requires Opened(a, idx).Some? && Opened(b, idx).Some?
    ensures Opened(a, idx) == Opened(b, idx) <==> AgreeAt(a, b, Indices(idx))
  {
    hide Opened;
    GapsAreZero(a, idx);
    GapsAreZero(b, idx);
    var p, q := Opened(a, idx).value, Opened(b, idx).value;
    if AgreeAt(a, b, Indices(idx)) {
      assert p.data == q.data;
    } else if |a| == |b| {
      var x :| x in Indices(idx) && x < |a| && a[x] != b[x];
      assert p.data[x] != q.data[x];
    }
  }

  /** One side merged with another: what only the other knows is copied, and what is known stays as it is. */
  ghost predicate Merged(side: Side, other: Side, r: Side) {
    && Indices(r.authed) == Indices(side.authed) + Indices(other.authed)
    && |r.data| == |side.data| == |other.data|
    && forall x :: 0 <= x < |side.data| ==>
         r.data[x] == if x in Indices(other.authed) - Indices(side.authed) then other.data[x] else side.data[x]
  }

  ghost predicate Mergeable(side: Side, other: Side) {
    && |side.data| == |other.data|
    && forall x :: x in Indices(other.authed) ==> x in Indices(side.authed) || x < |side.data|
  }

  /** `union_transcript` on any two partial transcripts: when it panics, and otherwise every byte of its result. */
  lemma UnionMeans(p: Partial, other: Partial)
    ensures UnionTranscript(p, other).Some? <==>
      Mergeable(p.sent, other.sent) && Mergeable(p.received, other.received)
    ensures UnionTranscript(p, other).Some? ==>
      var r := UnionTranscript(p, other).value;
      Merged(p.sent, other.sent, r.sent) && Merged(p.received, other.received, r.received)
  {
    UnionSideMeans(p.sent, other.sent);
    UnionSideMeans(p.received, other.received);
  }

  lemma UnionSideMeans(side: Side, other: Side)
    ensures UnionSide(side, other).Some? <==> Mergeable(side, other)
    ensures UnionSide(side, other).Some? ==> Merged(side, other, UnionSide(side, other).value)
  {
    InBoundsMeansBelow(Difference(other.authed, side.authed), |side.data|);
    if Mergeable(side, other) {
      assert forall x :: x in Indices(Difference(other.authed, side.authed)) ==> x < |side.data|;
    } else if UnionSide(side, other).Some? {
      var x :| x in Indices(other.authed) && x !in Indices(side.authed) && x >= |side.data|;
      assert x in Indices(Difference(other.authed, side.authed));
    }
  }

  /** A side with a part written over it and authenticated; nothing else changes. */
  ghost predicate Written(side: Side, part: Subsequence, r: Side) {
    && Indices(r.authed) == Indices(side.authed) + Indices(part.idx)
    && |r.data| == |side.data| && InBounds(part.idx, |side.data|)
    && IndexRanges(r.data, part.idx) == part.data
    && forall x :: 0 <= x < |side.data| && x !in Indices(part.idx) ==> r.data[x] == side.data[x]
  }

  /** `union_subsequence`: when it panics, and otherwise all that becomes of both directions. */
  lemma SubsequenceMeans(p: Partial, direction: Direction, part: Subsequence)
    ensures var r := UnionSubsequence(p, direction, part);
      && (r.Some? <==> forall x :: x in Indices(part.idx) ==>
            x < if direction.Sent? then |p.sent.data| else |p.received.data|)
      && (r.Some? && direction.Sent? ==> Written(p.sent, part, r.value.sent) && r.value.received == p.received)
      && (r.Some? && direction.Received? ==> Written(p.received, part, r.value.received) && r.value.sent == p.sent)
  {
    var side := p.At(direction);
    InBoundsMeansBelow(part.idx, |side.data|);
    if InBounds(part.idx, |side.data|) {
      ScatterElsewhere(side.data, part.idx, part.data);
      GatherScattered(side.data, part.idx, part.data);
    }
  }

  /** A side whose gaps among some indices have been filled. */
  ghost predicate Masked(side: Side, lo: nat, hi: nat, value: byte, r: Side) {
    && r.authed == side.authed && |r.data| == |side.data|
    && forall x :: 0 <= x < |side.data| ==>
         r.data[x] == if lo <= x < hi && x !in Indices(side.authed) then value else side.data[x]
  }

  /** `set_unauthed` and `set_unauthed_range`: exactly the gaps take the value, in both directions or in one. */
  lemma MaskMeans(p: Partial, value: byte, direction: Direction, lo: nat, hi: nat)
    ensures var r := SetUnauthed(p, value);
      && Masked(p.sent, 0, |p.sent.data|, value, r.sent)
      && Masked(p.received, 0, |p.received.data|, value, r.received)
    ensures var r := SetUnauthedRange(p, value, direction, lo, hi);
      && (r.Some? && direction.Sent? ==>
            Masked(p.sent, lo, hi, value, r.value.sent) && r.value.received == p.received)
      && (r.Some? && direction.Received? ==>
            Masked(p.received, lo, hi, value, r.value.received) && r.value.sent == p.sent)
  {
    assert forall x :: 0 <= x < |p.sent.data| ==> x in RangeIndices(Range(0, |p.sent.data|));
    assert forall x :: 0 <= x < |p.received.data| ==> x in RangeIndices(Range(0, |p.received.data|));
    assert forall x :: lo <= x < hi ==> x in RangeIndices(Range(lo, hi));
  }

  // ----- Runs

  /** The side holds the data's own bytes wherever it is authenticated. */
  ghost predicate AuthenticSide(data: seq<byte>, side: Side) {
    && |side.data| == |data|
    && InBounds(side.authed, |data|)
    && forall x :: x in Indices(side.authed) ==> x < |data| && side.data[x] == data[x]
  }

  ghost predicate Authentic(t: Transcript, p: Partial) {
    AuthenticSide(t.sent, p.sent) && AuthenticSide(t.received, p.received)
  }

  /** What may be done to a partial transcript with parts of one transcript. */
  datatype Op =
    | MergePartial(sentIdx: RangeSet, receivedIdx: RangeSet)
    | MergeSubsequence(direction: Direction, idx: RangeSet)
    | MaskAll(value: byte)
    | MaskRange(value: byte, direction: Direction, lo: nat, hi: nat)

  /** One operation; `None` when it panics, or when the part it merges does not exist. */
  ghost function Step(t: Transcript, p: Partial, op: Op): Option<Partial> {
    match op
    case MergePartial(sentIdx, receivedIdx) =>
      (match ToPartial(t, sentIdx, receivedIdx) case None => None case Some(other) => UnionTranscript(p, other))
    case MergeSubsequence(direction, idx) =>
      (match Get(t, direction, idx) case None => None case Some(part) => UnionSubsequence(p, direction, part))
    case MaskAll(value) => Some(SetUnauthed(p, value))
    case MaskRange(value, direction, lo, hi) => SetUnauthedRange(p, value, direction, lo, hi)
  }

  ghost function RunOps(t: Transcript, p: Partial, ops: seq<Op>): Option<Partial>
    decreases |ops|
  {
    if ops == [] then Some(p)
    else
      match Step(t, p, ops[0])
      case None => None
      case Some(q) => RunOps(t, q, ops[1..])
  }

  ghost predicate Grows(p: Partial, q: Partial) {
    Indices(p.sent.authed) <= Indices(q.sent.authed) && Indices(p.received.authed) <= Indices(q.received.authed)
  }

  /** The indices an operation touches lie in the transcript. */
  ghost predicate StaysInside(t: Transcript, p: Partial, op: Op) {
    match op
    case MergePartial(sentIdx, receivedIdx) => InBounds(sentIdx, |t.sent|) && InBounds(receivedIdx, |t.received|)
    case MergeSubsequence(direction, idx) => InBounds(idx, |t.Data(direction)|)
    case MaskAll(_) => true
    case MaskRange(_, direction, lo, hi) =>
      forall x: nat {:trigger x in Indices(p.At(direction).authed)} ::
        lo <= x < hi && x !in Indices(p.At(direction).authed) ==> x < |t.Data(direction)|
  }

  /** Merging or masking panics exactly when it would leave the transcript. */
  lemma StepPanics(t: Transcript, p: Partial, op: Op)
    requires Authentic(t, p)
    ensures Step(t, p, op).Some? <==> StaysInside(t, p, op)
  {
    match op
    case MergePartial(sentIdx, receivedIdx) =>
      if StaysInside(t, p, op) {
        UnionKeepsAuthentic(t.sent, p.sent, sentIdx);
        UnionKeepsAuthentic(t.received, p.received, receivedIdx);
      }
    case MergeSubsequence(direction, idx) =>
    case MaskAll(_) =>
    case MaskRange(_, direction, lo, hi) =>
      var authed := Indices(p.At(direction).authed);
      var at := Difference(FromRange(lo, hi), p.At(direction).authed);
      InBoundsMeansBelow(at, |t.Data(direction)|);
      if Step(t, p, op).Some? {
        forall x: nat | lo <= x < hi && x !in authed ensures x < |t.Data(direction)| {
          assert x in RangeIndices(Range(lo, hi));
          assert x in Indices(at);
        }
      } else {
        var x :| x in Indices(at) && x >= |t.Data(direction)|;
        assert lo <= x < hi && x !in authed;
      }
  }

  lemma OpenedIsAuthentic(data: seq<byte>, idx: RangeSet)
    requires InBounds(idx, |data|)
    ensures AuthenticSide(data, Opened(data, idx).value)
  {
    InBoundsMeansBelow(idx, |data|);
  }

  lemma UnionKeepsAuthentic(data: seq<byte>, side: Side, idx: RangeSet)
    requires AuthenticSide(data, side) && InBounds(idx, |data|)
    ensures var r := UnionSide(side, Opened(data, idx).value);
      r.Some? && AuthenticSide(data, r.value) && Indices(r.value.authed) == Indices(side.authed) + Indices(idx)
  {
    OpenedIsAuthentic(data, idx);
    InBoundsMeansBelow(idx, |data|);
    InBoundsMeansBelow(side.authed, |data|);
    InBoundsMeansBelow(Difference(idx, side.authed), |data|);
    InBoundsMeansBelow(Union(side.authed, idx), |data|);
  }

  lemma SubsequenceKeepsAuthentic(data: seq<byte>, side: Side, idx: RangeSet)
    requires AuthenticSide(data, side) && InBounds(idx, |data|)
    ensures AuthenticSide(data, Side(Scatter(side.data, idx, IndexRanges(data, idx)), Union(side.authed, idx)))
  {
    ScatterGathered(side.data, idx, data);
    InBoundsMeansBelow(idx, |data|);
    InBoundsMeansBelow(side.authed, |data|);
    InBoundsMeansBelow(Union(side.authed, idx), |data|);
  }

  lemma FillKeepsAuthentic(data: seq<byte>, side: Side, at: RangeSet, value: byte)
    requires AuthenticSide(data, side) && Indices(at) !! Indices(side.authed)
    ensures AuthenticSide(data, FillSide(side, at, value))
  {
  }

  lemma StepKeeps(t: Transcript, p: Partial, op: Op)
    requires Authentic(t, p) && Step(t, p, op).Some?
    ensures Authentic(t, Step(t, p, op).value) && Grows(p, Step(t, p, op).value)
  {
    match op
    case MergePartial(sentIdx, receivedIdx) =>
      UnionKeepsAuthentic(t.sent, p.sent, sentIdx);
      UnionKeepsAuthentic(t.received, p.received, receivedIdx);
    case MergeSubsequence(direction, idx) =>
      SubsequenceKeepsAuthentic(t.Data(direction), p.At(direction), idx);
    case MaskAll(value) =>
      FillKeepsAuthentic(t.sent, p.sent, Unauthed(p.sent), value);
      FillKeepsAuthentic(t.received, p.received, Unauthed(p.received), value);
    case MaskRange(value, direction, lo, hi) =>
      FillKeepsAuthentic(t.Data(direction), p.At(direction), Difference(FromRange(lo, hi), p.At(direction).authed),
                         value);
  }

  /**
   However a partial transcript is merged and masked, its lengths stay the transcript's, what is
   authenticated stays in bounds, only grows, and reads exactly as in the transcript.
   */
  lemma {:induction false} RunKeeps(t: Transcript, p: Partial, ops: seq<Op>)
    requires Authentic(t, p) && RunOps(t, p, ops).Some?
    ensures Authentic(t, RunOps(t, p, ops).value) && Grows(p, RunOps(t, p, ops).value)
    decreases |ops|
  {
    if ops != [] {
      StepKeeps(t, p, ops[0]);
      RunKeeps(t, Step(t, p, ops[0]).value, ops[1..]);
    }
  }

  /** The indices that operations merge in a direction. */
  ghost function MergedBy(ops: seq<Op>, direction: Direction): set<nat> {
    if ops == [] then {} else MergedByOne(ops[0], direction) + MergedBy(ops[1..], direction)
  }

  ghost function MergedByOne(op: Op, direction: Direction): set<nat> {
    match op
    case MergePartial(sentIdx, receivedIdx) => Indices(if direction.Sent? then sentIdx else receivedIdx)
    case MergeSubsequence(d, idx) => if d == direction then Indices(idx) else {}
    case _ => {}
  }

  /** The value that an operation masks an index with, unless the index is authenticated. */
  ghost function MaskValue(op: Op, direction: Direction, x: nat): Option<byte> {
    match op
    case MaskAll(value) => Some(value)
    case MaskRange(value, d, lo, hi) => if d == direction && lo <= x < hi then Some(value) else None
    case _ => None
  }

  /** The last of these values. */
  ghost function LastMask(ops: seq<Op>, direction: Direction, x: nat): Option<byte> {
    if ops == [] then None
    else
      var later := LastMask(ops[1..], direction, x);
      if later.Some? then later else MaskValue(ops[0], direction, x)
  }

  /** What a step leaves of a side: more indices, and other values at some of those that are not authenticated. */
  ghost predicate Effect(side: Side, after: Side, merged: set<nat>, op: Op, direction: Direction) {
    && Indices(after.authed) == Indices(side.authed) + merged
    && |after.data| == |side.data|
    && forall x :: 0 <= x < |side.data| && x !in Indices(after.authed) ==>
         after.data[x] == if MaskValue(op, direction, x).Some? then MaskValue(op, direction, x).value else side.data[x]
  }

  lemma MergeEffect(side: Side, other: Side, after: Side, op: Op, direction: Direction)
    requires Merged(side, other, after) && !op.MaskAll? && !op.MaskRange?
    ensures Effect(side, after, Indices(other.authed), op, direction)
  {
  }

  lemma WriteEffect(side: Side, part: Subsequence, after: Side, op: Op, direction: Direction)
    requires Written(side, part, after) && !op.MaskAll? && !op.MaskRange?
    ensures Effect(side, after, Indices(part.idx), op, direction)
  {
    hide IndexRanges, InBounds, Len;
  }

  lemma NoEffect(side: Side, op: Op, direction: Direction)
    requires forall x :: 0 <= x < |side.data| ==> MaskValue(op, direction, x).None?
    ensures Effect(side, side, {}, op, direction)
  {
  }

  lemma MaskEffect(side: Side, after: Side, op: Op, direction: Direction, lo: nat, hi: nat, value: byte)
    requires Masked(side, lo, hi, value, after)
    requires op == MaskRange(value, direction, lo, hi) || (op == MaskAll(value) && lo == 0 && hi == |side.data|)
    ensures Effect(side, after, {}, op, direction)
  {
  }

  /** What one operation leaves of a direction. */
  lemma StepIsExact(t: Transcript, p: Partial, op: Op, direction: Direction)
    requires Authentic(t, p) && Step(t, p, op).Some?
    ensures Effect(p.At(direction), Step(t, p, op).value.At(direction), MergedByOne(op, direction), op, direction)
  {
    hide UnionTranscript, UnionSubsequence, SetUnauthed, SetUnauthedRange, Effect, Merged, Written, Masked,
         AuthenticSide, Opened, InBounds, IndexRanges, Len;
    var side, after := p.At(direction), Step(t, p, op).value.At(direction);
    match op
    case MergePartial(sentIdx, receivedIdx) =>
      var other := ToPartial(t, sentIdx, receivedIdx).value;
      UnionMeans(p, other);
      OpenedIndices(t.sent, sentIdx);
      OpenedIndices(t.received, receivedIdx);
      MergeEffect(side, other.At(direction), after, op, direction);
    case MergeSubsequence(d, idx) =>
      var part := Get(t, d, idx).value;
      SubsequenceMeans(p, d, part);
      if d == direction { WriteEffect(side, part, after, op, direction); } else { NoEffect(side, op, direction); }
    case MaskAll(value) =>
      MaskMeans(p, value, direction, 0, 0);
      MaskEffect(side, after, op, direction, 0, |side.data|, value);
    case MaskRange(value, d, lo, hi) =>
      MaskMeans(p, value, d, lo, hi);
      if d == direction {
        MaskEffect(side, after, op, direction, lo, hi, value);
      } else {
        NoEffect(side, op, direction);
      }
  }

  lemma OpenedIndices(data: seq<byte>, idx: RangeSet)
    ensures Opened(data, idx).Some? ==> Opened(data, idx).value.authed == idx
  {
  }

  /**
   Every run, exactly: what is authenticated at its end is what was at its start and everything merged, and
   reads as in the transcript. Every other byte is the last value it was masked with, or else what it was.
   */
  lemma {:induction false} RunIsExact(t: Transcript, p: Partial, ops: seq<Op>, direction: Direction)
    requires Authentic(t, p) && RunOps(t, p, ops).Some?
    ensures var side, after, data := p.At(direction), RunOps(t, p, ops).value.At(direction), t.Data(direction);
      && Indices(after.authed) == Indices(side.authed) + MergedBy(ops, direction)
      && |after.data| == |side.data| == |data|
      && forall x :: 0 <= x < |data| ==>
           after.data[x] ==
             if x in Indices(after.authed) then data[x]
             else if LastMask(ops, direction, x).Some? then LastMask(ops, direction, x).value
             else side.data[x]
    decreases |ops|
  {
    hide Step, MaskValue, MergedByOne, InBounds;
    RunKeeps(t, p, ops);
    if ops != [] {
      var next := Step(t, p, ops[0]).value;
      StepKeeps(t, p, ops[0]);
      StepIsExact(t, p, ops[0], direction);
      RunIsExact(t, next, ops[1..], direction);
    }
  }

  lemma {:induction false} FullSubset(a: set<nat>, b: set<nat>)
    requires a <= b && |a| == |b|
    ensures a == b
  {
    var rest := b - a;
    assert b == a + rest;
  }

  /** The number of authenticated indices tells completeness only because they are in bounds. */
  lemma FullSide(data: seq<byte>, side: Side)
    requires AuthenticSide(data, side)
    ensures Len(side.authed) == |side.data| <==> Unauthed(side) == []
    ensures Unauthed(side) == [] ==> side.data == data
  {
    hide Len, Difference, Canonical, InBounds, FromRange, AuthenticSide;
    AuthenticInBounds(data, side);
    var all := RangeIndices(Range(0, |data|));
    LenIsCardinality(side.authed);
    RangeCardinality(0, |data|);
    GapsOf(side);
    if Len(side.authed) == |data| { FullSubset(Indices(side.authed), all); }
    if Unauthed(side) == [] { NoGapsNoDifference(data, side); }
  }

  lemma GapsOf(side: Side)
    ensures Unauthed(side) == [] <==> RangeIndices(Range(0, |side.data|)) <= Indices(side.authed)
  {
    NonEmpty(Unauthed(side));
    assert Indices([]) == {};
  }

  lemma AuthenticInBounds(data: seq<byte>, side: Side)
    requires AuthenticSide(data, side)
    ensures |side.data| == |data| && forall x :: x in Indices(side.authed) ==> x < |data|
  {
  }

  lemma NoGapsNoDifference(data: seq<byte>, side: Side)
    requires AuthenticSide(data, side) && Unauthed(side) == []
    ensures side.data == data
  {
    hide Difference, FromRange, InBounds;
    forall x: nat | x < |data| ensures side.data[x] == data[x] {
      assert x in RangeIndices(Range(0, |data|));
      assert x !in Indices(Unauthed(side));
    }
  }

  /** `is_complete` holds exactly when nothing is left unauthenticated, and then the data is the transcript. */
  lemma CompleteMeansAll(t: Transcript, p: Partial)
    requires Authentic(t, p)
    ensures IsComplete(p) <==> Unauthed(p.sent) == [] && Unauthed(p.received) == []
    ensures IsComplete(p) ==> p.sent.data == t.sent && p.received.data == t.received
  {
    FullSide(t.sent, p.sent);
    FullSide(t.received, p.received);
  }

  /** As many indices as bytes leave no gap exactly when they are all in bounds. */
  lemma CountedSide(side: Side)
    requires Len(side.authed) == |side.data|
    ensures Unauthed(side) == [] <==> InBounds(side.authed, |side.data|)
    ensures InBounds(side.authed, |side.data|) <==> Indices(side.authed) == RangeIndices(Range(0, |side.data|))
  {
    hide Len, Difference, Canonical;
    var all := RangeIndices(Range(0, |side.data|));
    LenIsCardinality(side.authed);
    RangeCardinality(0, |side.data|);
    InBoundsMeansBelow(side.authed, |side.data|);
    NonEmpty(Unauthed(side));
    if InBounds(side.authed, |side.data|) {
      FullSubset(Indices(side.authed), all);
    }
    if Unauthed(side) == [] {
      assert all <= Indices(side.authed);
      FullSubset(all, Indices(side.authed));
    }
  }

  /**
   However a partial transcript was made, being complete means that nothing is unauthenticated exactly when
   its indices are in bounds, which is what `contains` tests. In bounds and complete, every index is authenticated.
   */
  lemma CompleteIffInBounds(p: Partial)
    requires IsComplete(p)
    ensures var inBounds := InBounds(p.sent.authed, |p.sent.data|) && InBounds(p.received.authed, |p.received.data|);
      && (inBounds <==> Unauthed(p.sent) == [] && Unauthed(p.received) == [])
      && (inBounds <==>
            && Indices(p.sent.authed) == RangeIndices(Range(0, |p.sent.data|))
            && Indices(p.received.authed) == RangeIndices(Range(0, |p.received.data|)))
  {
    hide Unauthed, InBounds, Indices;
    CountedSide(p.sent);
    CountedSide(p.received);
  }

  /** Built with indices outside its data, a partial transcript is called complete with nothing authenticated. */
  lemma CompleteOutOfBounds()
    ensures var p := Partial(Side([7], FromRange(1, 2)), Side([], []));
      IsComplete(p) && Unauthed(p.sent) != []
  {
    var authed := FromRange(1, 2);
    assert authed == [Range(1, 2)];
    assert 0 in RangeIndices(Range(0, 1));
    assert Indices(Unauthed(Side([7], authed))) != {};
  }

  // ----- Merging

  lemma OpenedUnion(data: seq<byte>, a: RangeSet, b: RangeSet)
    requires InBounds(a, |data|) && InBounds(b, |data|)
    ensures InBounds(Union(a, b), |data|)
    ensures UnionSide(Opened(data, a).value, Opened(data, b).value) == Opened(data, Union(a, b))
  {
    OpenedIsAuthentic(data, a);
    UnionKeepsAuthentic(data, Opened(data, a).value, b);
    var merged := Paste(Opened(data, a).value.data, Indices(b) - Indices(a), Opened(data, b).value.data);
    assert merged == Paste(Zeros(|data|), Indices(Union(a, b)), data);
  }

  /** Merging two disclosures of one transcript is disclosing the union, byte for byte. */
  lemma MergeIsUnion(t: Transcript, s1: RangeSet, r1: RangeSet, s2: RangeSet, r2: RangeSet)
    requires ToPartial(t, s1, r1).Some? && ToPartial(t, s2, r2).Some?
    ensures UnionTranscript(ToPartial(t, s1, r1).value, ToPartial(t, s2, r2).value)
       == ToPartial(t, Union(s1, s2), Union(r1, r2))
    ensures ToPartial(t, Union(s1, s2), Union(r1, r2)).Some?
  {
    OpenedUnion(t.sent, s1, s2);
    OpenedUnion(t.received, r1, r2);
  }

  datatype Disclosure = Disclosure(sentIdx: RangeSet, receivedIdx: RangeSet)

  /** The merge of `p` with disclosures, one after the other. */
  ghost function MergeAll(t: Transcript, p: Partial, disclosures: seq<Disclosure>): Option<Partial>
    decreases |disclosures|
  {
    if disclosures == [] then Some(p)
    else
      match ToPartial(t, disclosures[0].sentIdx, disclosures[0].receivedIdx)
      case None => None
      case Some(other) =>
        match UnionTranscript(p, other)
        case None => None
        case Some(q) => MergeAll(t, q, disclosures[1..])
  }

  ghost function Opens(disclosures: seq<Disclosure>, direction: Direction): set<nat> {
    if disclosures == [] then {}
    else
      Indices(if direction.Sent? then disclosures[0].sentIdx else disclosures[0].receivedIdx) +
      Opens(disclosures[1..], direction)
  }

  lemma {:induction false} MergeAllIsUnion(t: Transcript, s: RangeSet, r: RangeSet, disclosures: seq<Disclosure>)
    returns (sent: RangeSet, received: RangeSet)
    requires ToPartial(t, s, r).Some?
    requires forall k :: 0 <= k < |disclosures| ==>
      ToPartial(t, disclosures[k].sentIdx, disclosures[k].receivedIdx).Some?
    ensures MergeAll(t, ToPartial(t, s, r).value, disclosures) == ToPartial(t, sent, received)
    ensures ToPartial(t, sent, received).Some?
    ensures Indices(sent) == Indices(s) + Opens(disclosures, Direction.Sent)
    ensures Indices(received) == Indices(r) + Opens(disclosures, Received)
    decreases |disclosures|
  {
    hide ToPartial, UnionTranscript;
    if disclosures == [] {
      sent, received := s, r;
    } else {
      var d := disclosures[0];
      MergeIsUnion(t, s, r, d.sentIdx, d.receivedIdx);
      sent, received := MergeAllIsUnion(t, Union(s, d.sentIdx), Union(r, d.receivedIdx), disclosures[1..]);
    }
  }

  /**
   Merging is commutative, associative and idempotent all at once: two lists of disclosures of one
   transcript that open the same indices merge to the same partial transcript, in whatever order and
   however often they open them.
   */
  lemma MergeOrderIsIrrelevant(t: Transcript, a: seq<Disclosure>, b: seq<Disclosure>)
    requires forall k :: 0 <= k < |a| ==> ToPartial(t, a[k].sentIdx, a[k].receivedIdx).Some?
    requires forall k :: 0 <= k < |b| ==> ToPartial(t, b[k].sentIdx, b[k].receivedIdx).Some?
    requires Opens(a, Direction.Sent) == Opens(b, Direction.Sent) && Opens(a, Received) == Opens(b, Received)
    ensures ToPartial(t, [], []).Some?
    ensures MergeAll(t, ToPartial(t, [], []).value, a) == MergeAll(t, ToPartial(t, [], []).value, b)
    ensures MergeAll(t, ToPartial(t, [], []).value, a).Some?
  {
    var s1, r1 := MergeAllIsUnion(t, [], [], a);
    var s2, r2 := MergeAllIsUnion(t, [], [], b);
    CanonicalUnique(s1, s2);
    CanonicalUnique(r1, r2);
  }

  // ----- Masking

  /** The two sides disclose the same thing. */
  ghost predicate SameDisclosure(a: Side, b: Side) {
    && |a.data| == |b.data| && a.authed == b.authed
    && forall x :: x in Indices(a.authed) && x < |a.data| ==> a.data[x] == b.data[x]
  }

  lemma MaskedSidesEqual(a: Side, b: Side, value: byte)
    requires SameDisclosure(a, b)
    ensures FillSide(a, Unauthed(a), value) == FillSide(b, Unauthed(b), value)
  {
    assert Fill(a.data, Indices(Unauthed(a)), value) == Fill(b.data, Indices(Unauthed(b)), value);
  }

  /** What is parsed after masking depends on the disclosed bytes only. */
  lemma MaskingIsNonInterfering(p: Partial, q: Partial, value: byte)
    requires SameDisclosure(p.sent, q.sent) && SameDisclosure(p.received, q.received)
    ensures SetUnauthed(p, value) == SetUnauthed(q, value)
  {
    MaskedSidesEqual(p.sent, q.sent, value);
    MaskedSidesEqual(p.received, q.received, value);
  }

  datatype Mask = Mask(direction: Direction, lo: nat, hi: nat)

  ghost function RunMasks(p: Partial, value: byte, masks: seq<Mask>): Option<Partial>
    decreases |masks|
  {
    if masks == [] then Some(p)
    else
      match SetUnauthedRange(p, value, masks[0].direction, masks[0].lo, masks[0].hi)
      case None => None
      case Some(q) => RunMasks(q, value, masks[1..])
  }

  ghost function MaskedBy(masks: seq<Mask>, direction: Direction): set<nat> {
    if masks == [] then {}
    else
      (if masks[0].direction == direction then RangeIndices(Range(masks[0].lo, masks[0].hi)) else {}) +
      MaskedBy(masks[1..], direction)
  }

  lemma {:induction false} RunMasksFills(p: Partial, value: byte, masks: seq<Mask>, direction: Direction)
    requires RunMasks(p, value, masks).Some?
    ensures var side, q := p.At(direction), RunMasks(p, value, masks).value;
      q.At(direction) == Side(Fill(side.data, MaskedBy(masks, direction) - Indices(side.authed), value), side.authed)
    decreases |masks|
  {
    var side := p.At(direction);
    if masks == [] {
      assert Fill(side.data, {}, value) == side.data;
    } else {
      var next := SetUnauthedRange(p, value, masks[0].direction, masks[0].lo, masks[0].hi).value;
      RunMasksFills(next, value, masks[1..], direction);
      var first := if masks[0].direction == direction then RangeIndices(Range(masks[0].lo, masks[0].hi)) else {};
      var authed := Indices(side.authed);
      FillUnion(side.data, first - authed, MaskedBy(masks[1..], direction) - authed, value);
      assert (first - authed) + (MaskedBy(masks[1..], direction) - authed) == MaskedBy(masks, direction) - authed;
      if masks[0].direction != direction { assert Fill(side.data, {}, value) == side.data; }
    }
  }

  /** Masking ranges that together cover a partial transcript is masking all of it. */
  lemma CoveringMasksMaskAll(p: Partial, value: byte, masks: seq<Mask>)
    requires RunMasks(p, value, masks).Some?
    requires forall x :: x in Indices(Unauthed(p.sent)) ==> x in MaskedBy(masks, Direction.Sent)
    requires forall x :: x in Indices(Unauthed(p.received)) ==> x in MaskedBy(masks, Received)
    ensures RunMasks(p, value, masks) == Some(SetUnauthed(p, value))
  {
    RunMasksFills(p, value, masks, Direction.Sent);
    RunMasksFills(p, value, masks, Received);
    var q := RunMasks(p, value, masks).value;
    assert q.sent.data == SetUnauthed(p, value).sent.data;
    assert q.received.data == SetUnauthed(p, value).received.data;
  }

  // ----- Compression

  /** A compressed form that passes validation decompresses to something that compresses back to it. */
  lemma DecompressThenCompress(c: Compressed)
    requires Validate(c).Accepted?
    ensures Compress(Decompress(c)) == Some(c)
  {
    GatherScattered(Zeros(c.sentTotal), c.sentIdx, c.sentAuthed);
    GatherScattered(Zeros(c.receivedTotal), c.receivedIdx, c.receivedAuthed);
  }

  /** Compressing panics exactly when an authenticated index is outside its data. */
  lemma CompressPanics(p: Partial)
    ensures Compress(p).None? <==>
      || (exists x :: x in Indices(p.sent.authed) && x >= |p.sent.data|)
      || (exists x :: x in Indices(p.received.authed) && x >= |p.received.data|)
  {
    InBoundsMeansBelow(p.sent.authed, |p.sent.data|);
    InBoundsMeansBelow(p.received.authed, |p.received.data|);
  }

  /** Validation accepts exactly what compressing yields, and says what is wrong with anything else. */
  lemma ValidationMeans(c: Compressed)
    ensures Validate(c).Accepted? <==> exists p: Partial :: Compress(p) == Some(c)
    ensures Validate(c).LengthMismatch? <==>
      |c.sentAuthed| != |Indices(c.sentIdx)| || |c.receivedAuthed| != |Indices(c.receivedIdx)|
    ensures Validate(c).OutOfBounds? ==>
      || (exists x :: x in Indices(c.sentIdx) && x >= c.sentTotal)
      || (exists x :: x in Indices(c.receivedIdx) && x >= c.receivedTotal)
  {
    LenIsCardinality(c.sentIdx);
    LenIsCardinality(c.receivedIdx);
    InBoundsMeansBelow(c.sentIdx, c.sentTotal);
    InBoundsMeansBelow(c.receivedIdx, c.receivedTotal);
    if Validate(c).Accepted? {
      DecompressThenCompress(c);
    }
    if p: Partial :| Compress(p) == Some(c) {
      CompressedIsValid(p);
    }
  }

  lemma CompressedIsValid(p: Partial)
    requires Compress(p).Some?
    ensures Validate(Compress(p).value).Accepted?
  {
  }

  lemma DecompressedSide(side: Side)
    requires InBounds(side.authed, |side.data|)
    ensures Scatter(Zeros(|side.data|), side.authed, IndexRanges(side.data, side.authed))
         == Fill(side.data, Indices(Unauthed(side)), 0)
  {
    ScatterGathered(Zeros(|side.data|), side.authed, side.data);
    forall x: nat | x < |side.data|
      ensures x in Indices(Unauthed(side)) <==> x !in Indices(side.authed)
    {
      assert x in RangeIndices(Range(0, |side.data|));
    }
    assert Paste(Zeros(|side.data|), Indices(side.authed), side.data) == Fill(side.data, Indices(Unauthed(side)), 0);
  }

  ghost predicate ZeroUnauthed(side: Side) {
    forall x :: x in Indices(Unauthed(side)) && x < |side.data| ==> side.data[x] == 0
  }

  /**
   Compressing and decompressing zeroes exactly what is not authenticated; nothing is lost if and only
   if it was zero already.
   */
  lemma CompressThenDecompress(p: Partial)
    requires Compress(p).Some?
    ensures Validate(Compress(p).value).Accepted?
    ensures Decompress(Compress(p).value) == SetUnauthed(p, 0)
    ensures Decompress(Compress(p).value) == p <==> ZeroUnauthed(p.sent) && ZeroUnauthed(p.received)
  {
    DecompressedSide(p.sent);
    DecompressedSide(p.received);
    ZeroMeansSame(p.sent);
    ZeroMeansSame(p.received);
  }

  lemma ZeroMeansSame(side: Side)
    ensures FillSide(side, Unauthed(side), 0) == side <==> ZeroUnauthed(side)
  {
    if ZeroUnauthed(side) { assert Fill(side.data, Indices(Unauthed(side)), 0) == side.data; }
  }
}
