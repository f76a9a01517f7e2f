/**
 Selective disclosure of a JSON text: commit its structure, open some leaves, mask everything else and
 parse again.
 */
module Disclosure {
  import opened RangeSets
  import opened Wire
  import opened JsonTree
  import opened JsonParser
  import opened JsonNesting
  import opened JsonCommit
  import opened JsonPartition
  import opened JsonDisclosure
  import JsonOffset
  import JsonLocality
  import Transcripts

  /** The indices of every leaf that is among the shown ones. */
  ghost function Shown(v: JsonValue, shown: set<JsonValue>): set<nat> {
    match v
    case Array(_, values) => ShownInValues(values, shown)
    case Object(_, pairs) => ShownInPairs(pairs, shown)
    case _ => if v in shown then Indices(v.span.indices) else {}
  }

  ghost function ShownInValues(values: seq<JsonValue>, shown: set<JsonValue>): set<nat>
    decreases values
  {
    if values == [] then {} else Shown(values[0], shown) + ShownInValues(values[1..], shown)
  }

  ghost function ShownInPairs(pairs: seq<KeyValue>, shown: set<JsonValue>): set<nat>
    decreases pairs
  {
    if pairs == [] then {} else ShownInPair(pairs[0], shown) + ShownInPairs(pairs[1..], shown)
  }

  ghost function ShownInPair(kv: KeyValue, shown: set<JsonValue>): set<nat> { Shown(kv.value, shown) }

  /** Each index of a leaf is shown or hidden, and not both. */
  lemma {:induction false} ShownOrHidden(v: JsonValue, shown: set<JsonValue>)
    requires WellNested(v)
    ensures Shown(v, shown) !! Hidden(v, shown)
    ensures Shown(v, shown) + Hidden(v, shown) == LeafIndices(v)
    ensures LeafIndices(v) <= Indices(v.span.indices)
    decreases v
  {
    HiddenInSpan(v, {});
    match v
    case Array(span, values) =>
      ShownOrHiddenInValues(values, shown, span.indices[0].start + 1, span.indices[0].end - 1);
    case Object(span, pairs) =>
      ShownOrHiddenInPairs(pairs, shown, span.indices[0].start + 1, span.indices[0].end - 1);
    case _ =>
  }

  lemma {:induction false} ShownOrHiddenInValues(values: seq<JsonValue>, shown: set<JsonValue>, lo: nat, hi: nat)
    requires ValuesNested(values, lo, hi)
    ensures ShownInValues(values, shown) !! HiddenInValues(values, shown)
    ensures ShownInValues(values, shown) + HiddenInValues(values, shown) == HiddenInValues(values, {})
    ensures HiddenInValues(values, {}) <= ValueSpans(values)
    decreases values
  {
    if values != [] {
      ShownOrHidden(values[0], shown);
      ShownOrHiddenInValues(values[1..], shown, lo, hi);
      ValueSpansApart(Indices(values[0].span.indices), values[1..]);
    }
  }

  lemma {:induction false} ShownOrHiddenInPairs(pairs: seq<KeyValue>, shown: set<JsonValue>, lo: nat, hi: nat)
    requires PairsNested(pairs, lo, hi)
    ensures ShownInPairs(pairs, shown) !! HiddenInPairs(pairs, shown)
    ensures ShownInPairs(pairs, shown) + HiddenInPairs(pairs, shown) == HiddenInPairs(pairs, {})
    ensures HiddenInPairs(pairs, {}) <= PairSpans(pairs)
    decreases pairs
  {
    if pairs != [] {
      ShownOrHiddenInPair(pairs[0], shown);
      ShownOrHiddenInPairs(pairs[1..], shown, lo, hi);
      PairSpansApart(Indices(pairs[0].span.indices), pairs[1..]);
    }
  }

  lemma {:induction false} ShownOrHiddenInPair(kv: KeyValue, shown: set<JsonValue>)
    requires PairNested(kv)
    ensures ShownInPair(kv, shown) !! HiddenInPair(kv, shown)
    ensures ShownInPair(kv, shown) + HiddenInPair(kv, shown) == HiddenInPair(kv, {})
    ensures HiddenInPair(kv, {}) <= Indices(kv.span.indices)
    decreases kv
  {
    ShownOrHidden(kv.value, shown);
  }

  /** Masking hidden leaves of the root, and anything after the root, masks the parsed tree and nothing else. */
  lemma MaskedRootParses(src: seq<byte>, m: seq<byte>, shown: set<JsonValue>)
    requires Parse(src).Some? && Parse(src).value.Container() && |m| == |src|
    requires Masked(src, m, Hidden(Parse(src).value, shown), 0, Value(src, 0).end)
    ensures Parse(m) == Some(Redact(Parse(src).value, shown, m))
  {
    hide Value;
    ValueFollows(src, m, m, 0, 0, shown);
    JsonOffset.OffsetAdds(Value(m, 0).node, 0, 0);
  }

  /** Structure and shown leaves are all of the root but the hidden leaves. */
  lemma KeptIsNotHidden(v: JsonValue, shown: set<JsonValue>)
    requires WellNested(v)
    ensures Covered(StructureSteps(v)) + Shown(v, shown) == Indices(v.span.indices) - Hidden(v, shown)
  {
    hide Shown, Hidden, StructureSteps, Covered, LeafIndices;
    StructurePartition(v);
    ShownOrHidden(v, shown);
  }

  /** What a verifier parses when the prover opens the indices `keep` of what was received. */
  ghost function MaskedReceived(t: Transcripts.Transcript, sentKeep: RangeSet, keep: RangeSet): seq<byte>
    requires InBounds(sentKeep, |t.sent|) && InBounds(keep, |t.received|)
  {
    Transcripts.SetUnauthed(Transcripts.ToPartial(t, sentKeep, keep).value, STAR).received.data
  }

  /**
   Selective disclosure preserves meaning. Whatever object or array was received, and whichever of its
   leaves are shown: opening the bytes `commit_structure` commits and the spans of the shown leaves,
   masking the rest with stars and parsing again gives the same tree, span by span and key by key,
   in which exactly the leaves not shown are masked.
   */
  lemma SelectiveDisclosure(t: Transcripts.Transcript, sentKeep: RangeSet, keep: RangeSet, shown: set<JsonValue>)
    requires Parse(t.received).Some? && Parse(t.received).value.Container()
    requires var v := Parse(t.received).value;
      Indices(keep) == Covered(StructureSteps(v)) + Shown(v, shown)
    requires InBounds(sentKeep, |t.sent|)
    ensures InBounds(keep, |t.received|)
    ensures var m := MaskedReceived(t, sentKeep, keep);
      Parse(m) == Some(Redact(Parse(t.received).value, shown, m))
  {
    hide Value, Hidden, Shown, Redact, WellNested, Partition, Faithful, StructureSteps, Covered, LeafIndices;
    var src := t.received;
    var v, e := Value(src, 0).node, Value(src, 0).end;
    ParsedTreeNested(src);
    JsonLocality.ValueSpan(src, 0);
    assert Indices(v.span.indices) == RangeIndices(Range(0, e));
    KeptIsNotHidden(v, shown);
    assert Indices(keep) == RangeIndices(Range(0, e)) - Hidden(v, shown);
    InBoundsMeansBelow(keep, |src|);
    var m := MaskedReceived(t, sentKeep, keep);
    forall p | 0 <= p < e ensures m[p] == if p in Hidden(v, shown) then STAR else src[p] {
      assert p in RangeIndices(Range(0, e)) && p in RangeIndices(Range(0, |src|));
    }
    MaskedRootParses(src, m, shown);
  }
}
