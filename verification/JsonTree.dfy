/** The tree of spans a JSON source is parsed into, and the parts of it that are committed. */
module JsonTree {
  import opened RangeSets
  import opened Wire

  /** Source bytes together with the indices they came from. */
  datatype Span = Span(data: seq<byte>, indices: RangeSet)

  datatype JsonValue =
    | Null(span: Span)
    | Bool(span: Span)
    | Number(span: Span)
    | String(span: Span)
    | Redacted(span: Span)
    | Array(span: Span, values: seq<JsonValue>)
    | Object(span: Span, pairs: seq<KeyValue>)
  {
    /** An object or an array: a node that has structure to commit. */
    predicate Container() { Array? || Object? }
  }

  datatype KeyValue = KeyValue(span: Span, key: Span, value: JsonValue)

  function NewSpan(src: seq<byte>, lo: nat, hi: nat): Span
    requires lo <= hi <= |src|
  {
    Span(src[lo..hi], FromRange(lo, hi))
  }

  // ----- Shifting a tree

  function OffsetSpan(span: Span, n: nat): Span {
    Span(span.data, ShiftRight(span.indices, n))
  }

  function Offset(v: JsonValue, n: nat): JsonValue {
    match v
    case Null(span) => Null(OffsetSpan(span, n))
    case Bool(span) => Bool(OffsetSpan(span, n))
    case Number(span) => Number(OffsetSpan(span, n))
    case String(span) => String(OffsetSpan(span, n))
    case Redacted(span) => Redacted(OffsetSpan(span, n))
    case Array(span, values) => Array(OffsetSpan(span, n), OffsetValues(values, n))
    case Object(span, pairs) => Object(OffsetSpan(span, n), OffsetPairs(pairs, n))
  }

  function OffsetValues(values: seq<JsonValue>, n: nat): seq<JsonValue>
    decreases values
  {
    if values == [] then [] else [Offset(values[0], n)] + OffsetValues(values[1..], n)
  }

  function OffsetPair(kv: KeyValue, n: nat): KeyValue {
    KeyValue(OffsetSpan(kv.span, n), OffsetSpan(kv.key, n), Offset(kv.value, n))
  }

  function OffsetPairs(pairs: seq<KeyValue>, n: nat): seq<KeyValue>
    decreases pairs
  {
    if pairs == [] then [] else [OffsetPair(pairs[0], n)] + OffsetPairs(pairs[1..], n)
  }

  // ----- Leaves

  /** The indices of every leaf that is not among the shown ones. */
  ghost function Hidden(v: JsonValue, shown: set<JsonValue>): set<nat> {
    match v
    case Array(_, values) => HiddenInValues(values, shown)
    case Object(_, pairs) => HiddenInPairs(pairs, shown)
    case _ => if v in shown then {} else Indices(v.span.indices)
  }

  ghost function HiddenInValues(values: seq<JsonValue>, shown: set<JsonValue>): set<nat>
    decreases values
  {
    if values == [] then {} else Hidden(values[0], shown) + HiddenInValues(values[1..], shown)
  }

  ghost function HiddenInPairs(pairs: seq<KeyValue>, shown: set<JsonValue>): set<nat>
    decreases pairs
  {
    if pairs == [] then {}
    else
      HiddenInPair(pairs[0], shown) + HiddenInPairs(pairs[1..], shown)
  }

  ghost function HiddenInPair(kv: KeyValue, shown: set<JsonValue>): set<nat> {
    Hidden(kv.value, shown)
  }

  /** The indices of all leaves. */
  ghost function LeafIndices(v: JsonValue): set<nat> { Hidden(v, {}) }

  /** The value and everything below it; keys are not values. */
  ghost function Nodes(v: JsonValue): set<JsonValue> {
    match v
    case Array(_, values) => {v} + NodesInValues(values)
    case Object(_, pairs) => {v} + NodesInPairs(pairs)
    case _ => {v}
  }

  ghost function NodesInValues(values: seq<JsonValue>): set<JsonValue>
    decreases values
  {
    if values == [] then {} else Nodes(values[0]) + NodesInValues(values[1..])
  }

  ghost function NodesInPairs(pairs: seq<KeyValue>): set<JsonValue>
    decreases pairs
  {
    if pairs == [] then {} else NodesInPair(pairs[0]) + NodesInPairs(pairs[1..])
  }

  ghost function NodesInPair(kv: KeyValue): set<JsonValue> { Nodes(kv.value) }

  /** Showing every node hides nothing. */
  lemma {:induction false} NothingHiddenIn(v: JsonValue, shown: set<JsonValue>)
    requires Nodes(v) <= shown
    ensures Hidden(v, shown) == {}
    decreases v
  {
    match v
    case Array(_, values) => NothingHiddenInValues(values, shown);
    case Object(_, pairs) => NothingHiddenInPairs(pairs, shown);
    case _ =>
  }

  lemma {:induction false} NothingHiddenInValues(values: seq<JsonValue>, shown: set<JsonValue>)
    requires NodesInValues(values) <= shown
    ensures HiddenInValues(values, shown) == {}
    decreases values
  {
    if values != [] {
      NothingHiddenIn(values[0], shown);
      NothingHiddenInValues(values[1..], shown);
    }
  }

  lemma {:induction false} NothingHiddenInPairs(pairs: seq<KeyValue>, shown: set<JsonValue>)
    requires NodesInPairs(pairs) <= shown
    ensures HiddenInPairs(pairs, shown) == {}
    decreases pairs
  {
    if pairs != [] {
      NothingHiddenInPair(pairs[0], shown);
      NothingHiddenInPairs(pairs[1..], shown);
    }
  }

  lemma {:induction false} NothingHiddenInPair(kv: KeyValue, shown: set<JsonValue>)
    requires NodesInPair(kv) <= shown
    ensures HiddenInPair(kv, shown) == {}
    decreases kv
  {
    NothingHiddenIn(kv.value, shown);
  }

  // ----- Nesting

  ghost predicate Inside(s: set<nat>, lo: nat, hi: nat) {
    forall x :: x in s ==> lo <= x < hi
  }

  ghost predicate Before(a: set<nat>, b: set<nat>) {
    forall x, y :: x in a && y in b ==> x < y
  }

  /** Children lie inside their parent's brackets, in order and apart from each other. */
  ghost predicate WellNested(v: JsonValue) {
    match v
    case Array(span, values) =>
      && Bracketed(span)
      && ValuesNested(values, span.indices[0].start + 1, span.indices[0].end - 1)
    case Object(span, pairs) =>
      && Bracketed(span)
      && PairsNested(pairs, span.indices[0].start + 1, span.indices[0].end - 1)
    case String(span) => |span.indices| <= 1
    case _ => |v.span.indices| == 1
  }

  /** One range that holds at least the two brackets. */
  ghost predicate Bracketed(span: Span) {
    |span.indices| == 1 && span.indices[0].end - span.indices[0].start >= 2
  }

  ghost predicate ValuesNested(values: seq<JsonValue>, lo: nat, hi: nat)
    decreases values
  {
    && (forall k :: 0 <= k < |values| ==> WellNested(values[k]) && Inside(Indices(values[k].span.indices), lo, hi))
    && (forall j, k :: 0 <= j < k < |values| ==>
          Before(Indices(values[j].span.indices), Indices(values[k].span.indices)))
  }

  ghost predicate PairsNested(pairs: seq<KeyValue>, lo: nat, hi: nat)
    decreases pairs
  {
    && (forall k :: 0 <= k < |pairs| ==> PairNested(pairs[k]) && Inside(Indices(pairs[k].span.indices), lo, hi))
    && (forall j, k :: 0 <= j < k < |pairs| ==>
          Before(Indices(pairs[j].span.indices), Indices(pairs[k].span.indices)))
  }

  /** The key comes before the value, both inside the pair. */
  ghost predicate PairNested(kv: KeyValue) {
    && |kv.span.indices| == 1
    && Indices(kv.key.indices) <= Indices(kv.span.indices)
    && Indices(kv.value.span.indices) <= Indices(kv.span.indices)
    && Before(Indices(kv.key.indices), Indices(kv.value.span.indices))
    && WellNested(kv.value)
  }

  // ----- Data

  ghost predicate Reads(src: seq<byte>, span: Span) {
    InBounds(span.indices, |src|) && span.data == IndexRanges(src, span.indices)
  }

  /** Every span's data is what the source holds at the span's indices. */
  ghost predicate Faithful(src: seq<byte>, v: JsonValue) {
    && Reads(src, v.span)
    && match v
       case Array(_, values) => forall k :: 0 <= k < |values| ==> Faithful(src, values[k])
       case Object(_, pairs) => forall k :: 0 <= k < |pairs| ==> FaithfulPair(src, pairs[k])
       case _ => true
  }

  ghost predicate FaithfulPair(src: seq<byte>, kv: KeyValue) {
    Reads(src, kv.span) && Reads(src, kv.key) && Faithful(src, kv.value)
  }

  lemma NewSpanReads(src: seq<byte>, lo: nat, hi: nat)
    requires lo <= hi <= |src|
    ensures Reads(src, NewSpan(src, lo, hi))
    ensures Inside(Indices(NewSpan(src, lo, hi).indices), lo, hi)
    ensures |NewSpan(src, lo, hi).indices| <= 1
  {
    IndexOneRange(src, lo, hi);
  }

  // ----- Leaves lie inside the tree

  lemma {:induction false} HiddenInSpan(v: JsonValue, shown: set<JsonValue>)
    requires WellNested(v)
    ensures Hidden(v, shown) <= Indices(v.span.indices)
    decreases v
  {
    match v
    case Array(span, values) =>
      OneRangeIndices(span);
      HiddenInsideValues(values, shown, span.indices[0].start + 1, span.indices[0].end - 1);
    case Object(span, pairs) =>
      OneRangeIndices(span);
      HiddenInsidePairs(pairs, shown, span.indices[0].start + 1, span.indices[0].end - 1);
    case _ =>
  }

  lemma OneRangeIndices(span: Span)
    requires |span.indices| == 1
    ensures Indices(span.indices) == RangeIndices(span.indices[0])
  {
    assert Indices(span.indices[1..]) == {};
  }

  lemma {:induction false} HiddenInsideValues(values: seq<JsonValue>, shown: set<JsonValue>, lo: nat, hi: nat)
    requires ValuesNested(values, lo, hi)
    ensures Inside(HiddenInValues(values, shown), lo, hi)
    decreases values
  {
    if values != [] {
      HiddenInSpan(values[0], shown);
      HiddenInsideValues(values[1..], shown, lo, hi);
    }
  }

  lemma {:induction false} HiddenInsidePairs(pairs: seq<KeyValue>, shown: set<JsonValue>, lo: nat, hi: nat)
    requires PairsNested(pairs, lo, hi)
    ensures Inside(HiddenInPairs(pairs, shown), lo, hi)
    decreases pairs
  {
    if pairs != [] {
      HiddenInsidePair(pairs[0], shown);
      HiddenInsidePairs(pairs[1..], shown, lo, hi);
    }
  }

  lemma {:induction false} HiddenInsidePair(kv: KeyValue, shown: set<JsonValue>)
    requires PairNested(kv)
    ensures HiddenInPair(kv, shown) <= Indices(kv.value.span.indices) <= Indices(kv.span.indices)
    decreases kv
  {
    HiddenInSpan(kv.value, shown);
  }
}
