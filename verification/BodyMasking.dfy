/** Masking the leaves of a JSON body where it stands in a message, and parsing the message's body again. */
module BodyMasking {
  import opened RangeSets
  import opened Wire
  import opened JsonTree
  import opened JsonDisclosure
  import opened HttpMessages
  import opened HttpBody
  import P = JsonParser
  import JsonNesting
  import JsonOffset
  import JsonLocality
  import JsonPlacement
  import Disclosure

  // ----- Masking and moving commute

  /** `shown` and `shown0` choose the same nodes, after and before a shift by `n`. */
  ghost predicate SameChoice(nodes: set<JsonValue>, n: nat, shown: set<JsonValue>, shown0: set<JsonValue>) {
    forall x :: x in nodes ==> (x in shown0 <==> Chosen(x, n, shown))
  }

  ghost predicate Chosen(x: JsonValue, n: nat, shown: set<JsonValue>) { Offset(x, n) in shown }

  /** The nodes that a choice made after the shift picks. */
  ghost function ChoiceBefore(nodes: set<JsonValue>, n: nat, shown: set<JsonValue>): (shown0: set<JsonValue>)
    ensures SameChoice(nodes, n, shown, shown0)
  {
    set x | x in nodes && Chosen(x, n, shown)
  }

  lemma {:induction false} HiddenMoves(v: JsonValue, n: nat, shown: set<JsonValue>, shown0: set<JsonValue>)
    requires SameChoice(Nodes(v), n, shown, shown0)
    ensures Hidden(Offset(v, n), shown) == Shifted(Hidden(v, shown0), n)
    decreases v
  {
    hide Shifted, ShiftRight;
    match v
    case Array(_, values) => HiddenInValuesMoves(values, n, shown, shown0);
    case Object(_, pairs) => HiddenInPairsMoves(pairs, n, shown, shown0);
    case _ => NothingShifted(n);
  }

  lemma NothingShifted(n: nat)
    ensures Shifted({}, n) == {}
  {
  }

  lemma {:induction false} HiddenInValuesMoves(values: seq<JsonValue>, n: nat, shown: set<JsonValue>,
                                               shown0: set<JsonValue>)
    requires SameChoice(NodesInValues(values), n, shown, shown0)
    ensures HiddenInValues(OffsetValues(values, n), shown) == Shifted(HiddenInValues(values, shown0), n)
    decreases values
  {
    hide Shifted, Offset, Hidden;
    if values == [] {
      NothingShifted(n);
    } else {
      HiddenMoves(values[0], n, shown, shown0);
      HiddenInValuesMoves(values[1..], n, shown, shown0);
      ShiftedUnion(Hidden(values[0], shown0), HiddenInValues(values[1..], shown0), n);
      assert OffsetValues(values, n)[1..] == OffsetValues(values[1..], n);
    }
  }

  lemma {:induction false} HiddenInPairsMoves(pairs: seq<KeyValue>, n: nat, shown: set<JsonValue>,
                                              shown0: set<JsonValue>)
    requires SameChoice(NodesInPairs(pairs), n, shown, shown0)
    ensures HiddenInPairs(OffsetPairs(pairs, n), shown) == Shifted(HiddenInPairs(pairs, shown0), n)
    decreases pairs
  {
    hide Shifted, OffsetPair, HiddenInPair;
    if pairs == [] {
      NothingShifted(n);
    } else {
      HiddenInPairMoves(pairs[0], n, shown, shown0);
      HiddenInPairsMoves(pairs[1..], n, shown, shown0);
      ShiftedUnion(HiddenInPair(pairs[0], shown0), HiddenInPairs(pairs[1..], shown0), n);
      assert OffsetPairs(pairs, n)[1..] == OffsetPairs(pairs[1..], n);
    }
  }

  lemma {:induction false} HiddenInPairMoves(kv: KeyValue, n: nat, shown: set<JsonValue>, shown0: set<JsonValue>)
    requires SameChoice(NodesInPair(kv), n, shown, shown0)
    ensures HiddenInPair(OffsetPair(kv, n), shown) == Shifted(HiddenInPair(kv, shown0), n)
    decreases kv
  {
    HiddenMoves(kv.value, n, shown, shown0);
  }

  /** `part` stands at `n` in `m`. */
  ghost predicate StandsAt(m: seq<byte>, part: seq<byte>, n: nat) {
    n + |part| <= |m| && m[n..n + |part|] == part
  }

  lemma RereadMoves(m: seq<byte>, part: seq<byte>, n: nat, span: Span)
    requires StandsAt(m, part, n) && InBounds(span.indices, |part|)
    ensures Reread(m, OffsetSpan(span, n)) == OffsetSpan(Reread(part, span), n)
  {
    JsonPlacement.ShiftReads(m, part, n, span.indices);
  }

  /** `text` is what `part` was before it was masked: it bounds the spans. */
  lemma {:induction false} RedactMoves(v: JsonValue, n: nat, shown: set<JsonValue>, shown0: set<JsonValue>,
                                       m: seq<byte>, part: seq<byte>, text: seq<byte>)
    requires SameChoice(Nodes(v), n, shown, shown0) && StandsAt(m, part, n) && |text| == |part| && Faithful(text, v)
    ensures Redact(Offset(v, n), shown, m) == Offset(Redact(v, shown0, part), n)
    decreases v
  {
    hide StandsAt, Reread, OffsetSpan;
    RereadMoves(m, part, n, v.span);
    match v
    case Array(span, values) =>
      RedactValuesMoves(values, n, shown, shown0, m, part, text);
    case Object(span, pairs) =>
      RedactPairsMoves(pairs, n, shown, shown0, m, part, text);
    case _ => StarredMoves(v.span, n);
  }

  lemma StarredMoves(span: Span, n: nat)
    ensures Starred(OffsetSpan(span, n)) == OffsetSpan(Starred(span), n)
  {
  }

  lemma {:induction false} RedactValuesMoves(values: seq<JsonValue>, n: nat, shown: set<JsonValue>,
                                             shown0: set<JsonValue>,
                                             m: seq<byte>, part: seq<byte>, text: seq<byte>)
    requires SameChoice(NodesInValues(values), n, shown, shown0) && StandsAt(m, part, n) && |text| == |part|
    requires forall k :: 0 <= k < |values| ==> Faithful(text, values[k])
    ensures RedactValues(OffsetValues(values, n), shown, m) == OffsetValues(RedactValues(values, shown0, part), n)
    decreases values
  {
    hide StandsAt, Faithful, Offset, Redact;
    if values != [] {
      RedactMoves(values[0], n, shown, shown0, m, part, text);
      RedactValuesMoves(values[1..], n, shown, shown0, m, part, text);
      assert OffsetValues(values, n)[1..] == OffsetValues(values[1..], n);
      assert RedactValues(values, shown0, part)[1..] == RedactValues(values[1..], shown0, part);
    }
  }

  lemma {:induction false} RedactPairsMoves(pairs: seq<KeyValue>, n: nat, shown: set<JsonValue>, shown0: set<JsonValue>,
                                            m: seq<byte>, part: seq<byte>, text: seq<byte>)
    requires SameChoice(NodesInPairs(pairs), n, shown, shown0) && StandsAt(m, part, n) && |text| == |part|
    requires forall k :: 0 <= k < |pairs| ==> FaithfulPair(text, pairs[k])
    ensures RedactPairs(OffsetPairs(pairs, n), shown, m) == OffsetPairs(RedactPairs(pairs, shown0, part), n)
    decreases pairs
  {
    hide StandsAt, FaithfulPair, OffsetPair, RedactPair, NodesInPair;
    if pairs != [] {
      RedactPairMoves(pairs[0], n, shown, shown0, m, part, text);
      RedactPairsMoves(pairs[1..], n, shown, shown0, m, part, text);
      assert OffsetPairs(pairs, n)[1..] == OffsetPairs(pairs[1..], n);
      assert RedactPairs(pairs, shown0, part)[1..] == RedactPairs(pairs[1..], shown0, part);
    }
  }

  lemma {:induction false} RedactPairMoves(kv: KeyValue, n: nat, shown: set<JsonValue>, shown0: set<JsonValue>,
                                           m: seq<byte>, part: seq<byte>, text: seq<byte>)
    requires SameChoice(NodesInPair(kv), n, shown, shown0) && StandsAt(m, part, n) && |text| == |part|
    requires FaithfulPair(text, kv)
    ensures RedactPair(OffsetPair(kv, n), shown, m) == OffsetPair(RedactPair(kv, shown0, part), n)
    decreases kv
  {
    hide StandsAt, Reread, OffsetSpan, Offset, Redact;
    RereadMoves(m, part, n, kv.span);
    RedactMoves(kv.value, n, shown, shown0, m, part, text);
  }

  // ----- The body again

  /** Where the root's bytes are masked exactly at hidden leaves, the body parses as its redacted tree. */
  lemma MaskedBodyParses(src: seq<byte>, m: seq<byte>, lo: nat, hi: nat, contentType: seq<byte>, shown: set<JsonValue>)
    requires lo < hi <= |src| == |m| && InBounds(FromRange(lo, hi), |src|) && FromRange(lo, hi) != []
    requires ParseBody(src, FromRange(lo, hi), contentType).Ok?
    requires var content := ParseBody(src, FromRange(lo, hi), contentType).value.content;
      && content.Json? && content.value.Container()
      && MaskedAt(src, m, Indices(content.value.span.indices), Hidden(content.value, shown))
    ensures var v := ParseBody(src, FromRange(lo, hi), contentType).value.content.value;
      ParseBody(m, FromRange(lo, hi), contentType) == Ok(Body(NewSpan(m, lo, hi), Json(Redact(v, shown, m))))
  {
    hide P.Parse, Offset, Redact, Hidden, FromRange, IndexRanges, Faithful, StandsAt, MaskedAt, Nodes, SameChoice;
    IndexOneRange(src, lo, hi);
    IndexOneRange(m, lo, hi);
    RangeStart(lo, hi);
    var part, mpart := src[lo..hi], m[lo..hi];
    var v0 := P.Parse(part).value;
    var shown0 := ChoiceBefore(Nodes(v0), lo, shown);
    OffsetKind(v0, lo);
    JsonNesting.ParsedTreeNested(part);
    HiddenMoves(v0, lo, shown, shown0);
    RootIsMasked(src, m, lo, hi, shown, shown0);
    Disclosure.MaskedRootParses(part, mpart, shown0);
    assert StandsAt(m, mpart, lo) by { PartStands(m, lo, hi); }
    RedactMoves(v0, lo, shown, shown0, m, mpart, part);
  }

  /** `m` agrees with `src` at the indices, but for stars at the hidden ones. */
  ghost predicate MaskedAt(src: seq<byte>, m: seq<byte>, at: set<nat>, hidden: set<nat>)
    requires |m| == |src|
  {
    forall p :: p in at && p < |src| ==> m[p] == if p in hidden then STAR else src[p]
  }

  lemma PartStands(m: seq<byte>, lo: nat, hi: nat)
    requires lo <= hi <= |m|
    ensures StandsAt(m, m[lo..hi], lo)
  {
  }

  lemma RangeStart(lo: nat, hi: nat)
    requires lo < hi
    ensures FromRange(lo, hi) != [] && FromRange(lo, hi)[0].start == lo
  {
  }

  lemma OffsetKind(v: JsonValue, n: nat)
    ensures Offset(v, n).Container() <==> v.Container()
    ensures Offset(v, n).span == OffsetSpan(v.span, n)
  {
  }

  /** The mask, seen from the body's own text. */
  lemma RootIsMasked(src: seq<byte>, m: seq<byte>, lo: nat, hi: nat, shown: set<JsonValue>, shown0: set<JsonValue>)
    requires lo < hi <= |src| == |m| && P.Parse(src[lo..hi]).Some? && P.Parse(src[lo..hi]).value.Container()
    requires var v0 := P.Parse(src[lo..hi]).value;
      && Hidden(Offset(v0, lo), shown) == Shifted(Hidden(v0, shown0), lo)
      && MaskedAt(src, m, Indices(Offset(v0, lo).span.indices), Hidden(Offset(v0, lo), shown))
    ensures Masked(src[lo..hi], m[lo..hi], Hidden(P.Parse(src[lo..hi]).value, shown0), 0, P.Value(src[lo..hi], 0).end)
  {
    hide P.Value, Offset, Hidden, FromRange;
    var part, mpart := src[lo..hi], m[lo..hi];
    var v0, e := P.Parse(part).value, P.Value(part, 0).end;
    JsonLocality.ValueSpan(part, 0);
    OffsetKind(v0, lo);
    var root := Indices(v0.span.indices);
    assert root == RangeIndices(Range(0, e));
    forall q | 0 <= q < e ensures mpart[q] == if q in Hidden(v0, shown0) then STAR else part[q] {
      assert q in root;
      JsonOffset.ShiftedInjective(root, lo, q);
      JsonOffset.ShiftedInjective(Hidden(v0, shown0), lo, q);
      assert m[q + lo] == mpart[q] && src[q + lo] == part[q];
    }
  }
}
