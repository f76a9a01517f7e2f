/** Shifting a tree: shifts add up, keep the tree well nested and commute with everything committed. */
module JsonOffset {
  import opened RangeSets
  import opened JsonTree
  import opened JsonCommit

  lemma ShiftedInjective(s: set<nat>, n: nat, x: nat)
    ensures x + n in Shifted(s, n) <==> x in s
  {
  }

  lemma ShiftedMinus(a: set<nat>, b: set<nat>, n: nat)
    ensures Shifted(a - b, n) == Shifted(a, n) - Shifted(b, n)
  {
    forall y | y in Shifted(a, n) ensures y in Shifted(a - b, n) <==> y !in Shifted(b, n) {
      ShiftedInjective(a - b, n, y - n);
      ShiftedInjective(a, n, y - n);
      ShiftedInjective(b, n, y - n);
    }
  }

  lemma ShiftedAgain(s: set<nat>, a: nat, b: nat)
    ensures Shifted(Shifted(s, a), b) == Shifted(s, a + b)
  {
    forall x | x in s ensures x + (a + b) in Shifted(Shifted(s, a), b) {
      assert x + a in Shifted(s, a);
      assert (x + a) + b == x + (a + b);
    }
  }

  lemma ShiftAgain(rs: RangeSet, a: nat, b: nat)
    ensures ShiftRight(ShiftRight(rs, a), b) == ShiftRight(rs, a + b)
  {
    ShiftedAgain(Indices(rs), a, b);
    CanonicalUnique(ShiftRight(ShiftRight(rs, a), b), ShiftRight(rs, a + b));
  }

  lemma ShiftNothing(rs: RangeSet)
    ensures ShiftRight(rs, 0) == rs
  {
    assert Shifted(Indices(rs), 0) == Indices(rs) by {
      forall x | x in Indices(rs) ensures x in Shifted(Indices(rs), 0) { ShiftedInjective(Indices(rs), 0, x); }
    }
    CanonicalUnique(ShiftRight(rs, 0), rs);
  }

  lemma ShiftDifference(a: RangeSet, b: RangeSet, n: nat)
    ensures ShiftRight(Difference(a, b), n) == Difference(ShiftRight(a, n), ShiftRight(b, n))
  {
    ShiftedMinus(Indices(a), Indices(b), n);
    CanonicalUnique(ShiftRight(Difference(a, b), n), Difference(ShiftRight(a, n), ShiftRight(b, n)));
  }

  /** Shifting by `a` and then by `b` is shifting by `a + b`; shifting by nothing changes nothing. */
  lemma {:induction false} OffsetAdds(v: JsonValue, a: nat, b: nat)
    ensures Offset(Offset(v, a), b) == Offset(v, a + b)
    ensures Offset(v, 0) == v
    decreases v
  {
    ShiftAgain(v.span.indices, a, b);
    ShiftNothing(v.span.indices);
    match v
    case Array(_, values) => OffsetAddsInValues(values, a, b);
    case Object(_, pairs) => OffsetAddsInPairs(pairs, a, b);
    case _ =>
  }

  lemma {:induction false} OffsetAddsInValues(values: seq<JsonValue>, a: nat, b: nat)
    ensures OffsetValues(OffsetValues(values, a), b) == OffsetValues(values, a + b)
    ensures OffsetValues(values, 0) == values
    decreases values
  {
    if values != [] {
      OffsetAdds(values[0], a, b);
      OffsetAddsInValues(values[1..], a, b);
      assert OffsetValues(values, a)[1..] == OffsetValues(values[1..], a);
      assert values == [values[0]] + values[1..];
    }
  }

  lemma {:induction false} OffsetAddsInPairs(pairs: seq<KeyValue>, a: nat, b: nat)
    ensures OffsetPairs(OffsetPairs(pairs, a), b) == OffsetPairs(pairs, a + b)
    ensures OffsetPairs(pairs, 0) == pairs
    decreases pairs
  {
    if pairs != [] {
      OffsetAddsInPair(pairs[0], a, b);
      OffsetAddsInPairs(pairs[1..], a, b);
      assert OffsetPairs(pairs, a)[1..] == OffsetPairs(pairs[1..], a);
      assert pairs == [pairs[0]] + pairs[1..];
    }
  }

  lemma {:induction false} OffsetAddsInPair(kv: KeyValue, a: nat, b: nat)
    ensures OffsetPair(OffsetPair(kv, a), b) == OffsetPair(kv, a + b)
    ensures OffsetPair(kv, 0) == kv
    decreases kv
  {
    ShiftAgain(kv.span.indices, a, b);
    ShiftAgain(kv.key.indices, a, b);
    ShiftNothing(kv.span.indices);
    ShiftNothing(kv.key.indices);
    OffsetAdds(kv.value, a, b);
  }

  // ----- Committing a shifted tree

  function ShiftSteps(steps: seq<Step>, n: nat): (moved: seq<Step>)
    ensures |moved| == |steps|
    ensures forall k :: 0 <= k < |steps| ==>
              moved[k] == if steps[k].Set? then Set(ShiftRight(steps[k].ranges, n)) else GiveUp
  {
    if steps == [] then []
    else [if steps[0].Set? then Set(ShiftRight(steps[0].ranges, n)) else GiveUp] + ShiftSteps(steps[1..], n)
  }

  lemma {:induction false} MinusPairsShifts(indices: RangeSet, pairs: seq<KeyValue>, n: nat)
    ensures MinusPairs(ShiftRight(indices, n), OffsetPairs(pairs, n)) == ShiftRight(MinusPairs(indices, pairs), n)
    decreases |pairs|
  {
    if pairs != [] {
      ShiftDifference(indices, pairs[0].span.indices, n);
      MinusPairsShifts(Difference(indices, pairs[0].span.indices), pairs[1..], n);
      assert OffsetPairs(pairs, n)[1..] == OffsetPairs(pairs[1..], n);
    }
  }

  lemma {:induction false} MinusValuesShifts(indices: RangeSet, values: seq<JsonValue>, n: nat)
    ensures MinusValues(ShiftRight(indices, n), OffsetValues(values, n)) == ShiftRight(MinusValues(indices, values), n)
    decreases |values|
  {
    if values != [] {
      OffsetMovesSpan(values[0], n);
      ShiftDifference(indices, values[0].span.indices, n);
      MinusValuesShifts(Difference(indices, values[0].span.indices), values[1..], n);
      assert OffsetValues(values, n)[1..] == OffsetValues(values[1..], n);
    }
  }

  lemma OffsetMovesSpan(v: JsonValue, n: nat)
    ensures Offset(v, n).span == OffsetSpan(v.span, n)
  {
  }

  lemma ShiftedPair(a: nat, b: nat, n: nat)
    ensures Shifted({a, b}, n) == {a + n, b + n}
  {
    assert a in {a, b} && b in {a, b};
  }

  lemma OneRangeShifts(span: Span, n: nat)
    requires |span.indices| == 1
    ensures OffsetSpan(span, n).indices == [Range(span.indices[0].start + n, span.indices[0].end + n)]
  {
    var r := span.indices[0];
    assert span.indices == FromRange(r.start, r.end);
    ShiftFromRange(r.start, r.end, n);
  }

  lemma BracketsShift(span: Span, n: nat)
    requires Bracketed(span)
    ensures Bracketed(OffsetSpan(span, n))
    ensures WithoutValues(OffsetSpan(span, n)) == ShiftRight(WithoutValues(span), n)
  {
    hide WithoutValues, ShiftRight, Shifted;
    OneRangeShifts(span, n);
    ShiftedPair(span.indices[0].start, span.indices[0].end - 1, n);
    CanonicalUnique(WithoutValues(OffsetSpan(span, n)), ShiftRight(WithoutValues(span), n));
  }

  lemma WithoutValueShifts(kv: KeyValue, n: nat)
    ensures WithoutValue(OffsetPair(kv, n)) == ShiftRight(WithoutValue(kv), n)
  {
    OffsetMovesSpan(kv.value, n);
    ShiftDifference(kv.span.indices, kv.value.span.indices, n);
  }

  lemma SeparatorsShift(span: Span, values: seq<JsonValue>, n: nat)
    requires Bracketed(span)
    ensures Separators(OffsetSpan(span, n), OffsetValues(values, n)) == ShiftRight(Separators(span, values), n)
  {
    BracketsShift(span, n);
    ShiftDifference(span.indices, WithoutValues(span), n);
    MinusValuesShifts(Difference(span.indices, WithoutValues(span)), values, n);
  }

  lemma {:induction false} ShiftStepsConcat(a: seq<Step>, b: seq<Step>, n: nat)
    ensures ShiftSteps(a + b, n) == ShiftSteps(a, n) + ShiftSteps(b, n)
  {
  }

  lemma ShiftOneStep(ranges: RangeSet, n: nat)
    ensures ShiftSteps([Set(ranges)], n) == [Set(ShiftRight(ranges, n))]
  {
  }

  /** The structure committed for a shifted tree is the structure of the tree, shifted. */
  lemma {:induction false} StructureShifts(v: JsonValue, n: nat)
    requires WellNested(v)
    ensures StructureSteps(Offset(v, n)) == ShiftSteps(StructureSteps(v), n)
    decreases v
  {
    match v
    case Object(span, pairs) =>
      PairsStructureShifts(pairs, n, span.indices[0].start + 1, span.indices[0].end - 1);
      MinusPairsShifts(span.indices, pairs, n);
      ShiftOneStep(MinusPairs(span.indices, pairs), n);
      ShiftStepsConcat([Set(MinusPairs(span.indices, pairs))], PairStructureSteps(pairs), n);
    case Array(span, values) =>
      ValuesStructureShifts(values, n, span.indices[0].start + 1, span.indices[0].end - 1);
      BracketsShift(span, n);
      SeparatorsShift(span, values, n);
      ShiftOneStep(WithoutValues(span), n);
      ShiftOneStep(Separators(span, values), n);
      ShiftStepsConcat([Set(Separators(span, values))], ValuesStructureSteps(values), n);
      ShiftStepsConcat([Set(WithoutValues(span))], [Set(Separators(span, values))] + ValuesStructureSteps(values), n);
    case _ =>
  }

  lemma {:induction false} PairsStructureShifts(pairs: seq<KeyValue>, n: nat, lo: nat, hi: nat)
    requires PairsNested(pairs, lo, hi)
    ensures PairStructureSteps(OffsetPairs(pairs, n)) == ShiftSteps(PairStructureSteps(pairs), n)
    decreases pairs
  {
    hide OnePairStructureSteps, OffsetPair, PairNested;
    if pairs != [] {
      OnePairStructureShifts(pairs[0], n);
      PairsStructureShifts(pairs[1..], n, lo, hi);
      ShiftStepsConcat(OnePairStructureSteps(pairs[0]), PairStructureSteps(pairs[1..]), n);
      assert OffsetPairs(pairs, n)[1..] == OffsetPairs(pairs[1..], n);
    }
  }

  lemma {:induction false} OnePairStructureShifts(kv: KeyValue, n: nat)
    requires PairNested(kv)
    ensures OnePairStructureSteps(OffsetPair(kv, n)) == ShiftSteps(OnePairStructureSteps(kv), n)
    decreases kv
  {
    StructureShifts(kv.value, n);
    WithoutValueShifts(kv, n);
    ShiftOneStep(WithoutValue(kv), n);
    ShiftStepsConcat([Set(WithoutValue(kv))], StructureSteps(kv.value), n);
  }

  lemma {:induction false} ValuesStructureShifts(values: seq<JsonValue>, n: nat, lo: nat, hi: nat)
    requires ValuesNested(values, lo, hi)
    ensures ValuesStructureSteps(OffsetValues(values, n)) == ShiftSteps(ValuesStructureSteps(values), n)
    decreases values
  {
    if values != [] {
      StructureShifts(values[0], n);
      ValuesStructureShifts(values[1..], n, lo, hi);
      ShiftStepsConcat(StructureSteps(values[0]), ValuesStructureSteps(values[1..]), n);
      assert OffsetValues(values, n)[1..] == OffsetValues(values[1..], n);
    }
  }
}
