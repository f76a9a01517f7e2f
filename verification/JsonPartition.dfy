/** The committed sets of a tree add up exactly: the structure to what no leaf spans, the values to everything. */
module JsonPartition {
  import opened RangeSets
  import opened Wire
  import opened JsonTree
  import opened JsonCommit

  /** Every index some step commits. */
  ghost function Covered(steps: seq<Step>): set<nat> {
    if steps == [] then {} else StepIndices(steps[0]) + Covered(steps[1..])
  }

  ghost function StepIndices(step: Step): set<nat> {
    if step.GiveUp? then {} else Indices(step.ranges)
  }

  /** No index is committed twice. */
  ghost predicate Apart(steps: seq<Step>) {
    forall j, k :: 0 <= j < k < |steps| ==> StepIndices(steps[j]) !! StepIndices(steps[k])
  }

  lemma {:induction false} CoveredConcat(a: seq<Step>, b: seq<Step>)
    ensures Covered(a + b) == Covered(a) + Covered(b)
  {
    if a == [] {
      assert a + b == b;
    } else {
      assert (a + b)[1..] == a[1..] + b;
      CoveredConcat(a[1..], b);
    }
  }

  lemma {:induction false} CoveredHas(steps: seq<Step>, k: nat)
    requires k < |steps|
    ensures StepIndices(steps[k]) <= Covered(steps)
  {
    if k > 0 { CoveredHas(steps[1..], k - 1); }
  }

  lemma NothingCovered()
    ensures Covered([]) == {}
  {
  }

  lemma CoveredOne(ranges: RangeSet)
    ensures Covered([Set(ranges)]) == Indices(ranges)
  {
    assert [Set(ranges)][1..] == [];
  }

  lemma ApartConcat(a: seq<Step>, b: seq<Step>)
    requires Apart(a) && Apart(b) && Covered(a) !! Covered(b)
    ensures Apart(a + b)
  {
    forall j, k | 0 <= j < k < |a + b| ensures StepIndices((a + b)[j]) !! StepIndices((a + b)[k]) {
      if j < |a| <= k {
        CoveredHas(a, j);
        CoveredHas(b, k - |a|);
      }
    }
  }

  /** Committing one set and then steps that touch none of it. */
  lemma ThenApart(ranges: RangeSet, rest: seq<Step>)
    requires Apart(rest) && Indices(ranges) !! Covered(rest)
    ensures Apart([Set(ranges)] + rest)
    ensures Covered([Set(ranges)] + rest) == Indices(ranges) + Covered(rest)
  {
    CoveredOne(ranges);
    ApartConcat([Set(ranges)], rest);
    CoveredConcat([Set(ranges)], rest);
  }

  /** What steps have to be for a region: they cover all of it but the leaves, once. */
  ghost predicate Partition(steps: seq<Step>, leaves: set<nat>, region: set<nat>) {
    && Apart(steps)
    && (forall k :: 0 <= k < |steps| ==> steps[k].Set?)
    && Covered(steps) !! leaves
    && Covered(steps) + leaves == region
  }

  lemma JoinPartitions(a: seq<Step>, la: set<nat>, ra: set<nat>, b: seq<Step>, lb: set<nat>, rb: set<nat>)
    requires Partition(a, la, ra) && Partition(b, lb, rb) && ra !! rb
    ensures Partition(a + b, la + lb, ra + rb)
  {
    ApartConcat(a, b);
    CoveredConcat(a, b);
  }

  /** A set in front of a partition of what it leaves out. */
  lemma FramePartition(frame: RangeSet, rest: seq<Step>, leaves: set<nat>, region: set<nat>, whole: set<nat>)
    requires Partition(rest, leaves, region) && region <= whole && Indices(frame) == whole - region
    ensures Partition([Set(frame)] + rest, leaves, whole)
  {
    ThenApart(frame, rest);
  }

  /**
   The sets `commit_structure` commits for a value partition its span without its leaves: no index is
   committed twice, none of them belongs to a leaf, and none is missing.
   */
  lemma {:induction false} StructurePartition(v: JsonValue)
    requires WellNested(v)
    ensures Partition(StructureSteps(v), LeafIndices(v), Indices(v.span.indices))
    decreases v
  {
    match v
    case Object(span, pairs) =>
      var lo, hi := span.indices[0].start, span.indices[0].end;
      OneRangeIndices(span);
      PairsPartition(pairs, lo + 1, hi - 1);
      PairSpansInside(pairs, lo + 1, hi - 1);
      FramePartition(MinusPairs(span.indices, pairs), PairStructureSteps(pairs), LeafIndices(v), PairSpans(pairs),
                     Indices(span.indices));
    case Array(span, values) => ArrayPartition(v);
    case _ =>
  }

  lemma {:induction false} ArrayPartition(v: JsonValue)
    requires WellNested(v) && v.Array?
    ensures Partition(StructureSteps(v), LeafIndices(v), Indices(v.span.indices))
    decreases v, 0
  {
    hide MinusValues, Separators, WithoutValues, Covered, ValuesStructureSteps, Partition;
    var span, values := v.span, v.values;
    var lo, hi := span.indices[0].start, span.indices[0].end;
    var inner := Indices(span.indices) - Indices(WithoutValues(span));
    OneRangeIndices(span);
    ValuesPartition(values, lo + 1, hi - 1);
    ValueSpansInside(values, lo + 1, hi - 1);
    FramePartition(Separators(span, values), ValuesStructureSteps(values), LeafIndices(v), ValueSpans(values), inner);
    FramePartition(WithoutValues(span), [Set(Separators(span, values))] + ValuesStructureSteps(values), LeafIndices(v),
                   inner, Indices(span.indices));
  }

  lemma {:induction false} PairSpansInside(pairs: seq<KeyValue>, lo: nat, hi: nat)
    requires PairsNested(pairs, lo, hi)
    ensures Inside(PairSpans(pairs), lo, hi)
    decreases pairs
  {
    if pairs != [] { PairSpansInside(pairs[1..], lo, hi); }
  }

  lemma {:induction false} ValueSpansInside(values: seq<JsonValue>, lo: nat, hi: nat)
    requires ValuesNested(values, lo, hi)
    ensures Inside(ValueSpans(values), lo, hi)
    decreases values
  {
    if values != [] { ValueSpansInside(values[1..], lo, hi); }
  }

  /** Siblings do not overlap. */
  lemma {:induction false} PairSpansApart(first: set<nat>, rest: seq<KeyValue>)
    requires forall k :: 0 <= k < |rest| ==> Before(first, Indices(rest[k].span.indices))
    ensures first !! PairSpans(rest)
    decreases rest
  {
    if rest != [] { PairSpansApart(first, rest[1..]); }
  }

  lemma {:induction false} ValueSpansApart(first: set<nat>, rest: seq<JsonValue>)
    requires forall k :: 0 <= k < |rest| ==> Before(first, Indices(rest[k].span.indices))
    ensures first !! ValueSpans(rest)
    decreases rest
  {
    if rest != [] { ValueSpansApart(first, rest[1..]); }
  }

  lemma {:induction false} PairsPartition(pairs: seq<KeyValue>, lo: nat, hi: nat)
    requires PairsNested(pairs, lo, hi)
    ensures Partition(PairStructureSteps(pairs), HiddenInPairs(pairs, {}), PairSpans(pairs))
    decreases pairs
  {
    if pairs != [] {
      var kv, rest := pairs[0], pairs[1..];
      OnePairPartition(kv);
      PairsPartition(rest, lo, hi);
      PairSpansApart(Indices(kv.span.indices), rest);
      JoinPartitions(OnePairStructureSteps(kv), HiddenInPair(kv, {}), Indices(kv.span.indices),
                     PairStructureSteps(rest), HiddenInPairs(rest, {}), PairSpans(rest));
    }
  }

  lemma {:induction false} OnePairPartition(kv: KeyValue)
    requires PairNested(kv)
    ensures Partition(OnePairStructureSteps(kv), HiddenInPair(kv, {}), Indices(kv.span.indices))
    decreases kv
  {
    StructurePartition(kv.value);
    FramePartition(WithoutValue(kv), StructureSteps(kv.value), LeafIndices(kv.value),
                   Indices(kv.value.span.indices), Indices(kv.span.indices));
  }

  lemma NothingPartitioned()
    ensures Partition([], {}, {})
  {
  }

  lemma {:induction false} ValuesPartition(values: seq<JsonValue>, lo: nat, hi: nat)
    requires ValuesNested(values, lo, hi)
    ensures Partition(ValuesStructureSteps(values), HiddenInValues(values, {}), ValueSpans(values))
    decreases values
  {
    hide Partition, StructureSteps, Hidden, Covered;
    if values == [] {
      NothingPartitioned();
    } else {
      var first, rest := values[0], values[1..];
      StructurePartition(first);
      ValuesPartition(rest, lo, hi);
      ValueSpansApart(Indices(first.span.indices), rest);
      JoinPartitions(StructureSteps(first), LeafIndices(first), Indices(first.span.indices),
                     ValuesStructureSteps(rest), HiddenInValues(rest, {}), ValueSpans(rest));
    }
  }

  // ----- commit_value

  /** Some node of the tree is `Redacted`. */
  ghost predicate HasRedacted(v: JsonValue) {
    match v
    case Object(_, pairs) => exists k :: 0 <= k < |pairs| && PairHasRedacted(pairs[k])
    case Array(_, values) => exists k :: 0 <= k < |values| && HasRedacted(values[k])
    case _ => v.Redacted?
  }

  ghost predicate PairHasRedacted(kv: KeyValue) { HasRedacted(kv.value) }

  ghost predicate GivesUp(steps: seq<Step>) {
    exists k :: 0 <= k < |steps| && steps[k].GiveUp?
  }

  lemma GivesUpConcat(a: seq<Step>, b: seq<Step>)
    ensures GivesUp(a + b) <==> GivesUp(a) || GivesUp(b)
  {
    if k :| 0 <= k < |a| && a[k].GiveUp? { assert (a + b)[k].GiveUp?; }
    if k :| 0 <= k < |b| && b[k].GiveUp? { assert (a + b)[|a| + k].GiveUp?; }
  }

  /** The committer gives up on a tree exactly when a node of it is redacted. */
  lemma {:induction false} GivesUpOnRedacted(v: JsonValue)
    ensures GivesUp(ValueSteps(v)) <==> HasRedacted(v)
    decreases v
  {
    match v
    case Object(span, pairs) =>
      GivesUpConcat([Set(MinusPairs(span.indices, pairs))], PairsValueSteps(pairs));
      PairsGiveUp(pairs);
    case Array(span, values) =>
      GivesUpConcat([Set(span.indices)], ElementSteps(span, values));
      if values != [] {
        var ranges := RangeSteps(Separators(span, values));
        GivesUpConcat([Set(WithoutValues(span))], ranges + ValuesValueSteps(values));
        GivesUpConcat(ranges, ValuesValueSteps(values));
        RangeStepsCover(Separators(span, values));
        ValuesGiveUp(values);
      }
    case Redacted(_) => assert ValueSteps(v)[0].GiveUp?;
    case _ =>
  }

  lemma {:induction false} PairsGiveUp(pairs: seq<KeyValue>)
    ensures GivesUp(PairsValueSteps(pairs)) <==> exists k :: 0 <= k < |pairs| && PairHasRedacted(pairs[k])
    decreases pairs
  {
    if pairs != [] {
      var kv, rest := pairs[0], pairs[1..];
      GivesUpConcat(OnePairValueSteps(kv), PairsValueSteps(rest));
      OnePairGivesUp(kv);
      PairsGiveUp(rest);
      if k :| 0 <= k < |rest| && PairHasRedacted(rest[k]) { assert PairHasRedacted(pairs[k + 1]); }
      if k :| 0 <= k < |pairs| && PairHasRedacted(pairs[k]) && k > 0 { assert PairHasRedacted(rest[k - 1]); }
    }
  }

  lemma {:induction false} OnePairGivesUp(kv: KeyValue)
    ensures GivesUp(OnePairValueSteps(kv)) <==> PairHasRedacted(kv)
    decreases kv
  {
    GivesUpConcat([Set(WithoutValue(kv))], ValueSteps(kv.value));
    GivesUpOnRedacted(kv.value);
  }

  lemma {:induction false} ValuesGiveUp(values: seq<JsonValue>)
    ensures GivesUp(ValuesValueSteps(values)) <==> exists k :: 0 <= k < |values| && HasRedacted(values[k])
    decreases values
  {
    if values != [] {
      var first, rest := values[0], values[1..];
      GivesUpConcat(ValueSteps(first), ValuesValueSteps(rest));
      GivesUpOnRedacted(first);
      ValuesGiveUp(rest);
      if k :| 0 <= k < |rest| && HasRedacted(rest[k]) { assert HasRedacted(values[k + 1]); }
      if k :| 0 <= k < |values| && HasRedacted(values[k]) && k > 0 { assert HasRedacted(rest[k - 1]); }
    }
  }

  lemma {:induction false} RangeStepsCover(rs: RangeSet)
    ensures Covered(RangeSteps(rs)) == Indices(rs) && !GivesUp(RangeSteps(rs))
  {
    if rs != [] {
      RangeStepsCover(rs[1..]);
      var first := [Set(FromRange(rs[0].start, rs[0].end))];
      CoveredOne(first[0].ranges);
      CoveredConcat(first, RangeSteps(rs[1..]));
      GivesUpConcat(first, RangeSteps(rs[1..]));
    }
  }

  /** A choice among the commits of `commit_value`: all structure, and the leaves shown. */
  ghost function Selected(v: JsonValue, shown: set<JsonValue>): seq<Step> {
    match v
    case Object(span, pairs) => [Set(MinusPairs(span.indices, pairs))] + SelectedInPairs(pairs, shown)
    case Array(span, values) =>
      if values == [] then [Set(span.indices)]
      else [Set(WithoutValues(span))] + (RangeSteps(Separators(span, values)) + SelectedInValues(values, shown))
    case _ => if v !in shown || v.span.indices == [] then [] else [Set(v.span.indices)]
  }

  ghost function SelectedInPairs(pairs: seq<KeyValue>, shown: set<JsonValue>): seq<Step>
    decreases pairs
  {
    if pairs == [] then [] else SelectedInPair(pairs[0], shown) + SelectedInPairs(pairs[1..], shown)
  }

  ghost function SelectedInPair(kv: KeyValue, shown: set<JsonValue>): seq<Step> {
    [Set(WithoutValue(kv))] + Selected(kv.value, shown)
  }

  ghost function SelectedInValues(values: seq<JsonValue>, shown: set<JsonValue>): seq<Step>
    decreases values
  {
    if values == [] then [] else Selected(values[0], shown) + SelectedInValues(values[1..], shown)
  }

  /** Everything chosen is something `commit_value` commits. */
  lemma {:induction false} SelectedAreCommitted(v: JsonValue, shown: set<JsonValue>)
    requires !HasRedacted(v)
    ensures forall step :: step in Selected(v, shown) ==> step in ValueSteps(v)
    decreases v
  {
    match v
    case Object(span, pairs) => SelectedPairsAreCommitted(pairs, shown);
    case Array(span, values) => SelectedValuesAreCommitted(values, shown);
    case _ =>
  }

  lemma {:induction false} SelectedPairsAreCommitted(pairs: seq<KeyValue>, shown: set<JsonValue>)
    requires forall k :: 0 <= k < |pairs| ==> !PairHasRedacted(pairs[k])
    ensures forall step :: step in SelectedInPairs(pairs, shown) ==> step in PairsValueSteps(pairs)
    decreases pairs
  {
    if pairs != [] {
      SelectedPairIsCommitted(pairs[0], shown);
      SelectedPairsAreCommitted(pairs[1..], shown);
    }
  }

  lemma {:induction false} SelectedPairIsCommitted(kv: KeyValue, shown: set<JsonValue>)
    requires !PairHasRedacted(kv)
    ensures forall step :: step in SelectedInPair(kv, shown) ==> step in OnePairValueSteps(kv)
    decreases kv
  {
    SelectedAreCommitted(kv.value, shown);
  }

  lemma {:induction false} SelectedValuesAreCommitted(values: seq<JsonValue>, shown: set<JsonValue>)
    requires forall k :: 0 <= k < |values| ==> !HasRedacted(values[k])
    ensures forall step :: step in SelectedInValues(values, shown) ==> step in ValuesValueSteps(values)
    decreases values
  {
    if values != [] {
      SelectedAreCommitted(values[0], shown);
      SelectedValuesAreCommitted(values[1..], shown);
    }
  }

  /** The chosen commits add up to the span without the leaves that are not shown. */
  lemma {:induction false} SelectedCover(v: JsonValue, shown: set<JsonValue>)
    requires WellNested(v)
    ensures Covered(Selected(v, shown)) == Indices(v.span.indices) - Hidden(v, shown)
    decreases v
  {
    hide Covered, MinusPairs, SelectedInPairs, HiddenInPairs;
    NothingCovered();
    match v
    case Object(span, pairs) =>
      var lo, hi := span.indices[0].start, span.indices[0].end;
      OneRangeIndices(span);
      SelectedPairsCover(pairs, shown, lo + 1, hi - 1);
      PairSpansInside(pairs, lo + 1, hi - 1);
      HiddenInsidePairs(pairs, shown, lo + 1, hi - 1);
      CoveredOne(MinusPairs(span.indices, pairs));
      CoveredConcat([Set(MinusPairs(span.indices, pairs))], SelectedInPairs(pairs, shown));
    case Array(span, values) => SelectedArrayCovers(v, shown);
    case _ =>
      CoveredOne(v.span.indices);
  }

  lemma {:induction false} SelectedArrayCovers(v: JsonValue, shown: set<JsonValue>)
    requires WellNested(v) && v.Array?
    ensures Covered(Selected(v, shown)) == Indices(v.span.indices) - Hidden(v, shown)
    decreases v, 0
  {
    hide MinusValues, Separators, WithoutValues, Covered, RangeSteps, SelectedInValues;
    assert ValuesNested(v.values, v.span.indices[0].start + 1, v.span.indices[0].end - 1);
    var span, values := v.span, v.values;
    var lo, hi := span.indices[0].start, span.indices[0].end;
    OneRangeIndices(span);
    CoveredOne(span.indices);
    if values != [] {
      SelectedValuesCover(values, shown, lo + 1, hi - 1);
      ValueSpansInside(values, lo + 1, hi - 1);
      var ranges := RangeSteps(Separators(span, values));
      RangeStepsCover(Separators(span, values));
      CoveredOne(WithoutValues(span));
      CoveredConcat(ranges, SelectedInValues(values, shown));
      CoveredConcat([Set(WithoutValues(span))], ranges + SelectedInValues(values, shown));
      BracketsAndRest(Indices(span.indices), Indices(WithoutValues(span)), ValueSpans(values),
                      HiddenInValues(values, shown));
    }
  }

  lemma BracketsAndRest(whole: set<nat>, brackets: set<nat>, spans: set<nat>, hidden: set<nat>)
    requires brackets <= whole && spans <= whole - brackets && hidden <= spans
    ensures brackets + ((whole - brackets - spans) + (spans - hidden)) == whole - hidden
  {
  }

  lemma {:induction false} SelectedPairsCover(pairs: seq<KeyValue>, shown: set<JsonValue>, lo: nat, hi: nat)
    requires PairsNested(pairs, lo, hi)
    ensures Covered(SelectedInPairs(pairs, shown)) == PairSpans(pairs) - HiddenInPairs(pairs, shown)
    ensures HiddenInPairs(pairs, shown) <= PairSpans(pairs)
    decreases pairs
  {
    hide Covered, SelectedInPair, HiddenInPair, PairNested;
    NothingCovered();
    if pairs != [] {
      var kv, rest := pairs[0], pairs[1..];
      SelectedPairCovers(kv, shown);
      SelectedPairsCover(rest, shown, lo, hi);
      PairSpansApart(Indices(kv.span.indices), rest);
      CoveredConcat(SelectedInPair(kv, shown), SelectedInPairs(rest, shown));
    }
  }

  lemma {:induction false} SelectedPairCovers(kv: KeyValue, shown: set<JsonValue>)
    requires PairNested(kv)
    ensures Covered(SelectedInPair(kv, shown)) == Indices(kv.span.indices) - HiddenInPair(kv, shown)
    ensures HiddenInPair(kv, shown) <= Indices(kv.span.indices)
    decreases kv
  {
    HiddenInsidePair(kv, shown);
    SelectedCover(kv.value, shown);
    CoveredOne(WithoutValue(kv));
    CoveredConcat([Set(WithoutValue(kv))], Selected(kv.value, shown));
  }

  lemma {:induction false} SelectedValuesCover(values: seq<JsonValue>, shown: set<JsonValue>, lo: nat, hi: nat)
    requires ValuesNested(values, lo, hi)
    ensures Covered(SelectedInValues(values, shown)) == ValueSpans(values) - HiddenInValues(values, shown)
    ensures HiddenInValues(values, shown) <= ValueSpans(values)
    decreases values
  {
    if values != [] {
      var first, rest := values[0], values[1..];
      HiddenInSpan(first, shown);
      SelectedCover(first, shown);
      SelectedValuesCover(rest, shown, lo, hi);
      ValueSpansApart(Indices(first.span.indices), rest);
      CoveredConcat(Selected(first, shown), SelectedInValues(rest, shown));
    }
  }

  /** No commit of `commit_value` reaches outside the value. */
  lemma {:induction false} ValueStepsInside(v: JsonValue)
    requires WellNested(v)
    ensures Covered(ValueSteps(v)) <= Indices(v.span.indices)
    decreases v
  {
    match v
    case Object(span, pairs) =>
      var lo, hi := span.indices[0].start, span.indices[0].end;
      OneRangeIndices(span);
      PairsStepsInside(pairs, lo + 1, hi - 1);
      PairSpansInside(pairs, lo + 1, hi - 1);
      CoveredOne(MinusPairs(span.indices, pairs));
      CoveredConcat([Set(MinusPairs(span.indices, pairs))], PairsValueSteps(pairs));
    case Array(span, values) =>
      var lo, hi := span.indices[0].start, span.indices[0].end;
      OneRangeIndices(span);
      ElementStepsInside(span, values, lo, hi);
      CoveredOne(span.indices);
      CoveredConcat([Set(span.indices)], ElementSteps(span, values));
    case _ =>
      CoveredOne(v.span.indices);
  }

  lemma {:induction false} ElementStepsInside(span: Span, values: seq<JsonValue>, lo: nat, hi: nat)
    requires Bracketed(span) && span.indices[0] == Range(lo, hi) && ValuesNested(values, lo + 1, hi - 1)
    ensures Covered(ElementSteps(span, values)) <= Indices(span.indices)
    decreases values, 1
  {
    hide MinusValues, Separators, WithoutValues, Covered, RangeSteps, ValuesValueSteps, ValuesNested;
    NothingCovered();
    OneRangeIndices(span);
    if values != [] {
      var ranges := RangeSteps(Separators(span, values));
      ValuesStepsInside(values, lo + 1, hi - 1);
      ValueSpansInside(values, lo + 1, hi - 1);
      RangeStepsCover(Separators(span, values));
      CoveredOne(WithoutValues(span));
      CoveredConcat(ranges, ValuesValueSteps(values));
      CoveredConcat([Set(WithoutValues(span))], ranges + ValuesValueSteps(values));
    }
  }

  lemma {:induction false} PairsStepsInside(pairs: seq<KeyValue>, lo: nat, hi: nat)
    requires PairsNested(pairs, lo, hi)
    ensures Covered(PairsValueSteps(pairs)) <= PairSpans(pairs)
    decreases pairs
  {
    if pairs != [] {
      OnePairStepsInside(pairs[0]);
      PairsStepsInside(pairs[1..], lo, hi);
      CoveredConcat(OnePairValueSteps(pairs[0]), PairsValueSteps(pairs[1..]));
    }
  }

  lemma {:induction false} OnePairStepsInside(kv: KeyValue)
    requires PairNested(kv)
    ensures Covered(OnePairValueSteps(kv)) <= Indices(kv.span.indices)
    decreases kv
  {
    ValueStepsInside(kv.value);
    CoveredOne(WithoutValue(kv));
    CoveredConcat([Set(WithoutValue(kv))], ValueSteps(kv.value));
  }

  lemma {:induction false} ValuesStepsInside(values: seq<JsonValue>, lo: nat, hi: nat)
    requires ValuesNested(values, lo, hi)
    ensures Covered(ValuesValueSteps(values)) <= ValueSpans(values)
    decreases values, 0
  {
    if values != [] {
      ValueStepsInside(values[0]);
      ValuesStepsInside(values[1..], lo, hi);
      CoveredConcat(ValueSteps(values[0]), ValuesValueSteps(values[1..]));
    }
  }

  lemma {:induction false} CoveredSubset(a: seq<Step>, b: seq<Step>)
    requires forall step :: step in a ==> step in b
    ensures Covered(a) <= Covered(b)
  {
    if a != [] {
      assert a[0] in b;
      var k :| 0 <= k < |b| && b[k] == a[0];
      CoveredHas(b, k);
      CoveredSubset(a[1..], b);
    }
  }

  /** A tree without redacted nodes is committed as a whole, whichever leaves are shown later. */
  lemma ValueIsCovered(v: JsonValue)
    requires WellNested(v) && !HasRedacted(v)
    ensures Covered(ValueSteps(v)) == Indices(v.span.indices)
  {
    SelectedCover(v, Nodes(v));
    NothingHiddenIn(v, Nodes(v));
    SelectedAreCommitted(v, Nodes(v));
    CoveredSubset(Selected(v, Nodes(v)), ValueSteps(v));
    ValueStepsInside(v);
  }

  /** Every leaf that spans anything is committed on its own. */
  lemma {:induction false} LeafIsCommitted(v: JsonValue, leaf: JsonValue)
    requires leaf in Nodes(v) && !leaf.Container() && !leaf.Redacted? && leaf.span.indices != []
    ensures Set(leaf.span.indices) in ValueSteps(v)
    decreases v
  {
    match v
    case Object(_, pairs) => LeafInPairsIsCommitted(pairs, leaf);
    case Array(span, values) =>
      assert ValueSteps(v) == [Set(span.indices)] + ElementSteps(span, values);
      LeafInValuesIsCommitted(values, leaf);
    case _ =>
  }

  lemma {:induction false} LeafInPairsIsCommitted(pairs: seq<KeyValue>, leaf: JsonValue)
    requires leaf in NodesInPairs(pairs) && !leaf.Container() && !leaf.Redacted? && leaf.span.indices != []
    ensures Set(leaf.span.indices) in PairsValueSteps(pairs)
    decreases pairs
  {
    if leaf in NodesInPair(pairs[0]) {
      LeafInPairIsCommitted(pairs[0], leaf);
    } else {
      LeafInPairsIsCommitted(pairs[1..], leaf);
    }
  }

  lemma {:induction false} LeafInPairIsCommitted(kv: KeyValue, leaf: JsonValue)
    requires leaf in NodesInPair(kv) && !leaf.Container() && !leaf.Redacted? && leaf.span.indices != []
    ensures Set(leaf.span.indices) in OnePairValueSteps(kv)
    decreases kv
  {
    LeafIsCommitted(kv.value, leaf);
  }

  lemma {:induction false} LeafInValuesIsCommitted(values: seq<JsonValue>, leaf: JsonValue)
    requires leaf in NodesInValues(values) && !leaf.Container() && !leaf.Redacted? && leaf.span.indices != []
    ensures Set(leaf.span.indices) in ValuesValueSteps(values)
    decreases values
  {
    if leaf in Nodes(values[0]) {
      LeafIsCommitted(values[0], leaf);
    } else {
      LeafInValuesIsCommitted(values[1..], leaf);
    }
  }

  // ----- What a builder is left with

  ghost function CommittedIndices(commits: seq<Commitment>): set<nat> {
    if commits == [] then {} else Indices(commits[0].ranges) + CommittedIndices(commits[1..])
  }

  /** The commitments of steps that are all taken. */
  function CommitsOf(steps: seq<Step>, direction: Direction): seq<Commitment> {
    if steps == [] then []
    else (if steps[0].Set? then [Commitment(direction, steps[0].ranges)] else []) + CommitsOf(steps[1..], direction)
  }

  lemma GivesUpOne(step: Step)
    ensures GivesUp([step]) <==> step.GiveUp?
    ensures !GivesUp([])
  {
    assert [step][0] == step;
  }

  lemma CommitsOfOne(step: Step, direction: Direction)
    ensures CommitsOf([step], direction) == if step.Set? then [Commitment(direction, step.ranges)] else []
  {
    assert [step][1..] == [];
    assert CommitsOf([], direction) == [];
    var one := if step.Set? then [Commitment(direction, step.ranges)] else [];
    assert one + [] == one;
  }

  /** Each set is accepted by a builder that holds everything before it. */
  ghost predicate AllAccepted(held: seq<Commitment>, steps: seq<Step>, accepts: Acceptance, direction: Direction)
    decreases |steps|
  {
    steps == [] ||
    ((steps[0].Set? ==> accepts(held, direction, steps[0].ranges))
     && AllAccepted(held + CommitsOf([steps[0]], direction), steps[1..], accepts, direction))
  }

  /** A run succeeds when no step gives up and the builder accepts every set; then it holds all of them, in order. */
  lemma {:induction false} RunSucceeds(held: seq<Commitment>, steps: seq<Step>, accepts: Acceptance,
                                       direction: Direction)
    ensures After(held, steps, accepts, direction).1.Committed? <==>
              !GivesUp(steps) && AllAccepted(held, steps, accepts, direction)
    ensures After(held, steps, accepts, direction).1.Committed? ==>
              After(held, steps, accepts, direction).0 == held + CommitsOf(steps, direction)
    decreases |steps|
  {
    hide GivesUp;
    if steps == [] {
      GivesUpOne(GiveUp);
      assert held + [] == held;
    } else {
      var one := CommitsOf([steps[0]], direction);
      CommitsOfOne(steps[0], direction);
      RunSucceeds(held + one, steps[1..], accepts, direction);
      GivesUpConcat([steps[0]], steps[1..]);
      GivesUpOne(steps[0]);
      assert steps == [steps[0]] + steps[1..];
      assert held + one + CommitsOf(steps[1..], direction) == held + (one + CommitsOf(steps[1..], direction));
    }
  }

  /** The commitments of steps without a `GiveUp` are the steps' sets, and cover what the steps cover. */
  lemma {:induction false} CommitsAreSets(steps: seq<Step>, direction: Direction)
    requires !GivesUp(steps)
    ensures |CommitsOf(steps, direction)| == |steps|
    ensures forall k :: 0 <= k < |steps| ==>
              steps[k].Set? && CommitsOf(steps, direction)[k] == Commitment(direction, steps[k].ranges)
    ensures CommittedIndices(CommitsOf(steps, direction)) == Covered(steps)
  {
    hide GivesUp;
    if steps != [] {
      GivesUpConcat([steps[0]], steps[1..]);
      GivesUpOne(steps[0]);
      assert steps == [steps[0]] + steps[1..];
      CommitsAreSets(steps[1..], direction);
    }
  }

  lemma {:induction false} EverythingAccepted(held: seq<Commitment>, steps: seq<Step>, accepts: Acceptance,
                                              direction: Direction)
    requires forall h, d, rs :: accepts(h, d, rs)
    ensures AllAccepted(held, steps, accepts, direction)
    decreases |steps|
  {
    if steps != [] {
      EverythingAccepted(held + CommitsOf([steps[0]], direction), steps[1..], accepts, direction);
    }
  }

  /**
   With a builder that never fails, `commit_value` succeeds exactly on trees without a redacted node. Then
   what it adds covers the root's span, and each leaf that spans anything is added on its own.
   */
  lemma CommitValueSucceeds(held: seq<Commitment>, v: JsonValue, accepts: Acceptance, direction: Direction)
    requires WellNested(v) && forall h, d, rs :: accepts(h, d, rs)
    ensures After(held, ValueSteps(v), accepts, direction).1.Committed? <==> !HasRedacted(v)
    ensures !HasRedacted(v) ==>
      var commits := CommitsOf(ValueSteps(v), direction);
      && After(held, ValueSteps(v), accepts, direction).0 == held + commits
      && CommittedIndices(commits) == Indices(v.span.indices)
      && forall leaf ::
           leaf in Nodes(v) && !leaf.Container() && !leaf.Redacted? && leaf.span.indices != [] ==>
             Commitment(direction, leaf.span.indices) in commits
  {
    hide After, ValueSteps, HasRedacted, GivesUp, Covered, CommittedIndices, WellNested, Nodes, CommitsOf, AllAccepted;
    var commits := CommitsOf(ValueSteps(v), direction);
    GivesUpOnRedacted(v);
    EverythingAccepted(held, ValueSteps(v), accepts, direction);
    RunSucceeds(held, ValueSteps(v), accepts, direction);
    if !HasRedacted(v) {
      CommitsAreSets(ValueSteps(v), direction);
      ValueIsCovered(v);
      forall leaf | leaf in Nodes(v) && !leaf.Container() && !leaf.Redacted? && leaf.span.indices != []
        ensures Commitment(direction, leaf.span.indices) in commits
      {
        LeafIsCommitted(v, leaf);
        var k :| 0 <= k < |ValueSteps(v)| && ValueSteps(v)[k] == Set(leaf.span.indices);
        assert commits[k] == Commitment(direction, leaf.span.indices);
      }
    }
  }
}
