/** The JSON committer: which index sets it hands to the commitment builder, and what they add up to. */
module JsonCommit {
  import opened RangeSets
  import opened Wire
  import opened JsonTree

  // ----- The commitment builder

  datatype Commitment = Commitment(direction: Direction, ranges: RangeSet)

  /** How a commit call ends: all done, refused by the builder, or stopped at a redacted value. */
  datatype Outcome = Committed | Refused | CannotCommitRedacted

  /** What a builder accepts: it may decide by what it holds already. */
  type Acceptance = (seq<Commitment>, Direction, RangeSet) -> bool

  /** A builder keeps what it accepts; which sets it accepts is up to the builder. */
  class CommitmentBuilder {
    const accepts: Acceptance
    var commits: seq<Commitment>

    constructor (accepts: Acceptance)
      ensures this.accepts == accepts && commits == []
    {
      this.accepts := accepts;
      commits := [];
    }

    method Commit(ranges: RangeSet, direction: Direction) returns (outcome: Outcome)
      modifies this
      ensures outcome == if accepts(old(commits), direction, ranges) then Committed else Refused
      ensures commits == old(commits) + if outcome.Committed? then [Commitment(direction, ranges)] else []
    {
      if accepts(commits, direction, ranges) {
        commits := commits + [Commitment(direction, ranges)];
        outcome := Committed;
      } else {
        outcome := Refused;
      }
    }
  }

  // ----- The pieces a container is cut into

  /** `KeyValue::without_value` */
  function WithoutValue(kv: KeyValue): (rs: RangeSet)
    ensures Indices(rs) == Indices(kv.span.indices) - Indices(kv.value.span.indices)
  {
    Difference(kv.span.indices, kv.value.span.indices)
  }

  /** The indices any of the pairs spans. */
  ghost function PairSpans(pairs: seq<KeyValue>): set<nat> {
    if pairs == [] then {} else Indices(pairs[0].span.indices) + PairSpans(pairs[1..])
  }

  ghost function ValueSpans(values: seq<JsonValue>): set<nat> {
    if values == [] then {} else Indices(values[0].span.indices) + ValueSpans(values[1..])
  }

  /** What is left of `indices` once every pair is taken out. */
  function MinusPairs(indices: RangeSet, pairs: seq<KeyValue>): (rs: RangeSet)
    ensures Indices(rs) == Indices(indices) - PairSpans(pairs)
    decreases |pairs|
  {
    if pairs == [] then indices else MinusPairs(Difference(indices, pairs[0].span.indices), pairs[1..])
  }

  /** `Object::without_pairs` */
  method WithoutPairs(span: Span, pairs: seq<KeyValue>) returns (indices: RangeSet)
    ensures indices == MinusPairs(span.indices, pairs)
  {
    indices := span.indices;
    assert pairs[0..] == pairs;
    for k := 0 to |pairs|
      invariant MinusPairs(indices, pairs[k..]) == MinusPairs(span.indices, pairs)
    {
      assert pairs[k..][1..] == pairs[k + 1..];
      indices := Difference(indices, pairs[k].span.indices);
    }
  }

  /**
   `Array::without_values`: the first and the last index. The code expects the span to hold at least
   the brackets, as every well-nested array's does.
   */
  function WithoutValues(span: Span): (rs: RangeSet)
    ensures |span.indices| == 1 ==> Indices(rs) == {span.indices[0].start, span.indices[0].end - 1}
  {
    if span.indices == [] then []
    else
      LastIndex(span.indices);
      var first, last := span.indices[0].start, End(span.indices).value - 1;
      SingleIndex(first);
      SingleIndex(last);
      Union(FromRange(first, first + 1), FromRange(last, last + 1))
  }

  lemma SingleIndex(x: nat)
    ensures RangeIndices(Range(x, x + 1)) == {x}
  {
  }

  /** The fold of `Array::separators`. */
  function MinusValues(indices: RangeSet, values: seq<JsonValue>): (rs: RangeSet)
    ensures Indices(rs) == Indices(indices) - ValueSpans(values)
    decreases |values|
  {
    if values == [] then indices else MinusValues(Difference(indices, values[0].span.indices), values[1..])
  }

  /** `Array::separators` */
  function Separators(span: Span, values: seq<JsonValue>): (rs: RangeSet)
    ensures Indices(rs) == Indices(span.indices) - Indices(WithoutValues(span)) - ValueSpans(values)
  {
    MinusValues(Difference(span.indices, WithoutValues(span)), values)
  }

  // ----- What is committed, in order

  /** One thing the committer does next: commit a set, or give up on a redacted value. */
  datatype Step = Set(ranges: RangeSet) | GiveUp

  /** The commits `commit_structure` makes. */
  function StructureSteps(v: JsonValue): seq<Step>
  {
    match v
    case Object(span, pairs) => [Set(MinusPairs(span.indices, pairs))] + PairStructureSteps(pairs)
    case Array(span, values) =>
      [Set(WithoutValues(span))] + ([Set(Separators(span, values))] + ValuesStructureSteps(values))
    case _ => []
  }

  function PairStructureSteps(pairs: seq<KeyValue>): seq<Step>
    decreases pairs
  {
    if pairs == [] then [] else OnePairStructureSteps(pairs[0]) + PairStructureSteps(pairs[1..])
  }

  function OnePairStructureSteps(kv: KeyValue): seq<Step>
  {
    [Set(WithoutValue(kv))] + StructureSteps(kv.value)
  }

  function ValuesStructureSteps(values: seq<JsonValue>): seq<Step>
    decreases values
  {
    if values == [] then [] else StructureSteps(values[0]) + ValuesStructureSteps(values[1..])
  }

  /** The commits `commit_value` makes. */
  function ValueSteps(v: JsonValue): seq<Step>
  {
    match v
    case Object(span, pairs) => [Set(MinusPairs(span.indices, pairs))] + PairsValueSteps(pairs)
    case Array(span, values) => [Set(span.indices)] + ElementSteps(span, values)
    case String(span) => if span.indices == [] then [] else [Set(span.indices)]
    case Redacted(_) => [GiveUp]
    case _ => [Set(v.span.indices)]
  }

  /** An array without elements is committed as a whole only. */
  function ElementSteps(span: Span, values: seq<JsonValue>): seq<Step>
    decreases values, 1
  {
    if values == [] then []
    else [Set(WithoutValues(span))] + (RangeSteps(Separators(span, values)) + ValuesValueSteps(values))
  }

  function PairsValueSteps(pairs: seq<KeyValue>): seq<Step>
    decreases pairs
  {
    if pairs == [] then [] else OnePairValueSteps(pairs[0]) + PairsValueSteps(pairs[1..])
  }

  function OnePairValueSteps(kv: KeyValue): seq<Step>
  {
    [Set(WithoutValue(kv))] + ValueSteps(kv.value)
  }

  function ValuesValueSteps(values: seq<JsonValue>): seq<Step>
    decreases values, 0
  {
    if values == [] then [] else ValueSteps(values[0]) + ValuesValueSteps(values[1..])
  }

  /** One commit for each range of a set. */
  function RangeSteps(rs: RangeSet): seq<Step> {
    if rs == [] then [] else [Set(FromRange(rs[0].start, rs[0].end))] + RangeSteps(rs[1..])
  }

  /**
   What a builder that holds `held` will hold once the steps are run, and how they end: the first refusal
   ends them, and so does giving up.
   */
  function After(held: seq<Commitment>, steps: seq<Step>, accepts: Acceptance, direction: Direction)
    : (seq<Commitment>, Outcome)
    decreases |steps|
  {
    if steps == [] then (held, Committed)
    else if steps[0].GiveUp? then (held, CannotCommitRedacted)
    else if !accepts(held, direction, steps[0].ranges) then (held, Refused)
    else After(held + [Commitment(direction, steps[0].ranges)], steps[1..], accepts, direction)
  }

  lemma {:induction false} AfterSet(held: seq<Commitment>, ranges: RangeSet, rest: seq<Step>, accepts: Acceptance,
                                    direction: Direction)
    ensures After(held, [Set(ranges)] + rest, accepts, direction) ==
            if accepts(held, direction, ranges)
            then After(held + [Commitment(direction, ranges)], rest, accepts, direction)
            else (held, Refused)
  {
    assert ([Set(ranges)] + rest)[1..] == rest;
  }

  lemma {:induction false} AfterSteps(held: seq<Commitment>, steps: seq<Step>, rest: seq<Step>, accepts: Acceptance,
                                      direction: Direction)
    ensures var (now, outcome) := After(held, steps, accepts, direction);
      After(held, steps + rest, accepts, direction) ==
      if outcome.Committed? then After(now, rest, accepts, direction) else (now, outcome)
    decreases |steps|
  {
    if steps == [] {
      assert steps + rest == rest;
    } else if steps[0].Set? {
      assert (steps + rest)[1..] == steps[1..] + rest;
      AfterSteps(held + [Commitment(direction, steps[0].ranges)], steps[1..], rest, accepts, direction);
    }
  }

  lemma NothingLeft(held: seq<Commitment>, accepts: Acceptance, direction: Direction)
    ensures After(held, [], accepts, direction) == (held, Committed)
  {
  }

  lemma NoSteps()
    ensures PairStructureSteps([]) == [] && ValuesStructureSteps([]) == []
    ensures PairsValueSteps([]) == [] && ValuesValueSteps([]) == []
  {
  }

  lemma ChildrenNested(v: JsonValue)
    requires WellNested(v)
    ensures v.Object? ==> forall k :: 0 <= k < |v.pairs| ==> WellNested(v.pairs[k].value)
    ensures v.Array? ==> forall k :: 0 <= k < |v.values| ==> WellNested(v.values[k])
  {
    match v
    case Object(span, pairs) =>
      assert PairsNested(pairs, span.indices[0].start + 1, span.indices[0].end - 1);
      forall k | 0 <= k < |pairs| ensures WellNested(pairs[k].value) {
        assert PairNested(pairs[k]);
      }
    case Array(span, values) =>
      assert ValuesNested(values, span.indices[0].start + 1, span.indices[0].end - 1);
    case _ =>
  }

  lemma StepsForm(v: JsonValue)
    ensures v.Object? ==>
              && StructureSteps(v) == [Set(MinusPairs(v.span.indices, v.pairs))] + PairStructureSteps(v.pairs)
              && ValueSteps(v) == [Set(MinusPairs(v.span.indices, v.pairs))] + PairsValueSteps(v.pairs)
    ensures v.Array? ==>
              && StructureSteps(v) ==
                 [Set(WithoutValues(v.span))] + ([Set(Separators(v.span, v.values))] + ValuesStructureSteps(v.values))
              && ValueSteps(v) == [Set(v.span.indices)] + ElementSteps(v.span, v.values)
    ensures !v.Container() ==> StructureSteps(v) == []
  {
  }

  lemma ValueStepsFrom(values: seq<JsonValue>, k: nat)
    requires k < |values|
    ensures ValuesStructureSteps(values[k..]) == StructureSteps(values[k]) + ValuesStructureSteps(values[k + 1..])
    ensures ValuesValueSteps(values[k..]) == ValueSteps(values[k]) + ValuesValueSteps(values[k + 1..])
  {
    assert values[k..][1..] == values[k + 1..];
  }

  lemma PairStepsFrom(pairs: seq<KeyValue>, k: nat)
    requires k < |pairs|
    ensures PairStructureSteps(pairs[k..]) ==
            [Set(WithoutValue(pairs[k]))] + (StructureSteps(pairs[k].value) + PairStructureSteps(pairs[k + 1..]))
    ensures PairsValueSteps(pairs[k..]) == OnePairValueSteps(pairs[k]) + PairsValueSteps(pairs[k + 1..])
  {
    assert pairs[k..][1..] == pairs[k + 1..];
  }

  // ----- The committer

  /** Commits the next set when the steps still to run begin with it. */
  method CommitNext(builder: CommitmentBuilder, ranges: RangeSet, direction: Direction,
                    ghost rest: seq<Step>) returns (outcome: Outcome)
    modifies builder
    ensures After(old(builder.commits), [Set(ranges)] + rest, builder.accepts, direction) ==
            if outcome.Committed? then After(builder.commits, rest, builder.accepts, direction)
            else (builder.commits, outcome)
  {
    AfterSet(builder.commits, ranges, rest, builder.accepts, direction);
    assert builder.commits + [] == builder.commits;
    outcome := builder.Commit(ranges, direction);
  }

  /** `commit_structure`: every set but the leaves'. */
  method CommitStructure(builder: CommitmentBuilder, direction: Direction, json: JsonValue) returns (outcome: Outcome)
    requires WellNested(json)
    modifies builder
    ensures (builder.commits, outcome) == After(old(builder.commits), StructureSteps(json), builder.accepts, direction)
    decreases json
  {
    hide After, WellNested, StructureSteps, PairStructureSteps, ValuesStructureSteps, MinusPairs;
    ChildrenNested(json);
    StepsForm(json);
    NoSteps();
    ghost var goal := After(builder.commits, StructureSteps(json), builder.accepts, direction);
    match json
    case Object(span, pairs) =>
      var frame := WithoutPairs(span, pairs);
      outcome := CommitNext(builder, frame, direction, PairStructureSteps(pairs));
      if outcome != Committed { return; }
      assert pairs[0..] == pairs;
      for k := 0 to |pairs|
        invariant outcome.Committed?
        invariant goal == After(builder.commits, PairStructureSteps(pairs[k..]), builder.accepts, direction)
      {
        var kv := pairs[k];
        ghost var rest := PairStructureSteps(pairs[k + 1..]);
        PairStepsFrom(pairs, k);
        outcome := CommitNext(builder, WithoutValue(kv), direction, StructureSteps(kv.value) + rest);
        if outcome != Committed { return; }
        AfterSteps(builder.commits, StructureSteps(kv.value), rest, builder.accepts, direction);
        outcome := CommitStructure(builder, direction, kv.value);
        if outcome != Committed { return; }
      }
      assert pairs[|pairs|..] == [];
      NothingLeft(builder.commits, builder.accepts, direction);
    case Array(span, values) =>
      ghost var tail := ValuesStructureSteps(values);
      outcome := CommitNext(builder, WithoutValues(span), direction, [Set(Separators(span, values))] + tail);
      if outcome != Committed { return; }
      outcome := CommitNext(builder, Separators(span, values), direction, tail);
      if outcome != Committed { return; }
      assert values[0..] == values;
      for k := 0 to |values|
        invariant outcome.Committed?
        invariant goal == After(builder.commits, ValuesStructureSteps(values[k..]), builder.accepts, direction)
      {
        ghost var rest := ValuesStructureSteps(values[k + 1..]);
        ValueStepsFrom(values, k);
        AfterSteps(builder.commits, StructureSteps(values[k]), rest, builder.accepts, direction);
        outcome := CommitStructure(builder, direction, values[k]);
        if outcome != Committed { return; }
      }
      assert values[|values|..] == [];
      NothingLeft(builder.commits, builder.accepts, direction);
    case _ =>
      NothingLeft(builder.commits, builder.accepts, direction);
      outcome := Committed;
  }

  /** `commit_value` */
  method CommitValue(builder: CommitmentBuilder, value: JsonValue, direction: Direction) returns (outcome: Outcome)
    requires WellNested(value)
    modifies builder
    ensures (builder.commits, outcome) == After(old(builder.commits), ValueSteps(value), builder.accepts, direction)
    decreases value, 1
  {
    match value
    case Object(_, _) => outcome := CommitObject(builder, value, direction);
    case Array(_, _) => outcome := CommitArray(builder, value, direction);
    case String(span) => outcome := CommitString(builder, span, direction);
    case Redacted(_) =>
      outcome := CannotCommitRedacted;
      assert builder.commits + [] == builder.commits;
    case _ => outcome := CommitSpan(builder, value.span, direction);
  }

  /** `commit_object`: the object without its pairs, then each pair. */
  method CommitObject(builder: CommitmentBuilder, json: JsonValue, direction: Direction) returns (outcome: Outcome)
    requires WellNested(json) && json.Object?
    modifies builder
    ensures (builder.commits, outcome) == After(old(builder.commits), ValueSteps(json), builder.accepts, direction)
    decreases json, 0
  {
    hide After, WellNested, ValueSteps, PairsValueSteps, OnePairValueSteps, MinusPairs;
    ChildrenNested(json);
    StepsForm(json);
    NoSteps();
    var pairs := json.pairs;
    ghost var goal := After(builder.commits, ValueSteps(json), builder.accepts, direction);
    var frame := WithoutPairs(json.span, pairs);
    outcome := CommitNext(builder, frame, direction, PairsValueSteps(pairs));
    if outcome != Committed { return; }
    assert pairs[0..] == pairs;
    for k := 0 to |pairs|
      invariant outcome.Committed?
      invariant goal == After(builder.commits, PairsValueSteps(pairs[k..]), builder.accepts, direction)
    {
      PairStepsFrom(pairs, k);
      AfterSteps(builder.commits, OnePairValueSteps(pairs[k]), PairsValueSteps(pairs[k + 1..]), builder.accepts,
                 direction);
      outcome := CommitKeyValue(builder, pairs[k], direction);
      if outcome != Committed { return; }
    }
    assert pairs[|pairs|..] == [];
    NothingLeft(builder.commits, builder.accepts, direction);
  }

  /** `commit_key_value`: the pair without its value, then the value. */
  method CommitKeyValue(builder: CommitmentBuilder, kv: KeyValue, direction: Direction) returns (outcome: Outcome)
    requires WellNested(kv.value)
    modifies builder
    ensures (builder.commits, outcome) == After(old(builder.commits), OnePairValueSteps(kv), builder.accepts, direction)
    decreases kv, 0
  {
    outcome := CommitNext(builder, WithoutValue(kv), direction, ValueSteps(kv.value));
    if outcome != Committed { return; }
    outcome := CommitValue(builder, kv.value, direction);
  }

  /** `commit_array`: the whole array, then, unless it is empty, its brackets, separators and elements. */
  method CommitArray(builder: CommitmentBuilder, json: JsonValue, direction: Direction) returns (outcome: Outcome)
    requires WellNested(json) && json.Array?
    modifies builder
    ensures (builder.commits, outcome) == After(old(builder.commits), ValueSteps(json), builder.accepts, direction)
    decreases json, 0
  {
    hide After, WellNested, ValueSteps, ValuesValueSteps, RangeSteps, Separators;
    ChildrenNested(json);
    StepsForm(json);
    NoSteps();
    var span, values := json.span, json.values;
    ghost var goal := After(builder.commits, ValueSteps(json), builder.accepts, direction);
    outcome := CommitNext(builder, span.indices, direction, ElementSteps(span, values));
    if outcome != Committed { return; }
    if values != [] {
      var separators := Separators(span, values);
      ghost var tail := ValuesValueSteps(values);
      outcome := CommitNext(builder, WithoutValues(span), direction, RangeSteps(separators) + tail);
      if outcome != Committed { return; }
      AfterSteps(builder.commits, RangeSteps(separators), tail, builder.accepts, direction);
      outcome := CommitRanges(builder, separators, direction);
      if outcome != Committed { return; }
      assert values[0..] == values;
      for k := 0 to |values|
        invariant outcome.Committed?
        invariant goal == After(builder.commits, ValuesValueSteps(values[k..]), builder.accepts, direction)
      {
        ValueStepsFrom(values, k);
        AfterSteps(builder.commits, ValueSteps(values[k]), ValuesValueSteps(values[k + 1..]), builder.accepts,
                   direction);
        outcome := CommitValue(builder, values[k], direction);
        if outcome != Committed { return; }
      }
      assert values[|values|..] == [];
    }
    NothingLeft(builder.commits, builder.accepts, direction);
  }

  /** The loop of `commit_array` over `separators().iter_ranges()`: each range on its own. */
  method CommitRanges(builder: CommitmentBuilder, ranges: RangeSet, direction: Direction) returns (outcome: Outcome)
    modifies builder
    ensures (builder.commits, outcome) == After(old(builder.commits), RangeSteps(ranges), builder.accepts, direction)
  {
    hide After;
    NothingLeft(builder.commits, builder.accepts, direction);
    ghost var goal := After(builder.commits, RangeSteps(ranges), builder.accepts, direction);
    var rest := ranges;
    outcome := Committed;
    while rest != []
      invariant outcome.Committed?
      invariant goal == After(builder.commits, RangeSteps(rest), builder.accepts, direction)
      decreases |rest|
    {
      outcome := CommitNext(builder, FromRange(rest[0].start, rest[0].end), direction, RangeSteps(rest[1..]));
      if outcome != Committed { return; }
      rest := rest[1..];
    }
    NothingLeft(builder.commits, builder.accepts, direction);
  }

  /** `commit_string`: nothing at all for an empty string. */
  method CommitString(builder: CommitmentBuilder, span: Span, direction: Direction) returns (outcome: Outcome)
    modifies builder
    ensures (builder.commits, outcome)
       == After(old(builder.commits), ValueSteps(String(span)), builder.accepts, direction)
  {
    NothingLeft(builder.commits, builder.accepts, direction);
    if span.indices == [] { return Committed; }
    outcome := CommitSpan(builder, span, direction);
  }

  /** `commit_number`, `commit_bool` and `commit_null`, which differ in their error messages only. */
  method CommitSpan(builder: CommitmentBuilder, span: Span, direction: Direction) returns (outcome: Outcome)
    modifies builder
    ensures (builder.commits, outcome) == After(old(builder.commits), [Set(span.indices)], builder.accepts, direction)
  {
    outcome := CommitNext(builder, span.indices, direction, []);
    NothingLeft(builder.commits, builder.accepts, direction);
    assert [Set(span.indices)] + [] == [Set(span.indices)];
  }
}
