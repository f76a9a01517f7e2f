/** Which sets the JSON committer commits one by one: a description of them without order, node by node. */
module JsonPieces {
  import opened RangeSets
  import opened Wire
  import opened JsonTree
  import opened JsonCommit
  import opened JsonPartition

  /** The indices of an array's brackets, its first and its last. */
  ghost function Brackets(span: Span): set<nat>
    requires span.indices != []
  {
    LastIndex(span.indices);
    {span.indices[0].start, End(span.indices).value - 1}
  }

  /** A pair with its key, colon and comma, but not its value. */
  ghost predicate PairPiece(kv: KeyValue, x: RangeSet) {
    Indices(x) == Indices(kv.span.indices) - Indices(kv.value.span.indices)
  }

  ghost predicate PairsPiece(pairs: seq<KeyValue>, x: RangeSet) {
    exists k :: 0 <= k < |pairs| && PairPiece(pairs[k], x)
  }

  /** What lies between the brackets of an array and in none of its elements. */
  ghost predicate IsBetween(span: Span, values: seq<JsonValue>, x: RangeSet)
    requires span.indices != []
  {
    Indices(x) == Indices(span.indices) - Brackets(span) - ValueSpans(values)
  }

  /** One unbroken run of it. */
  ghost predicate RunBetween(span: Span, values: seq<JsonValue>, x: RangeSet)
    requires span.indices != []
  {
    exists between: RangeSet :: IsBetween(span, values, between) && IsRunOf(x, between)
  }

  ghost predicate IsRunOf(x: RangeSet, rs: RangeSet) {
    exists k :: 0 <= k < |rs| && x == [rs[k]]
  }

  /** The sets that `commit_structure`, or with `whole` `commit_value`, commits for one node itself. */
  ghost predicate NodePiece(node: JsonValue, x: RangeSet, whole: bool) {
    match node
    case Object(span, pairs) => Indices(x) == Indices(span.indices) - PairSpans(pairs) || PairsPiece(pairs, x)
    case Array(span, values) =>
      && span.indices != []
      && (if whole then
            || x == span.indices
            || (values != [] && (Indices(x) == Brackets(span) || RunBetween(span, values, x)))
          else
            Indices(x) == Brackets(span) || IsBetween(span, values, x))
    case String(span) => whole && x == span.indices && x != []
    case Redacted(_) => false
    case _ => whole && x == node.span.indices
  }

  /** Some node of a set has this piece. */
  ghost predicate PieceOf(nodes: set<JsonValue>, x: RangeSet, whole: bool) {
    exists node :: node in nodes && NodePiece(node, x, whole)
  }

  function Steps(v: JsonValue, whole: bool): seq<Step> { if whole then ValueSteps(v) else StructureSteps(v) }

  function PairsSteps(pairs: seq<KeyValue>, whole: bool): seq<Step> {
    if whole then PairsValueSteps(pairs) else PairStructureSteps(pairs)
  }

  function PairSteps(kv: KeyValue, whole: bool): seq<Step> {
    if whole then OnePairValueSteps(kv) else OnePairStructureSteps(kv)
  }

  function ValuesSteps(values: seq<JsonValue>, whole: bool): seq<Step> {
    if whole then ValuesValueSteps(values) else ValuesStructureSteps(values)
  }

  lemma SameSet(x: RangeSet, y: RangeSet)
    ensures x == y <==> Indices(x) == Indices(y)
  {
    if Indices(x) == Indices(y) { CanonicalUnique(x, y); }
  }

  lemma BracketsAre(span: Span)
    requires |span.indices| == 1
    ensures Indices(WithoutValues(span)) == Brackets(span)
  {
  }

  lemma PieceOfUnion(a: set<JsonValue>, b: set<JsonValue>, x: RangeSet, whole: bool)
    ensures PieceOf(a + b, x, whole) <==> PieceOf(a, x, whole) || PieceOf(b, x, whole)
  {
    hide NodePiece;
    if node :| node in a && NodePiece(node, x, whole) { assert node in a + b; }
    if node :| node in b && NodePiece(node, x, whole) { assert node in a + b; }
  }

  lemma PieceOfOne(node: JsonValue, x: RangeSet, whole: bool)
    ensures PieceOf({node}, x, whole) <==> NodePiece(node, x, whole)
  {
    hide NodePiece;
    assert node in {node};
  }

  /** The steps of a value are the pieces of its nodes. */
  lemma {:induction false} StepsArePieces(v: JsonValue, x: RangeSet, whole: bool)
    requires WellNested(v)
    ensures Set(x) in Steps(v, whole) <==> PieceOf(Nodes(v), x, whole)
    decreases v
  {
    hide PairsPiece, RunBetween, IsBetween, Brackets, PieceOf, PairStructureSteps, PairsValueSteps, ElementSteps,
         MinusPairs, PairSpans, NodesInPairs;
    PieceOfOne(v, x, whole);
    match v
    case Object(span, pairs) =>
      StepsForm(v);
      ChildrenNested(v);
      SameSet(x, MinusPairs(span.indices, pairs));
      PairStepsArePieces(pairs, x, whole);
      PieceOfUnion({v}, NodesInPairs(pairs), x, whole);
    case Array(_, values) =>
      ArrayStepsArePieces(v, x, whole);
    case _ =>
  }

  lemma {:induction false} ArrayStepsArePieces(v: JsonValue, x: RangeSet, whole: bool)
    requires WellNested(v) && v.Array?
    ensures Set(x) in Steps(v, whole) <==> PieceOf(Nodes(v), x, whole)
    decreases v, 0
  {
    hide StructureSteps, ValueSteps, ElementSteps, ValuesValueSteps, ValuesStructureSteps, RangeSteps, RunBetween,
         IsBetween, Brackets, PieceOf, Separators, WithoutValues;
    var span, values := v.span, v.values;
    StepsForm(v);
    ElementsForm(span, values);
    BracketsAre(span);
    PieceOfOne(v, x, whole);
    PieceOfUnion({v}, NodesInValues(values), x, whole);
    SameSet(x, WithoutValues(span));
    SeparatorsAre(span, values, x);
    RangeStepsAreRuns(Separators(span, values), x);
    ChildrenNested(v);
    ValueStepsArePieces(values, x, whole);
    NoSteps();
  }

  lemma ElementsForm(span: Span, values: seq<JsonValue>)
    ensures ElementSteps(span, values) ==
      if values == [] then []
      else [Set(WithoutValues(span))] + (RangeSteps(Separators(span, values)) + ValuesValueSteps(values))
  {
  }

  lemma SeparatorsAre(span: Span, values: seq<JsonValue>, x: RangeSet)
    requires |span.indices| == 1
    ensures x == Separators(span, values) <==> IsBetween(span, values, x)
    ensures IsRunOf(x, Separators(span, values)) <==> RunBetween(span, values, x)
  {
    hide IsRunOf, WithoutValues, Separators, Brackets;
    BracketsAre(span);
    SameSet(x, Separators(span, values));
    assert IsBetween(span, values, Separators(span, values));
    if between: RangeSet :| IsBetween(span, values, between) && IsRunOf(x, between) {
      SameSet(between, Separators(span, values));
    }
  }

  lemma {:induction false} RangeStepsAreRuns(rs: RangeSet, x: RangeSet)
    ensures Set(x) in RangeSteps(rs) <==> IsRunOf(x, rs)
  {
    if rs != [] {
      RangeStepsAreRuns(rs[1..], x);
      RunAlone(rs[0]);
      if k :| 0 <= k < |rs[1..]| && x == [rs[1..][k]] { assert x == [rs[k + 1]]; }
      if k :| 0 <= k < |rs| && x == [rs[k]] && k > 0 { assert x == [rs[1..][k - 1]]; }
    }
  }

  lemma RunAlone(r: Range)
    requires r.start < r.end
    ensures FromRange(r.start, r.end) == [r]
  {
  }

  lemma {:induction false} PairStepsArePieces(pairs: seq<KeyValue>, x: RangeSet, whole: bool)
    requires forall k :: 0 <= k < |pairs| ==> WellNested(pairs[k].value)
    ensures Set(x) in PairsSteps(pairs, whole) <==> PairsPiece(pairs, x) || PieceOf(NodesInPairs(pairs), x, whole)
    decreases pairs
  {
    hide StructureSteps, ValueSteps, OnePairStructureSteps, OnePairValueSteps, WithoutValue, PieceOf, PairPiece;
    if pairs == [] {
      NoPieces(x, whole);
    } else {
      var kv, rest := pairs[0], pairs[1..];
      OnePairStepsArePieces(kv, x, whole);
      PairStepsArePieces(rest, x, whole);
      PieceOfUnion(NodesInPair(kv), NodesInPairs(rest), x, whole);
      if k :| 0 <= k < |rest| && PairPiece(rest[k], x) { assert PairPiece(pairs[k + 1], x); }
      if k :| 0 <= k < |pairs| && PairPiece(pairs[k], x) && k > 0 { assert PairPiece(rest[k - 1], x); }
    }
  }

  lemma {:induction false} OnePairStepsArePieces(kv: KeyValue, x: RangeSet, whole: bool)
    requires WellNested(kv.value)
    ensures Set(x) in PairSteps(kv, whole) <==> PairPiece(kv, x) || PieceOf(NodesInPair(kv), x, whole)
    decreases kv
  {
    hide StructureSteps, ValueSteps, PieceOf, WellNested;
    StepsArePieces(kv.value, x, whole);
    SameSet(x, WithoutValue(kv));
  }

  lemma NoPieces(x: RangeSet, whole: bool)
    ensures !PieceOf({}, x, whole)
  {
  }

  lemma {:induction false} ValueStepsArePieces(values: seq<JsonValue>, x: RangeSet, whole: bool)
    requires forall k :: 0 <= k < |values| ==> WellNested(values[k])
    ensures Set(x) in ValuesSteps(values, whole) <==> PieceOf(NodesInValues(values), x, whole)
    decreases values
  {
    hide StructureSteps, ValueSteps, PieceOf, WellNested;
    if values == [] {
      NoPieces(x, whole);
    } else {
      StepsArePieces(values[0], x, whole);
      ValueStepsArePieces(values[1..], x, whole);
      PieceOfUnion(Nodes(values[0]), NodesInValues(values[1..]), x, whole);
    }
  }

  // ----- Their order

  function Flatten(parts: seq<seq<Step>>): seq<Step> {
    if parts == [] then [] else parts[0] + Flatten(parts[1..])
  }

  /** Frames come before what they frame, children one after the other, and a pair's own set before its value's. */
  lemma StepsInOrder(v: JsonValue, whole: bool)
    requires WellNested(v)
    ensures v.Object? ==> exists frame: RangeSet ::
      && Indices(frame) == Indices(v.span.indices) - PairSpans(v.pairs)
      && Steps(v, whole) ==
           [Set(frame)] + Flatten(seq(|v.pairs|, k requires 0 <= k < |v.pairs| => PairSteps(v.pairs[k], whole)))
    ensures v.Array? && v.values != [] ==> exists brackets: RangeSet, between: RangeSet ::
      && Indices(brackets) == Brackets(v.span) && IsBetween(v.span, v.values, between)
      && var elements := Flatten(seq(|v.values|, k requires 0 <= k < |v.values| => Steps(v.values[k], whole)));
         Steps(v, whole) ==
           if whole then [Set(v.span.indices)] + ([Set(brackets)] + (RangeSteps(between) + elements))
           else [Set(brackets)] + ([Set(between)] + elements)
  {
    hide StructureSteps, ValueSteps, PairStructureSteps, PairsValueSteps, ValuesStructureSteps, ValuesValueSteps,
         ElementSteps, MinusPairs, Separators, WithoutValues, Brackets, IsBetween, RangeSteps, PairSteps, Flatten;
    StepsForm(v);
    if v.Object? {
      FlatPairs(v.pairs, whole);
      var frame := MinusPairs(v.span.indices, v.pairs);
      assert Indices(frame) == Indices(v.span.indices) - PairSpans(v.pairs);
    } else if v.Array? && v.values != [] {
      FlatValues(v.values, whole);
      ElementsForm(v.span, v.values);
      BracketsAre(v.span);
      SeparatorsAre(v.span, v.values, Separators(v.span, v.values));
      var brackets, between := WithoutValues(v.span), Separators(v.span, v.values);
      assert Indices(brackets) == Brackets(v.span) && IsBetween(v.span, v.values, between);
    }
  }

  /** A pair's own set, without its value, and then the value's. */
  lemma PairStepsInOrder(kv: KeyValue, whole: bool)
    ensures PairSteps(kv, whole) != [] && PairSteps(kv, whole)[0].Set? && PairPiece(kv, PairSteps(kv, whole)[0].ranges)
    ensures PairSteps(kv, whole)[1..] == Steps(kv.value, whole)
  {
    hide StructureSteps, ValueSteps;
  }

  lemma {:induction false} FlatPairs(pairs: seq<KeyValue>, whole: bool)
    ensures PairsSteps(pairs, whole) ==
      Flatten(seq(|pairs|, k requires 0 <= k < |pairs| => PairSteps(pairs[k], whole)))
    decreases |pairs|
  {
    hide StructureSteps, ValueSteps, OnePairStructureSteps, OnePairValueSteps;
    if pairs != [] {
      FlatPairs(pairs[1..], whole);
      var parts := seq(|pairs|, k requires 0 <= k < |pairs| => PairSteps(pairs[k], whole));
      var rest := pairs[1..];
      assert parts[1..] == seq(|rest|, k requires 0 <= k < |rest| => PairSteps(rest[k], whole));
    }
  }

  lemma {:induction false} FlatValues(values: seq<JsonValue>, whole: bool)
    ensures ValuesSteps(values, whole) ==
      Flatten(seq(|values|, k requires 0 <= k < |values| => Steps(values[k], whole)))
    decreases |values|
  {
    hide StructureSteps, ValueSteps;
    if values != [] {
      FlatValues(values[1..], whole);
      var parts := seq(|values|, k requires 0 <= k < |values| => Steps(values[k], whole));
      var rest := values[1..];
      assert parts[1..] == seq(|rest|, k requires 0 <= k < |rest| => Steps(rest[k], whole));
    }
  }

  // ----- Runs

  /** Commitment `i` was accepted by a builder that held everything before it. */
  ghost predicate AcceptedAt(commits: seq<Commitment>, i: nat, accepts: Acceptance)
    requires i < |commits|
  {
    accepts(commits[..i], commits[i].direction, commits[i].ranges)
  }

  lemma NowAccepted(held: seq<Commitment>, one: Commitment, accepts: Acceptance)
    requires accepts(held, one.direction, one.ranges)
    ensures AcceptedAt(held + [one], |held|, accepts)
  {
    assert (held + [one])[..|held|] == held;
  }

  lemma SameAcceptance(sent: seq<Commitment>, after: seq<Commitment>, i: nat, accepts: Acceptance)
    requires sent <= after && i < |sent| && AcceptedAt(sent, i, accepts)
    ensures after[i] == sent[i] && AcceptedAt(after, i, accepts)
  {
    assert after[..i] == sent[..i];
  }

  /** What a run of steps adds: accepted commitments of its steps, all of them if it succeeds, or up to one refused. */
  ghost predicate Adds(held: seq<Commitment>, after: seq<Commitment>, outcome: Outcome, steps: seq<Step>,
                       accepts: Acceptance, direction: Direction)
  {
    && held <= after
    && (forall i :: |held| <= i < |after| ==>
          AcceptedAt(after, i, accepts) && after[i].direction == direction && Set(after[i].ranges) in steps)
    && match outcome
       case Committed => GiveUp !in steps && forall x :: Set(x) in steps ==> Commitment(direction, x) in after[|held|..]
       case Refused => exists x :: Set(x) in steps && !accepts(after, direction, x)
       case CannotCommitRedacted => GiveUp in steps
  }

  lemma AddsOneMore(held: seq<Commitment>, ranges: RangeSet, after: seq<Commitment>, outcome: Outcome, rest: seq<Step>,
                    accepts: Acceptance, direction: Direction)
    requires accepts(held, direction, ranges)
    requires Adds(held + [Commitment(direction, ranges)], after, outcome, rest, accepts, direction)
    ensures Adds(held, after, outcome, [Set(ranges)] + rest, accepts, direction)
  {
    hide AcceptedAt;
    var one := Commitment(direction, ranges);
    NowAccepted(held, one, accepts);
    SameAcceptance(held + [one], after, |held|, accepts);
    assert after[|held|..] == [one] + after[|held + [one]|..];
    if outcome.Refused? {
      var x :| Set(x) in rest && !accepts(after, direction, x);
      assert Set(x) in [Set(ranges)] + rest;
    }
  }

  lemma {:induction false} RunAdds(held: seq<Commitment>, steps: seq<Step>, accepts: Acceptance, direction: Direction)
    ensures var (after, outcome) := After(held, steps, accepts, direction);
      Adds(held, after, outcome, steps, accepts, direction)
    decreases |steps|
  {
    hide Adds;
    if steps == [] || steps[0].GiveUp? {
      AddsNothing(held, steps, accepts, direction);
    } else {
      var ranges, rest := steps[0].ranges, steps[1..];
      assert steps == [Set(ranges)] + rest;
      if accepts(held, direction, ranges) {
        var held' := held + [Commitment(direction, ranges)];
        var (after, outcome) := After(held', rest, accepts, direction);
        RunAdds(held', rest, accepts, direction);
        AddsOneMore(held, ranges, after, outcome, rest, accepts, direction);
      } else {
        AddsNothing(held, steps, accepts, direction);
      }
    }
  }

  lemma AddsNothing(held: seq<Commitment>, steps: seq<Step>, accepts: Acceptance, direction: Direction)
    ensures steps == [] ==> Adds(held, held, Committed, steps, accepts, direction)
    ensures steps != [] && steps[0].GiveUp? ==> Adds(held, held, CannotCommitRedacted, steps, accepts, direction)
    ensures steps != [] && steps[0].Set? && !accepts(held, direction, steps[0].ranges) ==>
      Adds(held, held, Refused, steps, accepts, direction)
  {
    if steps != [] && steps[0].Set? { assert Set(steps[0].ranges) in steps; }
  }

  /**
   What a run over a value leaves, with `whole` of `commit_value` and else of `commit_structure`: every new
   commitment is a piece of a node and was accepted; if the run succeeds, all pieces of all nodes are there, and
   if not, one of them was refused, or a redacted value stopped `commit_value`.
   */
  lemma RunCommitsPieces(held: seq<Commitment>, v: JsonValue, whole: bool, accepts: Acceptance, direction: Direction)
    requires WellNested(v)
    ensures var (after, outcome) := After(held, Steps(v, whole), accepts, direction);
      && held <= after
      && (forall i :: |held| <= i < |after| ==>
            && AcceptedAt(after, i, accepts)
            && after[i].direction == direction && PieceOf(Nodes(v), after[i].ranges, whole))
      && (outcome.Committed? ==>
            forall x :: PieceOf(Nodes(v), x, whole) ==> Commitment(direction, x) in after[|held|..])
      && (outcome.Refused? ==> exists x :: PieceOf(Nodes(v), x, whole) && !accepts(after, direction, x))
      && (outcome.CannotCommitRedacted? ==> whole && HasRedacted(v))
  {
    hide After, Steps, PieceOf, Nodes, WellNested, AcceptedAt, HasRedacted;
    var (after, outcome) := After(held, Steps(v, whole), accepts, direction);
    RunAdds(held, Steps(v, whole), accepts, direction);
    GiveUpIsRedacted(v, whole);
    forall x ensures Set(x) in Steps(v, whole) <==> PieceOf(Nodes(v), x, whole) {
      StepsArePieces(v, x, whole);
    }
    if outcome.Refused? {
      var x :| Set(x) in Steps(v, whole) && !accepts(after, direction, x);
      assert PieceOf(Nodes(v), x, whole);
    }
  }

  lemma GiveUpIsRedacted(v: JsonValue, whole: bool)
    requires WellNested(v)
    ensures GiveUp in Steps(v, whole) ==> whole && HasRedacted(v)
  {
    hide ValueSteps, StructureSteps, WellNested, Covered, Apart, HasRedacted;
    if whole {
      GivesUpOnRedacted(v);
    } else {
      StructurePartition(v);
    }
  }
}
