/** The JSON enforcer: which values fit a structure, and what a fitting value is good for. */
module JsonEnforcer {
  import opened RangeSets
  import opened Wire
  import opened Numerals
  import opened JsonTree
  import opened JsonPaths
  import opened JsonDisclosure

  /** `visit_value`: holds when the visit passes every assertion and every index is in range. */
  predicate Accepts(structure: JsonValue, value: JsonValue) {
    match structure
    case Redacted(_) => true
    case Null(_) => value.Null?
    case Bool(span) => value.Bool? && span.data == value.span.data
    case Number(span) => value.Number? && span.data == value.span.data
    case String(span) => value.String? && span.data == value.span.data
    case Array(_, values) => value.Array? && AcceptsValues(values, value.values)
    case Object(_, pairs) => value.Object? && AcceptsPairs(pairs, value.pairs)
  }

  /** `visit_array` */
  predicate AcceptsValues(structure: seq<JsonValue>, values: seq<JsonValue>)
    decreases structure
  {
    structure == [] || (values != [] && Accepts(structure[0], values[0]) && AcceptsValues(structure[1..], values[1..]))
  }

  /** `visit_object` */
  predicate AcceptsPairs(structure: seq<KeyValue>, pairs: seq<KeyValue>)
    decreases structure
  {
    structure == [] || (AcceptsPair(structure[0], pairs) && AcceptsPairs(structure[1..], pairs))
  }

  predicate AcceptsPair(kv: KeyValue, pairs: seq<KeyValue>) {
    var matching := FindPair(pairs, kv.key.data);
    matching.Some? && Accepts(kv.value, matching.value.value)
  }

  /** An array may be longer than its structure, never shorter. */
  lemma {:induction false} AcceptsArrayPointwise(structure: seq<JsonValue>, values: seq<JsonValue>)
    ensures AcceptsValues(structure, values) <==>
      |structure| <= |values| && forall k :: 0 <= k < |structure| ==> Accepts(structure[k], values[k])
  {
    hide Accepts;
    if structure != [] && values != [] {
      AcceptsArrayPointwise(structure[1..], values[1..]);
      assert forall k :: 1 <= k < |structure| ==> structure[k] == structure[1..][k - 1];
      assert forall k :: 1 <= k < |values| ==> values[k] == values[1..][k - 1];
      if |structure| <= |values| && forall k :: 0 <= k < |structure| ==> Accepts(structure[k], values[k]) {
        forall k | 0 <= k < |structure| - 1 ensures Accepts(structure[1..][k], values[1..][k]) {
          assert Accepts(structure[k + 1], values[k + 1]);
        }
      }
    }
  }

  lemma {:induction false} AcceptsObjectPointwise(structure: seq<KeyValue>, pairs: seq<KeyValue>)
    ensures AcceptsPairs(structure, pairs) <==> forall kv :: kv in structure ==> AcceptsPair(kv, pairs)
  {
    hide AcceptsPair;
    if structure != [] {
      AcceptsObjectPointwise(structure[1..], pairs);
      assert structure[0] in structure;
      assert forall kv :: kv in structure[1..] ==> kv in structure;
      if AcceptsPairs(structure, pairs) {
        forall kv | kv in structure ensures AcceptsPair(kv, pairs) {
          assert structure == [structure[0]] + structure[1..];
        }
      }
    }
  }

  // ----- What acceptance means

  ghost predicate SameKind(a: JsonValue, b: JsonValue) {
    match a
    case Null(_) => b.Null?
    case Bool(_) => b.Bool?
    case Number(_) => b.Number?
    case String(_) => b.String?
    case Redacted(_) => b.Redacted?
    case Array(_, _) => b.Array?
    case Object(_, _) => b.Object?
  }

  /** A redacted node goes with anything, any other with its own kind; booleans, numbers and strings read the same. */
  ghost predicate Agree(s: JsonValue, v: JsonValue) {
    s.Redacted? || (SameKind(s, v) && (s.Bool? || s.Number? || s.String? ==> s.span.data == v.span.data))
  }

  /** A leaf is accepted exactly when it agrees. */
  lemma LeafIsAccepted(s: JsonValue, v: JsonValue)
    requires !s.Container()
    ensures Accepts(s, v) <==> Agree(s, v)
  {
  }

  /** What a position of the structure is compared with: the same element, or the value of the first such key. */
  ghost predicate ComparedWith(s: JsonValue, v: JsonValue, position: seq<nat>, y: JsonValue)
    decreases position
  {
    if position == [] then y == v
    else if s.Array? && position[0] < |s.values| then
      && v.Array? && position[0] < |v.values|
      && ComparedWith(s.values[position[0]], v.values[position[0]], position[1..], y)
    else if s.Object? && position[0] < |s.pairs| then
      && v.Object?
      && exists k ::
           && 0 <= k < |v.pairs| && FirstOfKey(v.pairs, k)
           && v.pairs[k].key.data == s.pairs[position[0]].key.data
           && ComparedWith(s.pairs[position[0]].value, v.pairs[k].value, position[1..], y)
    else false
  }

  /** Every node of the structure, wherever it stands, is compared with a node that agrees with it. */
  ghost predicate AgreesEverywhere(s: JsonValue, v: JsonValue) {
    forall position: seq<nat> {:trigger NodeAt(s, position)} ::
      NodeAt(s, position).Some? ==> AgreesAt(s, v, position)
  }

  ghost predicate AgreesAt(s: JsonValue, v: JsonValue, position: seq<nat>)
    requires NodeAt(s, position).Some?
  {
    exists y :: ComparedWith(s, v, position, y) && Agree(NodeAt(s, position).value, y)
  }

  /** A value is accepted exactly when every node of the structure agrees with what it is compared with. */
  lemma {:induction false} AcceptsIffAgrees(s: JsonValue, v: JsonValue)
    ensures Accepts(s, v) <==> AgreesEverywhere(s, v)
    decreases s
  {
    hide Accepts, Agree;
    if Accepts(s, v) {
      forall position: seq<nat> | NodeAt(s, position).Some? ensures AgreesAt(s, v, position) {
        AcceptedAgrees(s, v, position);
      }
    } else if AgreesEverywhere(s, v) {
      RootAgrees(s, v);
      ContainerForm(s, v);
      match s
      case Array(_, values) => AgreeingValuesAreAccepted(s, v);
      case Object(_, pairs) => AgreeingPairsAreAccepted(s, v);
      case _ => LeafIsAccepted(s, v);
    }
  }

  lemma RootAgrees(s: JsonValue, v: JsonValue)
    requires AgreesEverywhere(s, v)
    ensures Agree(s, v)
  {
    hide Agree;
    assert NodeAt(s, []) == Some(s);
    assert AgreesAt(s, v, []);
  }

  lemma ContainerForm(s: JsonValue, v: JsonValue)
    ensures s.Array? ==> (Accepts(s, v) <==> v.Array? && AcceptsValues(s.values, v.values))
    ensures s.Object? ==> (Accepts(s, v) <==> v.Object? && AcceptsPairs(s.pairs, v.pairs))
    ensures s.Container() && Agree(s, v) ==> SameKind(s, v)
  {
  }

  /** In an accepted value, every position of the structure agrees. */
  lemma {:induction false} AcceptedAgrees(s: JsonValue, v: JsonValue, position: seq<nat>)
    requires Accepts(s, v) && NodeAt(s, position).Some?
    ensures AgreesAt(s, v, position)
    decreases position
  {
    hide Accepts, Agree, AcceptsPairs, AcceptsValues, FirstOfKey;
    ContainerForm(s, v);
    if position == [] {
      AcceptedRootAgrees(s, v);
      assert ComparedWith(s, v, position, v);
    } else if s.Array? {
      AcceptsArrayPointwise(s.values, v.values);
      var i := position[0];
      AcceptedAgrees(s.values[i], v.values[i], position[1..]);
      var y :| ComparedWith(s.values[i], v.values[i], position[1..], y) && Agree(NodeAt(s, position).value, y);
      assert ComparedWith(s, v, position, y);
    } else {
      AcceptsObjectPointwise(s.pairs, v.pairs);
      var kv := s.pairs[position[0]];
      assert AcceptsPair(kv, v.pairs);
      var k := FirstIsFound(v.pairs, kv.key.data);
      AcceptedAgrees(kv.value, v.pairs[k].value, position[1..]);
      var y :| ComparedWith(kv.value, v.pairs[k].value, position[1..], y) && Agree(NodeAt(s, position).value, y);
      assert ComparedWith(s, v, position, y);
    }
  }

  lemma AcceptedRootAgrees(s: JsonValue, v: JsonValue)
    requires Accepts(s, v)
    ensures Agree(s, v)
  {
  }

  lemma {:induction false} AgreeingValuesAreAccepted(s: JsonValue, v: JsonValue)
    requires s.Array? && v.Array? && AgreesEverywhere(s, v)
    ensures Accepts(s, v)
    decreases s, 0
  {
    hide Accepts, Agree;
    ContainerForm(s, v);
    forall k | 0 <= k < |s.values| ensures k < |v.values| && Accepts(s.values[k], v.values[k]) {
      BelowElement(s, v, k, []);
      forall position: seq<nat> | NodeAt(s.values[k], position).Some?
        ensures AgreesAt(s.values[k], v.values[k], position)
      {
        BelowElement(s, v, k, position);
      }
      AcceptsIffAgrees(s.values[k], v.values[k]);
    }
    if |s.values| > 0 { BelowElement(s, v, |s.values| - 1, []); }
    AcceptsArrayPointwise(s.values, v.values);
  }

  /** What agrees in an array agrees in its elements. */
  lemma BelowElement(s: JsonValue, v: JsonValue, k: nat, position: seq<nat>)
    requires s.Array? && v.Array? && AgreesEverywhere(s, v) && k < |s.values| && NodeAt(s.values[k], position).Some?
    ensures k < |v.values| && AgreesAt(s.values[k], v.values[k], position)
  {
    hide Agree;
    assert ([k] + position)[1..] == position;
    assert NodeAt(s, [k] + position) == NodeAt(s.values[k], position);
    assert AgreesAt(s, v, [k] + position);
  }

  lemma {:induction false} AgreeingPairsAreAccepted(s: JsonValue, v: JsonValue)
    requires s.Object? && v.Object? && AgreesEverywhere(s, v)
    ensures Accepts(s, v)
    decreases s, 0
  {
    hide Accepts, Agree, FindPair, FirstOfKey;
    ContainerForm(s, v);
    forall kv | kv in s.pairs ensures AcceptsPair(kv, v.pairs) {
      var i :| 0 <= i < |s.pairs| && s.pairs[i] == kv;
      BelowPair(s, v, i, []);
      var y := FindPair(v.pairs, kv.key.data).value.value;
      forall position: seq<nat> | NodeAt(kv.value, position).Some? ensures AgreesAt(kv.value, y, position) {
        BelowPair(s, v, i, position);
      }
      AcceptsIffAgrees(s.pairs[i].value, y);
    }
    AcceptsObjectPointwise(s.pairs, v.pairs);
  }

  /** What agrees in an object agrees in its pairs' values. */
  lemma BelowPair(s: JsonValue, v: JsonValue, i: nat, position: seq<nat>)
    requires s.Object? && v.Object? && AgreesEverywhere(s, v) && i < |s.pairs|
    requires NodeAt(s.pairs[i].value, position).Some?
    ensures var found := FindPair(v.pairs, s.pairs[i].key.data);
      found.Some? && AgreesAt(s.pairs[i].value, found.value.value, position)
  {
    hide Agree, FindPair, FirstOfKey;
    var at := [i] + position;
    assert at[1..] == position;
    assert NodeAt(s, at) == NodeAt(s.pairs[i].value, position);
    assert AgreesAt(s, v, at);
    var y :| ComparedWith(s, v, at, y) && Agree(NodeAt(s, at).value, y);
    var k :| 0 <= k < |v.pairs| && FirstOfKey(v.pairs, k) && v.pairs[k].key.data == s.pairs[i].key.data
      && ComparedWith(s.pairs[i].value, v.pairs[k].value, at[1..], y);
    FoundIsFirst(v.pairs, k);
  }

  // ----- What acceptance carries over

  lemma {:induction false} FoundIsAccepted(structure: seq<KeyValue>, pairs: seq<KeyValue>, key: seq<byte>)
    requires AcceptsPairs(structure, pairs) && FindPair(structure, key).Some?
    ensures FindPair(pairs, key).Some?
    ensures Accepts(FindPair(structure, key).value.value, FindPair(pairs, key).value.value)
  {
    hide Accepts;
    AcceptsObjectPointwise(structure, pairs);
    var kv := FindPair(structure, key).value;
    assert AcceptsPair(kv, pairs);
  }

  /** Whatever a path finds in an accepted structure, it finds in the value, and that is accepted again. */
  lemma {:induction false} LookupsAreTransported(structure: JsonValue, value: JsonValue, path: seq<byte>)
    requires Accepts(structure, value) && Get(structure, path).Some?
    ensures Get(value, path).Some? && Accepts(Get(structure, path).value, Get(value, path).value)
    decreases |path|
  {
    hide FromStrRadix, FindPair, FirstDot, AcceptsPairs, AcceptsValues;
    var dot := FirstDot(path);
    match structure
    case Array(_, values) =>
      AcceptsArrayPointwise(values, value.values);
      var idx := FromStrRadix(path[..dot], 10).value;
      assert Accepts(values[idx], value.values[idx]);
      if dot < |path| { LookupsAreTransported(values[idx], value.values[idx], path[dot + 1..]); }
    case Object(_, pairs) =>
      FoundIsAccepted(pairs, value.pairs, path[..dot]);
      var x, y := FindPair(pairs, path[..dot]).value, FindPair(value.pairs, path[..dot]).value;
      if dot < |path| { LookupsAreTransported(x.value, y.value, path[dot + 1..]); }
    case _ =>
  }

  /**
   Enforcement is sound: where a path finds something in an accepted structure, it finds something of the same
   kind in the value, unless the structure is redacted there; booleans, numbers and strings with the same text.
   */
  lemma LookupsAreSound(structure: JsonValue, value: JsonValue, path: seq<byte>)
    requires Accepts(structure, value) && Get(structure, path).Some?
    ensures Get(value, path).Some? && Agree(Get(structure, path).value, Get(value, path).value)
  {
    hide Accepts, Agree, Get;
    LookupsAreTransported(structure, value, path);
    AcceptedRootAgrees(Get(structure, path).value, Get(value, path).value);
  }

  /** Acceptance is transitive, whatever keys are repeated. */
  lemma {:induction false} AcceptanceIsTransitive(a: JsonValue, b: JsonValue, c: JsonValue)
    requires Accepts(a, b) && Accepts(b, c)
    ensures Accepts(a, c)
    decreases a
  {
    match a
    case Array(_, values) => TransitiveInValues(values, b.values, c.values);
    case Object(_, pairs) => TransitiveInPairs(pairs, b.pairs, c.pairs);
    case _ =>
  }

  lemma {:induction false} TransitiveInValues(a: seq<JsonValue>, b: seq<JsonValue>, c: seq<JsonValue>)
    requires AcceptsValues(a, b) && AcceptsValues(b, c)
    ensures AcceptsValues(a, c)
    decreases a
  {
    hide Accepts;
    if a != [] {
      AcceptanceIsTransitive(a[0], b[0], c[0]);
      TransitiveInValues(a[1..], b[1..], c[1..]);
    }
  }

  lemma {:induction false} TransitiveInPairs(a: seq<KeyValue>, b: seq<KeyValue>, c: seq<KeyValue>)
    requires AcceptsPairs(a, b) && AcceptsPairs(b, c)
    ensures AcceptsPairs(a, c)
    decreases a
  {
    hide Accepts, AcceptsPair, FindPair;
    if a != [] {
      TransitiveInPair(a[0], b, c);
      TransitiveInPairs(a[1..], b, c);
    }
  }

  lemma {:induction false} TransitiveInPair(a: KeyValue, b: seq<KeyValue>, c: seq<KeyValue>)
    requires AcceptsPair(a, b) && AcceptsPairs(b, c)
    ensures AcceptsPair(a, c)
    decreases a
  {
    hide Accepts, FindPair, AcceptsPairs;
    FoundIsAccepted(b, c, a.key.data);
    AcceptanceIsTransitive(a.value, FindPair(b, a.key.data).value.value, FindPair(c, a.key.data).value.value);
  }

  // ----- Structures made from a value

  /** No object of the tree repeats a key. */
  ghost predicate UniqueKeys(v: JsonValue) {
    match v
    case Array(_, values) => UniqueInValues(values)
    case Object(_, pairs) => UniqueInPairs(pairs)
    case _ => true
  }

  ghost predicate UniqueInValues(values: seq<JsonValue>)
    decreases values
  {
    values == [] || (UniqueKeys(values[0]) && UniqueInValues(values[1..]))
  }

  ghost predicate UniqueInPairs(pairs: seq<KeyValue>)
    decreases pairs
  {
    pairs == [] ||
    (UniqueInPair(pairs[0]) && FindPair(pairs[1..], pairs[0].key.data).None? && UniqueInPairs(pairs[1..]))
  }

  ghost predicate UniqueInPair(kv: KeyValue) { UniqueKeys(kv.value) }

  /**
   `s` is `v` with any sub-values replaced by `Redacted`, any members of objects dropped, and any arrays
   cut short. Spans do not matter.
   */
  ghost predicate Projection(s: JsonValue, v: JsonValue) {
    match s
    case Redacted(_) => true
    case Array(_, values) => v.Array? && ProjectionOfValues(values, v.values)
    case Object(_, pairs) => v.Object? && ProjectionOfPairs(pairs, v.pairs)
    case Null(_) => v.Null?
    case Bool(span) => v.Bool? && span.data == v.span.data
    case Number(span) => v.Number? && span.data == v.span.data
    case String(span) => v.String? && span.data == v.span.data
  }

  ghost predicate ProjectionOfValues(s: seq<JsonValue>, v: seq<JsonValue>)
    decreases s
  {
    s == [] || (v != [] && Projection(s[0], v[0]) && ProjectionOfValues(s[1..], v[1..]))
  }

  ghost predicate ProjectionOfPairs(s: seq<KeyValue>, v: seq<KeyValue>)
    decreases s, |v|
  {
    s == [] ||
    (v != [] && ((ProjectionOfPair(s[0], v[0]) && ProjectionOfPairs(s[1..], v[1..])) || ProjectionOfPairs(s, v[1..])))
  }

  ghost predicate ProjectionOfPair(s: KeyValue, v: KeyValue)
    decreases s
  {
    s.key.data == v.key.data && Projection(s.value, v.value)
  }

  /** Where keys are unique, the enforcer accepts a value against every structure cut out of it. */
  lemma {:induction false} ProjectionIsAccepted(s: JsonValue, v: JsonValue)
    requires UniqueKeys(v) && Projection(s, v)
    ensures Accepts(s, v)
    decreases s
  {
    match s
    case Array(_, values) => ProjectedValuesAreAccepted(values, v.values);
    case Object(_, pairs) => ProjectedPairsAreAccepted(pairs, v.pairs);
    case _ =>
  }

  lemma {:induction false} ProjectedValuesAreAccepted(s: seq<JsonValue>, v: seq<JsonValue>)
    requires UniqueInValues(v) && ProjectionOfValues(s, v)
    ensures AcceptsValues(s, v)
    decreases s
  {
    hide Accepts, Projection, UniqueKeys;
    if s != [] {
      ProjectionIsAccepted(s[0], v[0]);
      ProjectedValuesAreAccepted(s[1..], v[1..]);
    }
  }

  lemma {:induction false} ProjectedPairsAreAccepted(s: seq<KeyValue>, v: seq<KeyValue>)
    requires UniqueInPairs(v) && ProjectionOfPairs(s, v)
    ensures AcceptsPairs(s, v)
    ensures forall kv :: kv in s ==> FindPair(v, kv.key.data).Some?
    decreases s, |v|
  {
    hide Accepts, Projection, UniqueKeys, ProjectionOfPair, AcceptsPair;
    if s != [] {
      if ProjectionOfPair(s[0], v[0]) && ProjectionOfPairs(s[1..], v[1..]) {
        ProjectedPairsAreAccepted(s[1..], v[1..]);
        PastFirstPair(s[1..], v);
        ProjectedPairIsAccepted(s[0], v);
        assert s == [s[0]] + s[1..];
      } else {
        ProjectedPairsAreAccepted(s, v[1..]);
        PastFirstPair(s, v);
      }
    }
  }

  lemma {:induction false} ProjectedPairIsAccepted(kv: KeyValue, v: seq<KeyValue>)
    requires v != [] && ProjectionOfPair(kv, v[0]) && UniqueInPair(v[0])
    ensures AcceptsPair(kv, v) && FindPair(v, kv.key.data).Some?
    decreases kv
  {
    hide Accepts, Projection, UniqueKeys;
    ProjectionIsAccepted(kv.value, v[0].value);
  }

  /** Pairs found behind the first pair are found in the whole, because the first has another key. */
  lemma {:induction false} PastFirstPair(s: seq<KeyValue>, v: seq<KeyValue>)
    requires v != [] && FindPair(v[1..], v[0].key.data).None?
    requires AcceptsPairs(s, v[1..]) && forall kv :: kv in s ==> FindPair(v[1..], kv.key.data).Some?
    ensures AcceptsPairs(s, v) && forall kv :: kv in s ==> FindPair(v, kv.key.data).Some?
  {
    hide Accepts;
    AcceptsObjectPointwise(s, v[1..]);
    forall kv | kv in s ensures AcceptsPair(kv, v) && FindPair(v, kv.key.data).Some? {
      assert AcceptsPair(kv, v[1..]);
    }
    AcceptsObjectPointwise(s, v);
  }

  lemma {:induction false} ProjectionIsReflexive(v: JsonValue)
    ensures Projection(v, v)
    decreases v
  {
    match v
    case Array(_, values) => ProjectionOfSameValues(values);
    case Object(_, pairs) => ProjectionOfSamePairs(pairs);
    case _ =>
  }

  lemma {:induction false} ProjectionOfSameValues(values: seq<JsonValue>)
    ensures ProjectionOfValues(values, values)
    decreases values
  {
    if values != [] {
      ProjectionIsReflexive(values[0]);
      ProjectionOfSameValues(values[1..]);
    }
  }

  lemma {:induction false} ProjectionOfSamePairs(pairs: seq<KeyValue>)
    ensures ProjectionOfPairs(pairs, pairs)
    decreases pairs
  {
    if pairs != [] {
      ProjectionOfSamePair(pairs[0]);
      ProjectionOfSamePairs(pairs[1..]);
    }
  }

  lemma {:induction false} ProjectionOfSamePair(kv: KeyValue)
    ensures ProjectionOfPair(kv, kv)
    decreases kv
  {
    ProjectionIsReflexive(kv.value);
  }

  /** Where keys are unique, every value is accepted against itself. */
  lemma AcceptanceIsReflexive(v: JsonValue)
    requires UniqueKeys(v)
    ensures Accepts(v, v)
  {
    ProjectionIsReflexive(v);
    ProjectionIsAccepted(v, v);
  }

  // ----- Repeated keys

  /**
   No pair of the tree is at odds with an earlier pair of the same key: a repeated pair's value is accepted
   against the value of the first one, and the first ones hold no such pair themselves.
   */
  ghost predicate FirstsFit(v: JsonValue) {
    match v
    case Array(_, values) => forall k :: 0 <= k < |values| ==> FirstsFit(values[k])
    case Object(_, pairs) => forall k :: 0 <= k < |pairs| ==> FitsEarlier(pairs[k], pairs[..k])
    case _ => true
  }

  ghost predicate FitsEarlier(kv: KeyValue, earlier: seq<KeyValue>) {
    var first := FindPair(earlier, kv.key.data);
    if first.Some? then Accepts(kv.value, first.value.value) else FirstsFit(kv.value)
  }

  /** The first pair with a pair's key is an earlier one, or else the pair itself. */
  lemma {:induction false} FoundEarlierOrHere(pairs: seq<KeyValue>, k: nat)
    requires k < |pairs|
    ensures var key := pairs[k].key.data;
      FindPair(pairs, key) == (if FindPair(pairs[..k], key).Some? then FindPair(pairs[..k], key) else Some(pairs[k]))
  {
    if k > 0 {
      FoundEarlierOrHere(pairs[1..], k - 1);
      assert pairs[..k][1..] == pairs[1..][..k - 1];
    }
  }

  /** A value is accepted against itself exactly when its repeated keys fit their first occurrences. */
  lemma {:induction false} ReflexiveIffFirstsFit(v: JsonValue)
    ensures Accepts(v, v) <==> FirstsFit(v)
    decreases v
  {
    hide FindPair;
    match v
    case Array(_, values) =>
      AcceptsArrayPointwise(values, values);
      forall k | 0 <= k < |values| ensures Accepts(values[k], values[k]) <==> FirstsFit(values[k]) {
        ReflexiveIffFirstsFit(values[k]);
      }
    case Object(_, pairs) => ReflexiveInPairs(pairs);
    case _ =>
  }

  lemma {:induction false} ReflexiveInPairs(pairs: seq<KeyValue>)
    ensures AcceptsPairs(pairs, pairs) <==> forall k :: 0 <= k < |pairs| ==> FitsEarlier(pairs[k], pairs[..k])
    decreases pairs
  {
    hide FindPair, Accepts, FirstsFit, FitsEarlier, AcceptsPair, AcceptsPairs;
    AcceptsObjectPointwise(pairs, pairs);
    forall k | 0 <= k < |pairs| ensures AcceptsPair(pairs[k], pairs) <==> FitsEarlier(pairs[k], pairs[..k]) {
      PairIsReflexive(pairs[k], pairs, k);
    }
    if forall k :: 0 <= k < |pairs| ==> FitsEarlier(pairs[k], pairs[..k]) {
      forall kv | kv in pairs ensures AcceptsPair(kv, pairs) {
        var k :| 0 <= k < |pairs| && pairs[k] == kv;
        assert FitsEarlier(pairs[k], pairs[..k]);
      }
    } else {
      var k :| 0 <= k < |pairs| && !FitsEarlier(pairs[k], pairs[..k]);
      assert pairs[k] in pairs && !AcceptsPair(pairs[k], pairs);
    }
  }

  lemma {:induction false} PairIsReflexive(kv: KeyValue, pairs: seq<KeyValue>, k: nat)
    requires k < |pairs| && kv == pairs[k]
    ensures AcceptsPair(kv, pairs) <==> FitsEarlier(kv, pairs[..k])
    decreases kv
  {
    hide Accepts, FirstsFit;
    FoundEarlierOrHere(pairs, k);
    ReflexiveIffFirstsFit(kv.value);
  }

  /** With a repeated key it need not be: `{"a":1,"a":2}` is not accepted against itself. */
  lemma RepeatedKeyIsNotReflexive(span: Span, a: Span, one: Span, two: Span)
    requires one.data != two.data
    ensures var v := Object(span, [KeyValue(span, a, Number(one)), KeyValue(span, a, Number(two))]); !Accepts(v, v)
  {
    var first, second := KeyValue(span, a, Number(one)), KeyValue(span, a, Number(two));
    AcceptsObjectPointwise([first, second], [first, second]);
    assert second in [first, second] && !AcceptsPair(second, [first, second]);
  }

  // ----- Structures that were disclosed

  /** Every string that was not shown consists of stars already. */
  ghost predicate HidesOnlyStars(v: JsonValue, shown: set<JsonValue>) {
    HidesOnlyStarsIn(Nodes(v), shown)
  }

  ghost predicate HidesOnlyStarsIn(nodes: set<JsonValue>, shown: set<JsonValue>) {
    forall n :: n in nodes && n.String? && n !in shown ==> n.span.data == Stars(|n.span.data|)
  }

  /** A pair whose key no pair of `s` asks for makes no difference. */
  lemma {:induction false} OtherKeysAreIgnored(s: seq<KeyValue>, first: KeyValue, rest: seq<KeyValue>)
    requires forall kv :: kv in s ==> kv.key.data != first.key.data
    ensures AcceptsPairs(s, [first] + rest) == AcceptsPairs(s, rest)
  {
    hide Accepts;
    assert ([first] + rest)[1..] == rest;
    if s != [] {
      OtherKeysAreIgnored(s[1..], first, rest);
    }
  }

  lemma {:induction false} RedactKeepsKeys(pairs: seq<KeyValue>, shown: set<JsonValue>, m: seq<byte>, key: seq<byte>)
    requires FindPair(pairs, key).None?
    ensures forall kv :: kv in RedactPairs(pairs, shown, m) ==> kv.key.data != key
    decreases pairs
  {
    hide Redact;
    if pairs != [] { RedactKeepsKeys(pairs[1..], shown, m, key); }
  }

  /**
   A disclosed tree is accepted as a structure of the original exactly when masking changed no string:
   masked numbers, booleans and nulls accept anything, masked strings are compared as text.
   */
  lemma {:induction false} DisclosureIsAccepted(v: JsonValue, shown: set<JsonValue>, m: seq<byte>)
    requires UniqueKeys(v)
    ensures Accepts(Redact(v, shown, m), v) <==> HidesOnlyStars(v, shown)
    decreases v
  {
    match v
    case Array(_, values) => DisclosedValuesAreAccepted(values, shown, m);
    case Object(_, pairs) => DisclosedPairsAreAccepted(pairs, shown, m);
    case _ => ProjectionIsReflexive(v); ProjectionIsAccepted(v, v);
  }

  lemma {:induction false} DisclosedValuesAreAccepted(values: seq<JsonValue>, shown: set<JsonValue>, m: seq<byte>)
    requires UniqueInValues(values)
    ensures AcceptsValues(RedactValues(values, shown, m), values) <==> HidesOnlyStarsIn(NodesInValues(values), shown)
    decreases values
  {
    hide Accepts, Redact, UniqueKeys, Nodes;
    if values != [] {
      DisclosureIsAccepted(values[0], shown, m);
      DisclosedValuesAreAccepted(values[1..], shown, m);
      assert RedactValues(values, shown, m)[1..] == RedactValues(values[1..], shown, m);
    }
  }

  lemma {:induction false} DisclosedPairsAreAccepted(pairs: seq<KeyValue>, shown: set<JsonValue>, m: seq<byte>)
    requires UniqueInPairs(pairs)
    ensures AcceptsPairs(RedactPairs(pairs, shown, m), pairs) <==> HidesOnlyStarsIn(NodesInPairs(pairs), shown)
    decreases pairs
  {
    hide Accepts, AcceptsPair, Redact, RedactPair, UniqueKeys, Nodes, NodesInPair, UniqueInPair;
    if pairs != [] {
      DisclosedPairIsAccepted(pairs[0], pairs[1..], shown, m);
      DisclosedPairsAreAccepted(pairs[1..], shown, m);
      RedactKeepsKeys(pairs[1..], shown, m, pairs[0].key.data);
      OtherKeysAreIgnored(RedactPairs(pairs[1..], shown, m), pairs[0], pairs[1..]);
      assert pairs == [pairs[0]] + pairs[1..];
      assert RedactPairs(pairs, shown, m)[1..] == RedactPairs(pairs[1..], shown, m);
    }
  }

  lemma {:induction false} DisclosedPairIsAccepted(kv: KeyValue, rest: seq<KeyValue>, shown: set<JsonValue>,
                                                   m: seq<byte>)
    requires UniqueInPair(kv)
    ensures AcceptsPair(RedactPair(kv, shown, m), [kv] + rest) <==> HidesOnlyStarsIn(NodesInPair(kv), shown)
    decreases kv
  {
    hide Accepts, Redact, UniqueKeys, Nodes;
    DisclosureIsAccepted(kv.value, shown, m);
  }
}
