/** Looking values up by dotted paths. */
module JsonPaths {
  import opened RangeSets
  import opened Wire
  import opened Numerals
  import opened JsonTree

  const DOT: byte := 0x2E

  // ----- The lookups

  /** The position of the first dot, or else the length of the path. */
  function FirstDot(path: seq<byte>): (i: nat)
    ensures i <= |path|
    ensures forall k :: 0 <= k < i ==> path[k] != DOT
    ensures i < |path| ==> path[i] == DOT
  {
    if path == [] || path[0] == DOT then 0 else FirstDot(path[1..]) + 1
  }

  function LastDot(path: seq<byte>): (i: Option<nat>)
    ensures i.None? ==> DOT !in path
    ensures i.Some? ==> i.value < |path| && path[i.value] == DOT && DOT !in path[i.value + 1..]
  {
    if path == [] then None
    else if path[|path| - 1] == DOT then Some(|path| - 1)
    else
      assert path == path[..|path| - 1] + [path[|path| - 1]];
      var rest := LastDot(path[..|path| - 1]);
      assert rest.Some? ==> path[rest.value + 1..] == path[..|path| - 1][rest.value + 1..] + [path[|path| - 1]];
      rest
  }

  /** The first pair with the given key. */
  function FindPair(pairs: seq<KeyValue>, key: seq<byte>): (kv: Option<KeyValue>)
    ensures kv.Some? ==> kv.value in pairs && kv.value.key.data == key
    ensures kv.None? ==> forall k :: 0 <= k < |pairs| ==> pairs[k].key.data != key
  {
    if pairs == [] then None
    else if pairs[0].key.data == key then Some(pairs[0])
    else FindPair(pairs[1..], key)
  }

  /** Pair `k` is the first one with its key. */
  ghost predicate FirstOfKey(pairs: seq<KeyValue>, k: nat)
    requires k < |pairs|
  {
    forall j :: 0 <= j < k ==> pairs[j].key.data != pairs[k].key.data
  }

  /** A pair is found under its key exactly when no earlier pair has that key. */
  lemma {:induction false} FoundIsFirst(pairs: seq<KeyValue>, k: nat)
    requires k < |pairs| && FirstOfKey(pairs, k)
    ensures FindPair(pairs, pairs[k].key.data) == Some(pairs[k])
  {
    if k > 0 {
      assert forall j :: 0 <= j < k - 1 ==> pairs[1..][j] == pairs[j + 1];
      FoundIsFirst(pairs[1..], k - 1);
    }
  }

  lemma {:induction false} FirstIsFound(pairs: seq<KeyValue>, key: seq<byte>) returns (k: nat)
    requires FindPair(pairs, key).Some?
    ensures k < |pairs| && FirstOfKey(pairs, k) && pairs[k] == FindPair(pairs, key).value && pairs[k].key.data == key
  {
    if pairs[0].key.data == key {
      k := 0;
    } else {
      var j := FirstIsFound(pairs[1..], key);
      k := j + 1;
      forall i | 0 <= i < k ensures pairs[i].key.data != key {
        if i > 0 { assert pairs[i] == pairs[1..][i - 1]; }
      }
    }
  }

  /** `JsonValue::get`, with `Object::get` and `Array::get`. */
  function Get(v: JsonValue, path: seq<byte>): Option<JsonValue>
    decreases |path|
  {
    var dot := FirstDot(path);
    match v
    case Array(_, values) =>
      (match FromStrRadix(path[..dot], 10)
       case None => None
       case Some(idx) =>
         if idx >= |values| then None
         else if dot < |path| then Get(values[idx], path[dot + 1..])
         else Some(values[idx]))
    case Object(_, pairs) =>
      (match FindPair(pairs, path[..dot])
       case None => None
       case Some(kv) => if dot < |path| then Get(kv.value, path[dot + 1..]) else Some(kv.value))
    case _ => None
  }

  /** `JsonValue::get_keyvalue` */
  function GetKeyValue(v: JsonValue, path: seq<byte>): Option<KeyValue> {
    match LastDot(path)
    case None => if v.Object? then FindPair(v.pairs, path) else None
    case Some(dot) =>
      if !v.Container() then None
      else
        match Get(v, path[..dot])
        case None => None
        case Some(parent) => if parent.Object? then FindPair(parent.pairs, path[dot + 1..]) else None
  }

  // ----- A path is a walk along its segments

  /** The segments between the dots; one more than there are dots. */
  function Segments(path: seq<byte>): (segments: seq<seq<byte>>)
    ensures segments != []
    decreases |path|
  {
    var dot := FirstDot(path);
    if dot < |path| then [path[..dot]] + Segments(path[dot + 1..]) else [path]
  }

  /** The segments with dots between them again. */
  function Dotted(segments: seq<seq<byte>>): seq<byte> {
    if segments == [] then []
    else if |segments| == 1 then segments[0]
    else segments[0] + ['.' as byte] + Dotted(segments[1..])
  }

  /** The segments of a path are the only ones without dots that the path is made of. */
  lemma {:induction false} SegmentsAreSplit(path: seq<byte>, segments: seq<seq<byte>>)
    ensures Segments(path) == segments <==>
      segments != [] && Dotted(segments) == path && forall k :: 0 <= k < |segments| ==> '.' as byte !in segments[k]
    decreases |path|, |segments|
  {
    hide FirstDot, Segments;
    var dot := FirstDot(path);
    SegmentsForm(path);
    if Segments(path) == segments {
      if dot < |path| {
        SegmentsAreSplit(path[dot + 1..], segments[1..]);
        assert path == path[..dot] + [DOT] + path[dot + 1..];
        forall k | 0 <= k < |segments| ensures '.' as byte !in segments[k] {
          if k > 0 { assert segments[k] == segments[1..][k - 1]; }
        }
      }
    }
    if segments != [] && Dotted(segments) == path && forall k :: 0 <= k < |segments| ==> '.' as byte !in segments[k] {
      var first, rest := segments[0], segments[1..];
      assert segments == [first] + rest;
      if rest == [] {
        FirstDotIs(path, |path|);
      } else {
        assert path == first + ['.' as byte] + Dotted(rest);
        FirstDotIs(path, |first|);
        assert path[..dot] == first && path[dot + 1..] == Dotted(rest);
        forall k | 0 <= k < |rest| ensures '.' as byte !in rest[k] { assert rest[k] == segments[k + 1]; }
        SegmentsAreSplit(path[dot + 1..], rest);
      }
    }
  }

  /** The child a segment names: a number for an array, a key for an object. */
  function Child(v: JsonValue, segment: seq<byte>): Option<JsonValue> {
    match v
    case Array(_, values) =>
      var idx := FromStrRadix(segment, 10);
      if idx.Some? && idx.value < |values| then Some(values[idx.value]) else None
    case Object(_, pairs) =>
      var kv := FindPair(pairs, segment);
      if kv.Some? then Some(kv.value.value) else None
    case _ => None
  }

  function Walk(v: JsonValue, segments: seq<seq<byte>>): Option<JsonValue> {
    if segments == [] then Some(v)
    else
      var child := Child(v, segments[0]);
      if child.None? then None else Walk(child.value, segments[1..])
  }

  /** One step of a lookup: the child that the first segment names, and the rest of the path from there. */
  lemma GetStep(v: JsonValue, path: seq<byte>)
    ensures var dot := FirstDot(path);
      var child := Child(v, path[..dot]);
      Get(v, path) == if child.Some? && dot < |path| then Get(child.value, path[dot + 1..]) else child
  {
    hide FromStrRadix, FindPair, FirstDot;
  }

  lemma WalkForm(v: JsonValue, segment: seq<byte>, rest: seq<seq<byte>>)
    ensures var child := Child(v, segment);
      Walk(v, [segment] + rest) == if child.None? then None else Walk(child.value, rest)
    ensures Walk(v, []) == Some(v)
  {
    hide Child;
  }

  /** A lookup visits the children its segments name, one after the other. */
  lemma {:induction false} GetIsWalk(v: JsonValue, path: seq<byte>)
    ensures Get(v, path) == Walk(v, Segments(path))
    decreases |path|
  {
    hide Get, Child, Walk, Segments, FirstDot;
    var dot := FirstDot(path);
    GetStep(v, path);
    SegmentsForm(path);
    var child := Child(v, path[..dot]);
    if dot < |path| {
      WalkForm(v, path[..dot], Segments(path[dot + 1..]));
      if child.Some? { GetIsWalk(child.value, path[dot + 1..]); }
    } else {
      assert path[..dot] == path && [path] + [] == [path];
      WalkForm(v, path, []);
      if child.Some? { WalkForm(child.value, path, []); }
    }
  }

  // ----- Every node has a path

  /** The node at a position, which counts elements and pairs from the root down. */
  ghost function NodeAt(v: JsonValue, position: seq<nat>): Option<JsonValue>
    decreases position
  {
    if position == [] then Some(v)
    else if v.Array? && position[0] < |v.values| then NodeAt(v.values[position[0]], position[1..])
    else if v.Object? && position[0] < |v.pairs| then NodeAt(v.pairs[position[0]].value, position[1..])
    else None
  }

  /** The segments that lead to a position: numbers in arrays, keys in objects. */
  ghost function PathTo(v: JsonValue, position: seq<nat>): seq<seq<byte>>
    decreases position
  {
    if position == [] then []
    else if v.Array? && position[0] < |v.values| then
      [DecimalDigits(position[0])] + PathTo(v.values[position[0]], position[1..])
    else if v.Object? && position[0] < |v.pairs| then
      [v.pairs[position[0]].key.data] + PathTo(v.pairs[position[0]].value, position[1..])
    else []
  }

  /** No key on the way holds a dot or is repeated before, and no index is beyond 64 bits. */
  ghost predicate Addressable(v: JsonValue, position: seq<nat>)
    decreases position
  {
    if position == [] then true
    else if v.Array? && position[0] < |v.values| then
      position[0] < 0x1_0000_0000_0000_0000 && Addressable(v.values[position[0]], position[1..])
    else if v.Object? && position[0] < |v.pairs| then
      && '.' as byte !in v.pairs[position[0]].key.data && FirstOfKey(v.pairs, position[0])
      && Addressable(v.pairs[position[0]].value, position[1..])
    else false
  }

  lemma {:induction false} DigitsHoldNoDot(n: nat)
    ensures '.' as byte !in DecimalDigits(n)
  {
    if n >= 10 { DigitsHoldNoDot(n / 10); }
  }

  lemma {:induction false} WalkFindsNode(v: JsonValue, position: seq<nat>)
    requires NodeAt(v, position).Some? && Addressable(v, position)
    ensures Walk(v, PathTo(v, position)) == NodeAt(v, position) && |PathTo(v, position)| == |position|
    ensures forall k :: 0 <= k < |PathTo(v, position)| ==> '.' as byte !in PathTo(v, position)[k]
    decreases position
  {
    hide FromStrRadix, FindPair, DecimalDigits, FirstOfKey;
    if position != [] {
      var i, rest := position[0], position[1..];
      var child := if v.Array? then v.values[i] else v.pairs[i].value;
      var segment := if v.Array? then DecimalDigits(i) else v.pairs[i].key.data;
      WalkFindsNode(child, rest);
      assert PathTo(v, position) == [segment] + PathTo(child, rest);
      assert PathTo(v, position)[1..] == PathTo(child, rest);
      if v.Array? {
        DecimalRoundTrip(i);
        DigitsHoldNoDot(i);
      } else {
        FoundIsFirst(v.pairs, i);
      }
    }
  }

  /** The path of numbers and keys to a node finds that node. */
  lemma NodeIsFound(v: JsonValue, position: seq<nat>)
    requires position != [] && NodeAt(v, position).Some? && Addressable(v, position)
    ensures Get(v, Dotted(PathTo(v, position))) == NodeAt(v, position)
  {
    hide Get, Walk, Segments, Dotted, NodeAt, PathTo, Addressable;
    WalkFindsNode(v, position);
    SegmentsAreSplit(Dotted(PathTo(v, position)), PathTo(v, position));
    GetIsWalk(v, Dotted(PathTo(v, position)));
  }

  // ----- Joined paths

  lemma {:induction false} WalkAppends(v: JsonValue, a: seq<seq<byte>>, b: seq<seq<byte>>)
    ensures Walk(v, a + b) == var x := Walk(v, a); if x.None? then None else Walk(x.value, b)
    decreases a
  {
    hide Child;
    if a == [] {
      assert a + b == b;
    } else {
      assert (a + b)[1..] == a[1..] + b;
      var child := Child(v, a[0]);
      if child.Some? { WalkAppends(child.value, a[1..], b); }
    }
  }

  lemma FirstDotIs(path: seq<byte>, i: nat)
    requires i <= |path| && (forall k :: 0 <= k < i ==> path[k] != DOT) && (i < |path| ==> path[i] == DOT)
    ensures FirstDot(path) == i
  {
    hide FirstDot;
  }

  lemma {:induction false} SegmentsForm(path: seq<byte>)
    ensures var dot := FirstDot(path);
      Segments(path) == if dot < |path| then [path[..dot]] + Segments(path[dot + 1..]) else [path]
  {
    hide FirstDot;
  }

  lemma {:induction false} SegmentsJoin(p: seq<byte>, q: seq<byte>)
    ensures Segments(p + [DOT] + q) == Segments(p) + Segments(q)
    decreases |p|
  {
    hide FirstDot, Segments;
    var path, dot := p + [DOT] + q, FirstDot(p);
    assert forall k :: 0 <= k < |p| ==> path[k] == p[k];
    FirstDotIs(path, dot);
    SegmentsForm(path);
    SegmentsForm(p);
    if dot < |p| {
      SegmentsJoin(p[dot + 1..], q);
      assert path[dot + 1..] == p[dot + 1..] + [DOT] + q;
      assert path[..dot] == p[..dot];
      assert [p[..dot]] + (Segments(p[dot + 1..]) + Segments(q)) == [p[..dot]] + Segments(p[dot + 1..]) + Segments(q);
    } else {
      assert path[dot + 1..] == q && path[..dot] == p;
    }
  }

  /** Looking up `p.q` is looking up `p` and then `q` from there. */
  lemma GetIsCompositional(v: JsonValue, p: seq<byte>, q: seq<byte>)
    ensures Get(v, p + [DOT] + q) == var x := Get(v, p); if x.None? then None else Get(x.value, q)
  {
    hide Get, Segments, Walk;
    GetIsWalk(v, p + [DOT] + q);
    SegmentsJoin(p, q);
    WalkAppends(v, Segments(p), Segments(q));
    GetIsWalk(v, p);
    if Get(v, p).Some? { GetIsWalk(Get(v, p).value, q); }
  }

  lemma GetOneSegment(v: JsonValue, key: seq<byte>)
    requires DOT !in key
    ensures Get(v, key) == Child(v, key)
  {
    hide FromStrRadix, FindPair, FirstDot;
    FirstDotIs(key, |key|);
    assert key[..|key|] == key;
  }

  /** The parent a path names: all its segments but the last, or the root itself. */
  function Parent(v: JsonValue, path: seq<byte>): Option<JsonValue> {
    var segments := Segments(path);
    Walk(v, segments[..|segments| - 1])
  }

  function LastSegment(path: seq<byte>): seq<byte> {
    var segments := Segments(path);
    segments[|segments| - 1]
  }

  lemma OneSegment(key: seq<byte>)
    requires DOT !in key
    ensures Segments(key) == [key]
  {
    hide FirstDot;
    FirstDotIs(key, |key|);
  }

  lemma PathParts(v: JsonValue, path: seq<byte>)
    ensures LastDot(path).None? ==> Parent(v, path) == Some(v) && LastSegment(path) == path
    ensures var dot := LastDot(path); dot.Some? ==>
      Parent(v, path) == Get(v, path[..dot.value]) && LastSegment(path) == path[dot.value + 1..]
  {
    hide LastDot, Get, Segments;
    match LastDot(path)
    case None => OneSegment(path);
    case Some(dot) =>
      var p, key := path[..dot], path[dot + 1..];
      assert path == p + [DOT] + key;
      SegmentsJoin(p, key);
      OneSegment(key);
      GetIsWalk(v, p);
      assert (Segments(p) + [key])[..|Segments(p)|] == Segments(p);
  }

  /** A value without children has none on any path. */
  lemma NothingBelowLeaf(v: JsonValue, path: seq<byte>)
    requires !v.Container()
    ensures Get(v, path).None?
  {
  }

  /**
   A pair is found exactly when the parent is an object with the last key, and then looking up the whole
   path finds the value of that very pair.
   */
  lemma KeyValueIsInParent(v: JsonValue, path: seq<byte>)
    ensures var parent := Parent(v, path);
      GetKeyValue(v, path).Some? <==>
        && parent.Some? && parent.value.Object?
        && exists k :: 0 <= k < |parent.value.pairs| && parent.value.pairs[k].key.data == LastSegment(path)
    ensures var kv := GetKeyValue(v, path);
      kv.Some? ==>
        && kv.value in Parent(v, path).value.pairs && kv.value.key.data == LastSegment(path)
        && Get(v, path) == Some(kv.value.value)
    ensures Parent(v, path).Some? && Parent(v, path).value.Object? && Get(v, path).Some? ==> GetKeyValue(v, path).Some?
  {
    hide LastDot, Get, Segments, Walk, FindPair, Parent, LastSegment, FromStrRadix;
    PathParts(v, path);
    match LastDot(path)
    case None => GetOneSegment(v, path);
    case Some(dot) =>
      var p, key := path[..dot], path[dot + 1..];
      assert path == p + [DOT] + key;
      GetIsCompositional(v, p, key);
      if !v.Container() {
        NothingBelowLeaf(v, p);
      } else if Get(v, p).Some? {
        GetOneSegment(Get(v, p).value, key);
      }
  }
}
