/** A node of a parsed tree is what its own bytes parse to. */
module JsonLocality {
  import opened Wire
  import opened JsonTree
  import opened JsonParser
  import opened JsonNesting
  import opened JsonDisclosure

  /** Every node of a parsed tree is itself what `value` matched somewhere. */
  lemma {:induction false} NodeIsParsed(s: seq<byte>, i: nat, node: JsonValue) returns (j: nat)
    requires Value(s, i).Match? && node in Nodes(Value(s, i).node)
    ensures Value(s, j).Match? && Value(s, j).node == node
    decreases |s| - i, 1
  {
    hide Value, ObjectRule, ArrayRule;
    if node == Value(s, i).node { return i; }
    ValueByFirstByte(s, i);
    if At(s, i, LBRACE) {
      j := NodeInObjectIsParsed(s, i, node);
    } else if At(s, i, LBRACKET) {
      j := NodeInArrayIsParsed(s, i, node);
    } else {
      LeafRules(s, i);
    }
  }

  lemma LeafRules(s: seq<byte>, i: nat)
    requires Value(s, i).Match? && !At(s, i, LBRACE) && !At(s, i, LBRACKET)
    ensures !Value(s, i).node.Container()
  {
    hide Value, ObjectRule, ArrayRule;
    ValueByFirstByte(s, i);
  }

  lemma {:induction false} NodeInObjectIsParsed(s: seq<byte>, i: nat, node: JsonValue) returns (j: nat)
    requires ObjectRule(s, i).Match? && node != ObjectRule(s, i).node && node in Nodes(ObjectRule(s, i).node)
    ensures Value(s, j).Match? && Value(s, j).node == node
    decreases |s| - i, 0
  {
    hide ObjectRule, Pair, MorePairs, Value;
    var first, k, rest, e := ObjectInverse(s, i);
    if EmptyObject(s, i) {
      EmptyObjectForm(s, i);
    } else {
      ObjectForm(s, i, first, k, rest, e);
      assert ([first] + rest)[1..] == rest;
      if node in NodesInPair(first) {
        j := NodeInPairIsParsed(s, Skip(s, i + 1), node);
      } else {
        j := NodeInMorePairsIsParsed(s, k, node);
      }
    }
  }

  lemma {:induction false} NodeInPairIsParsed(s: seq<byte>, i: nat, node: JsonValue) returns (j: nat)
    requires i <= |s| && Pair(s, i).Match? && node in NodesInPair(Pair(s, i).node)
    ensures Value(s, j).Match? && Value(s, j).node == node
    decreases |s| - i, 1
  {
    hide Pair, Value, QuotedString;
    var key, k, value, e := PairInverse(s, i);
    PairForm(s, i, key, k, value, e);
    j := NodeIsParsed(s, Skip(s, Skip(s, k) + 1), node);
  }

  lemma {:induction false} NodeInMorePairsIsParsed(s: seq<byte>, k: nat, node: JsonValue) returns (j: nat)
    requires k <= |s| && node in NodesInPairs(MorePairs(s, k).node)
    ensures Value(s, j).Match? && Value(s, j).node == node
    decreases |s| - k, 2
  {
    hide Pair, Value, MorePairs;
    MorePairsForm(s, k);
    var i := Skip(s, k);
    var first := Pair(s, i);
    if first.Match? {
      var rest := MorePairs(s, first.end).node;
      assert ([first.node] + rest)[1..] == rest;
      if node in NodesInPair(first.node) {
        j := NodeInPairIsParsed(s, i, node);
      } else {
        j := NodeInMorePairsIsParsed(s, first.end, node);
      }
    }
  }

  lemma {:induction false} NodeInArrayIsParsed(s: seq<byte>, i: nat, node: JsonValue) returns (j: nat)
    requires ArrayRule(s, i).Match? && node != ArrayRule(s, i).node && node in Nodes(ArrayRule(s, i).node)
    ensures Value(s, j).Match? && Value(s, j).node == node
    decreases |s| - i, 0
  {
    hide ArrayRule, MoreValues, Value;
    var first, k, rest, e := ArrayInverse(s, i);
    if EmptyArray(s, i) {
      EmptyArrayForm(s, i);
    } else {
      ArrayForm(s, i, first, k, rest, e);
      assert ([first] + rest)[1..] == rest;
      if node in Nodes(first) {
        j := NodeIsParsed(s, Skip(s, i + 1), node);
      } else {
        j := NodeInMoreValuesIsParsed(s, k, node);
      }
    }
  }

  lemma {:induction false} NodeInMoreValuesIsParsed(s: seq<byte>, k: nat, node: JsonValue) returns (j: nat)
    requires k <= |s| && node in NodesInValues(MoreValues(s, k).node)
    ensures Value(s, j).Match? && Value(s, j).node == node
    decreases |s| - k, 2
  {
    hide Value, MoreValues;
    MoreValuesForm(s, k);
    var i := Skip(s, Skip(s, k) + 1);
    var first := Value(s, i);
    if At(s, Skip(s, k), COMMA) && first.Match? {
      var rest := MoreValues(s, first.end).node;
      assert ([first.node] + rest)[1..] == rest;
      if node in Nodes(first.node) {
        j := NodeIsParsed(s, i, node);
      } else {
        j := NodeInMoreValuesIsParsed(s, first.end, node);
      }
    }
  }

  // ----- Masking nothing

  lemma {:induction false} RedactNothing(v: JsonValue, shown: set<JsonValue>, s: seq<byte>)
    requires Nodes(v) <= shown && Faithful(s, v)
    ensures Redact(v, shown, s) == v
    decreases v
  {
    match v
    case Array(_, values) => RedactNoValues(values, shown, s);
    case Object(_, pairs) => RedactNoPairs(pairs, shown, s);
    case _ =>
  }

  lemma {:induction false} RedactNoValues(values: seq<JsonValue>, shown: set<JsonValue>, s: seq<byte>)
    requires NodesInValues(values) <= shown && forall k :: 0 <= k < |values| ==> Faithful(s, values[k])
    ensures RedactValues(values, shown, s) == values
    decreases values
  {
    if values != [] {
      RedactNothing(values[0], shown, s);
      RedactNoValues(values[1..], shown, s);
    }
  }

  lemma {:induction false} RedactNoPairs(pairs: seq<KeyValue>, shown: set<JsonValue>, s: seq<byte>)
    requires NodesInPairs(pairs) <= shown && forall k :: 0 <= k < |pairs| ==> FaithfulPair(s, pairs[k])
    ensures RedactPairs(pairs, shown, s) == pairs
    decreases pairs
  {
    if pairs != [] {
      RedactNoPair(pairs[0], shown, s);
      RedactNoPairs(pairs[1..], shown, s);
    }
  }

  lemma {:induction false} RedactNoPair(kv: KeyValue, shown: set<JsonValue>, s: seq<byte>)
    requires NodesInPair(kv) <= shown && FaithfulPair(s, kv)
    ensures RedactPair(kv, shown, s) == kv
    decreases kv
  {
    RedactNothing(kv.value, shown, s);
  }

  /** A value other than a string spans exactly what `value` matched. */
  lemma ValueSpan(s: seq<byte>, i: nat)
    requires Value(s, i).Match? && !Value(s, i).node.String?
    ensures Value(s, i).node.span == NewSpan(s, i, Value(s, i).end)
  {
    hide Value, Pair, MorePairs, MoreValues;
    if BareLeaf(Value(s, i).node) { BareLeafSpan(s, i); } else { ValueKinds(s, i); }
  }

  /**
   Parsing is local: the bytes of an object, array, number, boolean, null or redacted node, parsed
   alone, yield that node's subtree, spans included once they are shifted back to the node's start.
   A string is the exception, since its span leaves out the quotes.
   */
  lemma ParsingIsLocal(src: seq<byte>, node: JsonValue)
    requires Parse(src).Some? && node in Nodes(Parse(src).value) && !node.String?
    ensures node.span.indices != [] && Parse(node.span.data).Some?
    ensures Offset(Parse(node.span.data).value, node.span.indices[0].start) == node
  {
    hide Value, Offset;
    var i := NodeIsParsed(src, 0, node);
    var e := Value(src, i).end;
    var t := node.span.data;
    ValueSpan(src, i);
    ValueNested(src, i);
    NothingHiddenIn(node, Nodes(node));
    RedactNothing(node, Nodes(node), src);
    assert t == src[i..i + |t|];
    ValueFollows(src, src, t, i, i, Nodes(node));
  }
}
