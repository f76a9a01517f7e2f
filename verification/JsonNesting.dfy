/** Every parsed tree is well nested and holds exactly the bytes its indices select. */
module JsonNesting {
  import opened RangeSets
  import opened Wire
  import opened JsonTree
  import opened JsonParser

  /**
   The alternatives of `value` begin with different bytes, so the first byte alone decides which of
   them can match.
   */
  lemma ValueByFirstByte(s: seq<byte>, i: nat)
    ensures At(s, i, QUOTE) ==> Value(s, i) == StringRule(s, i)
    ensures At(s, i, LBRACE) ==> Value(s, i) == ObjectRule(s, i)
    ensures At(s, i, LBRACKET) ==> Value(s, i) == ArrayRule(s, i)
    ensures At(s, i, STAR) ==> Value(s, i) == RedactedRule(s, i)
    ensures At(s, i, TRUE[0]) || At(s, i, FALSE[0]) ==> Value(s, i) == BoolRule(s, i)
    ensures At(s, i, NULL[0]) ==> Value(s, i) == NullRule(s, i)
    ensures At(s, i, MINUS) || (i < |s| && IsDigit(s[i])) ==> Value(s, i) == NumberRule(s, i)
    ensures Value(s, i).Match? ==>
              i < |s| && (s[i] in {QUOTE, LBRACE, LBRACKET, STAR, MINUS, TRUE[0], FALSE[0], NULL[0]} || IsDigit(s[i]))
  {
    LiteralFirst(s, i, TRUE);
    LiteralFirst(s, i, FALSE);
    LiteralFirst(s, i, NULL);
  }

  lemma LiteralFirst(s: seq<byte>, i: nat, literal: seq<byte>)
    requires literal != []
    ensures HasLiteral(s, i, literal) ==> At(s, i, literal[0])
  {
    if HasLiteral(s, i, literal) {
      assert s[i..i + |literal|][0] == literal[0];
    }
  }

  // ----- The parts of a match: what each rule needs, and what it then yields

  ghost predicate PairParts(s: seq<byte>, i: nat, key: Span, k: nat, value: JsonValue, e: nat) {
    && i <= |s| && QuotedString(s, i) == Match(key, k)
    && At(s, Skip(s, k), COLON)
    && Value(s, Skip(s, Skip(s, k) + 1)) == Match(value, e)
  }

  lemma PairInverse(s: seq<byte>, i: nat) returns (key: Span, k: nat, value: JsonValue, e: nat)
    requires i <= |s| && Pair(s, i).Match?
    ensures PairParts(s, i, key, k, value, e)
  {
    hide Value, QuotedString;
    key, k := QuotedString(s, i).node, QuotedString(s, i).end;
    var vpos := Skip(s, Skip(s, k) + 1);
    value, e := Value(s, vpos).node, Value(s, vpos).end;
  }

  /** The span of a pair ends after its comma, or else right after its value. */
  lemma PairForm(s: seq<byte>, i: nat, key: Span, k: nat, value: JsonValue, e: nat)
    requires PairParts(s, i, key, k, value, e)
    ensures i + 1 < k < e <= |s|
    ensures Pair(s, i) == Match(KeyValue(NewSpan(s, i, PairSpanEnd(s, e)), key, value), PairEnd(s, e))
  {
    hide Value, QuotedString, Run, NewSpan;
    var vpos := Skip(s, Skip(s, k) + 1);
    ValueLastByte(s, vpos);
    var t := Skip(s, e);
    if !At(s, t, COMMA) { TrimEndOfPair(s, i, e, t); }
  }

  function PairSpanEnd(s: seq<byte>, e: nat): (end: nat)
    requires e <= |s|
    ensures e <= end <= PairEnd(s, e)
  {
    if At(s, Skip(s, e), COMMA) then Skip(s, e) + 1 else e
  }

  ghost predicate ObjectParts(s: seq<byte>, i: nat, first: KeyValue, k: nat, rest: seq<KeyValue>, e: nat) {
    && At(s, i, LBRACE)
    && Pair(s, Skip(s, i + 1)) == Match(first, k)
    && MorePairs(s, k) == Match(rest, e)
    && At(s, Skip(s, e), RBRACE)
  }

  ghost predicate EmptyObject(s: seq<byte>, i: nat) {
    At(s, i, LBRACE) && At(s, Skip(s, i + 1), RBRACE)
  }

  lemma ObjectInverse(s: seq<byte>, i: nat) returns (first: KeyValue, k: nat, rest: seq<KeyValue>, e: nat)
    requires ObjectRule(s, i).Match?
    ensures EmptyObject(s, i) || ObjectParts(s, i, first, k, rest, e)
  {
    hide Pair, MorePairs;
    var j := Skip(s, i + 1);
    if Pair(s, j).Match? {
      first, k := Pair(s, j).node, Pair(s, j).end;
      rest, e := MorePairs(s, k).node, MorePairs(s, k).end;
    } else {
      first, k, rest, e := *, 0, [], 0;
    }
  }

  lemma ObjectForm(s: seq<byte>, i: nat, first: KeyValue, k: nat, rest: seq<KeyValue>, e: nat)
    requires ObjectParts(s, i, first, k, rest, e)
    ensures i + 1 < k <= e <= Skip(s, e)
    ensures ObjectRule(s, i) == Match(Object(NewSpan(s, i, Skip(s, e) + 1), [first] + rest), Skip(s, e) + 1)
  {
    hide Pair, MorePairs;
  }

  lemma EmptyObjectForm(s: seq<byte>, i: nat)
    requires EmptyObject(s, i)
    ensures ObjectRule(s, i) == Match(Object(NewSpan(s, i, Skip(s, i + 1) + 1), []), Skip(s, i + 1) + 1)
  {
    hide MorePairs, Value;
  }

  ghost predicate ArrayParts(s: seq<byte>, i: nat, first: JsonValue, k: nat, rest: seq<JsonValue>, e: nat) {
    && At(s, i, LBRACKET)
    && Value(s, Skip(s, i + 1)) == Match(first, k)
    && MoreValues(s, k) == Match(rest, e)
    && At(s, Skip(s, e), RBRACKET)
  }

  ghost predicate EmptyArray(s: seq<byte>, i: nat) {
    At(s, i, LBRACKET) && At(s, Skip(s, i + 1), RBRACKET)
  }

  lemma ArrayInverse(s: seq<byte>, i: nat) returns (first: JsonValue, k: nat, rest: seq<JsonValue>, e: nat)
    requires ArrayRule(s, i).Match?
    ensures EmptyArray(s, i) || ArrayParts(s, i, first, k, rest, e)
  {
    hide Value, MoreValues;
    var j := Skip(s, i + 1);
    if Value(s, j).Match? {
      first, k := Value(s, j).node, Value(s, j).end;
      rest, e := MoreValues(s, k).node, MoreValues(s, k).end;
    } else {
      first, k, rest, e := *, 0, [], 0;
    }
  }

  lemma ArrayForm(s: seq<byte>, i: nat, first: JsonValue, k: nat, rest: seq<JsonValue>, e: nat)
    requires ArrayParts(s, i, first, k, rest, e)
    ensures i + 1 < k <= e <= Skip(s, e)
    ensures ArrayRule(s, i) == Match(Array(NewSpan(s, i, Skip(s, e) + 1), [first] + rest), Skip(s, e) + 1)
  {
    hide Value, MoreValues;
  }

  lemma EmptyArrayForm(s: seq<byte>, i: nat)
    requires EmptyArray(s, i)
    ensures ArrayRule(s, i) == Match(Array(NewSpan(s, i, Skip(s, i + 1) + 1), []), Skip(s, i + 1) + 1)
  {
    ValueByFirstByte(s, Skip(s, i + 1));
    hide Value, MoreValues;
  }

  predicate Trimmed(b: byte) { TAB <= b <= CR || b == SPACE }

  /** `trim_end` drops exactly the whitespace skipped after a value that no comma follows. */
  lemma {:induction false} TrimEndOfPair(s: seq<byte>, lo: nat, e: nat, t: nat)
    requires lo < e <= t <= |s|
    requires !Trimmed(s[e - 1])
    requires forall p :: e <= p < t ==> IsWhitespace(s[p])
    ensures TrimEnd(s, lo, t) == e
  {
    if e < t { TrimEndOfPair(s, lo, e, t - 1); }
  }

  /** A value never ends in white space. */
  lemma ValueLastByte(s: seq<byte>, i: nat)
    requires Value(s, i).Match?
    ensures !Trimmed(s[Value(s, i).end - 1])
  {
    hide Value, ObjectRule, ArrayRule, NumberEnd, Run, NewSpan, StringEnd;
    ValueByFirstByte(s, i);
    NumberLast(s, i);
    if At(s, i, LBRACE) {
      ContainerLastByte(s, i);
    } else if At(s, i, LBRACKET) {
      ContainerLastByte(s, i);
    } else {
      LiteralLast(s, i, TRUE);
      LiteralLast(s, i, FALSE);
      LiteralLast(s, i, NULL);
    }
  }

  lemma ContainerLastByte(s: seq<byte>, i: nat)
    ensures ObjectRule(s, i).Match? ==> s[ObjectRule(s, i).end - 1] == RBRACE
    ensures ArrayRule(s, i).Match? ==> s[ArrayRule(s, i).end - 1] == RBRACKET
  {
    hide Value, Pair, MorePairs, MoreValues;
  }

  lemma NumberLast(s: seq<byte>, i: nat)
    ensures NumberEnd(s, i).Some? ==> IsDigit(s[NumberEnd(s, i).value - 1])
  {
    hide Run;
  }

  lemma LiteralLast(s: seq<byte>, i: nat, literal: seq<byte>)
    requires literal != []
    ensures HasLiteral(s, i, literal) ==> s[i + |literal| - 1] == literal[|literal| - 1]
  {
    if HasLiteral(s, i, literal) {
      assert s[i..i + |literal|][|literal| - 1] == literal[|literal| - 1];
    }
  }

  // ----- The two invariants, by induction over the grammar

  lemma {:induction false} ValueNested(s: seq<byte>, i: nat)
    requires Value(s, i).Match?
    ensures WellNested(Value(s, i).node) && Faithful(s, Value(s, i).node)
    ensures Inside(Indices(Value(s, i).node.span.indices), i, Value(s, i).end)
    decreases |s| - i, 1
  {
    hide Value, ObjectRule, ArrayRule;
    ValueByFirstByte(s, i);
    NewSpanReads(s, i, Value(s, i).end);
    if At(s, i, QUOTE) {
      StringNested(s, i);
    } else if At(s, i, LBRACE) {
      ObjectNested(s, i);
    } else if At(s, i, LBRACKET) {
      ArrayNested(s, i);
    }
  }

  lemma StringNested(s: seq<byte>, i: nat)
    requires QuotedString(s, i).Match?
    ensures Reads(s, QuotedString(s, i).node) && |QuotedString(s, i).node.indices| <= 1
    ensures Inside(Indices(QuotedString(s, i).node.indices), i + 1, QuotedString(s, i).end - 1)
  {
    var a := Skip(s, i + 1);
    NewSpanReads(s, a, StringEnd(s, a));
  }

  lemma {:induction false} ObjectNested(s: seq<byte>, i: nat)
    requires ObjectRule(s, i).Match?
    ensures WellNested(ObjectRule(s, i).node) && Faithful(s, ObjectRule(s, i).node)
    ensures Inside(Indices(ObjectRule(s, i).node.span.indices), i, ObjectRule(s, i).end)
    decreases |s| - i, 0
  {
    hide ObjectRule, Pair, MorePairs;
    NewSpanReads(s, i, ObjectRule(s, i).end);
    var first, k, rest, e := ObjectInverse(s, i);
    if EmptyObject(s, i) {
      EmptyObjectForm(s, i);
    } else {
      ObjectForm(s, i, first, k, rest, e);
      PairIsNested(s, Skip(s, i + 1));
      MorePairsNested(s, k);
      PairsCons(first, rest, i + 1, k, Skip(s, e));
    }
  }

  lemma PairsCons(first: KeyValue, rest: seq<KeyValue>, lo: nat, mid: nat, hi: nat)
    requires PairNested(first) && Inside(Indices(first.span.indices), lo, mid)
    requires exists end :: lo <= mid <= end <= hi && PairsNested(rest, mid, end)
    ensures PairsNested([first] + rest, lo, hi)
  {
  }

  lemma {:induction false} MorePairsNested(s: seq<byte>, k: nat)
    requires k <= |s|
    ensures PairsNested(MorePairs(s, k).node, k, MorePairs(s, k).end)
    ensures forall n :: 0 <= n < |MorePairs(s, k).node| ==> FaithfulPair(s, MorePairs(s, k).node[n])
    decreases |s| - k, 2
  {
    hide Pair;
    var j := Skip(s, k);
    if Pair(s, j).Match? {
      var Match(first, e) := Pair(s, j);
      PairIsNested(s, j);
      MorePairsNested(s, e);
      PairsCons(first, MorePairs(s, e).node, k, e, MorePairs(s, k).end);
    }
  }

  lemma {:induction false} PairIsNested(s: seq<byte>, i: nat)
    requires i <= |s| && Pair(s, i).Match?
    ensures PairNested(Pair(s, i).node) && FaithfulPair(s, Pair(s, i).node)
    ensures Inside(Indices(Pair(s, i).node.span.indices), i, Pair(s, i).end)
    decreases |s| - i, 1
  {
    hide Pair, Value, QuotedString;
    var key, k, value, e := PairInverse(s, i);
    PairForm(s, i, key, k, value, e);
    StringNested(s, i);
    ValueNested(s, Skip(s, Skip(s, k) + 1));
    NewSpanReads(s, i, PairSpanEnd(s, e));
  }

  lemma {:induction false} ArrayNested(s: seq<byte>, i: nat)
    requires ArrayRule(s, i).Match?
    ensures WellNested(ArrayRule(s, i).node) && Faithful(s, ArrayRule(s, i).node)
    ensures Inside(Indices(ArrayRule(s, i).node.span.indices), i, ArrayRule(s, i).end)
    decreases |s| - i, 0
  {
    hide ArrayRule, Value, MoreValues;
    NewSpanReads(s, i, ArrayRule(s, i).end);
    var first, k, rest, e := ArrayInverse(s, i);
    if EmptyArray(s, i) {
      EmptyArrayForm(s, i);
    } else {
      ArrayForm(s, i, first, k, rest, e);
      ValueNested(s, Skip(s, i + 1));
      MoreValuesNested(s, k);
      ValuesCons(first, rest, i + 1, k, Skip(s, e));
    }
  }

  lemma ValuesCons(first: JsonValue, rest: seq<JsonValue>, lo: nat, mid: nat, hi: nat)
    requires WellNested(first) && Inside(Indices(first.span.indices), lo, mid)
    requires exists end :: lo <= mid <= end <= hi && ValuesNested(rest, mid, end)
    ensures ValuesNested([first] + rest, lo, hi)
  {
  }

  lemma NoValuesNested(k: nat)
    ensures ValuesNested([], k, k)
  {
  }

  lemma {:induction false} MoreValuesNested(s: seq<byte>, k: nat)
    requires k <= |s|
    ensures ValuesNested(MoreValues(s, k).node, k, MoreValues(s, k).end)
    ensures forall n :: 0 <= n < |MoreValues(s, k).node| ==> Faithful(s, MoreValues(s, k).node[n])
    decreases |s| - k, 2
  {
    hide Value, ValuesNested, Faithful, WellNested, Run;
    NoValuesNested(k);
    var j := Skip(s, k);
    if At(s, j, COMMA) {
      var vpos := Skip(s, j + 1);
      if Value(s, vpos).Match? {
        var Match(first, e) := Value(s, vpos);
        ValueNested(s, vpos);
        MoreValuesNested(s, e);
        ValuesCons(first, MoreValues(s, e).node, k, e, MoreValues(s, k).end);
      }
    }
  }

  /** A parsed tree is well nested, and each node's data is the source at the node's indices. */
  lemma ParsedTreeNested(src: seq<byte>)
    requires Parse(src).Some?
    ensures WellNested(Parse(src).value) && Faithful(src, Parse(src).value)
  {
    ValueNested(src, 0);
  }
}
