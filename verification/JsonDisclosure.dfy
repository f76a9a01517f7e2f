/**
 Parsing a source after leaves have been masked, or parsing a part of it alone, follows the original
 parse step by step. Both are instances of one simulation between two parses.
 */
module JsonDisclosure {
  import opened RangeSets
  import opened Wire
  import opened JsonTree
  import opened JsonParser
  import opened JsonNesting

  // ----- What masking does to a tree

  function Starred(span: Span): Span { Span(Stars(|span.data|), span.indices) }

  /** The span with the data another source holds at its indices. */
  function Reread(m: seq<byte>, span: Span): Span {
    if InBounds(span.indices, |m|) then Span(IndexRanges(m, span.indices), span.indices) else span
  }

  /**
   The tree with every leaf that is not shown masked: a string keeps its kind and turns to stars, any
   other leaf turns into `Redacted`. Containers keep their spans and read their data from `m`.
   */
  ghost function Redact(v: JsonValue, shown: set<JsonValue>, m: seq<byte>): JsonValue {
    match v
    case Array(span, values) => Array(Reread(m, span), RedactValues(values, shown, m))
    case Object(span, pairs) => Object(Reread(m, span), RedactPairs(pairs, shown, m))
    case String(span) => if v in shown then v else String(Starred(span))
    case _ => if v in shown then v else Redacted(Starred(v.span))
  }

  ghost function RedactValues(values: seq<JsonValue>, shown: set<JsonValue>, m: seq<byte>): seq<JsonValue>
    decreases values
  {
    if values == [] then [] else [Redact(values[0], shown, m)] + RedactValues(values[1..], shown, m)
  }

  ghost function RedactPair(kv: KeyValue, shown: set<JsonValue>, m: seq<byte>): KeyValue {
    KeyValue(Reread(m, kv.span), kv.key, Redact(kv.value, shown, m))
  }

  ghost function RedactPairs(pairs: seq<KeyValue>, shown: set<JsonValue>, m: seq<byte>): seq<KeyValue>
    decreases pairs
  {
    if pairs == [] then [] else [RedactPair(pairs[0], shown, m)] + RedactPairs(pairs[1..], shown, m)
  }

  // ----- Two sources side by side: `m` is `s` with bytes masked, `t` is the part of `m` from `d` on

  ghost predicate Window(s: seq<byte>, m: seq<byte>, t: seq<byte>, d: nat) {
    |m| == |s| && d + |t| <= |m| && t == m[d..d + |t|]
  }

  ghost predicate Masked(s: seq<byte>, m: seq<byte>, hidden: set<nat>, lo: nat, hi: nat) {
    hi <= |s| && hi <= |m| && forall p :: lo <= p < hi ==> m[p] == if p in hidden then STAR else s[p]
  }

  ghost predicate Kept(s: seq<byte>, m: seq<byte>, lo: nat, hi: nat) {
    hi <= |s| && hi <= |m| && forall p :: lo <= p < hi ==> m[p] == s[p]
  }

  /** `t` holds the bytes `i..e` of `s`, `d` positions earlier. */
  ghost predicate Agree(s: seq<byte>, t: seq<byte>, d: nat, i: nat, e: nat) {
    d <= i <= e <= |s| && e <= d + |t| && forall q {:trigger t[q]} :: i - d <= q < e - d ==> t[q] == s[q + d]
  }

  /** Nothing at `k` prolongs a number, a literal or a run of stars that ends there. */
  predicate Stops(t: seq<byte>, k: nat) {
    k >= |t| || IsWhitespace(t[k]) || t[k] in {COMMA, RBRACE, RBRACKET, QUOTE}
  }

  lemma {:induction false} RunIs(t: seq<byte>, a: nat, b: nat, inRun: byte -> bool)
    requires a <= b <= |t|
    requires forall p :: a <= p < b ==> inRun(t[p])
    requires b < |t| ==> !inRun(t[b])
    ensures Run(t, a, inRun) == b
    decreases b - a
  {
    if a < b { RunIs(t, a + 1, b, inRun); }
  }

  lemma SkipFollows(s: seq<byte>, m: seq<byte>, t: seq<byte>, d: nat, i: nat)
    requires Window(s, m, t, d) && d <= i <= |s|
    requires Kept(s, m, i, Skip(s, i))
    requires Skip(s, i) < d + |t| && !IsWhitespace(m[Skip(s, i)])
    ensures Skip(t, i - d) == Skip(s, i) - d
  {
    RunIs(t, i - d, Skip(s, i) - d, IsWhitespace);
  }

  lemma SliceFollows(m: seq<byte>, t: seq<byte>, d: nat, lo: nat, hi: nat)
    requires d + |t| <= |m| && t == m[d..d + |t|]
    requires d <= lo <= hi <= d + |t|
    ensures t[lo - d..hi - d] == m[lo..hi]
  {
    forall k | 0 <= k < hi - lo ensures t[lo - d..hi - d][k] == m[lo..hi][k] {
      assert t[lo - d + k] == m[lo + k];
    }
  }

  lemma SpanFollows(m: seq<byte>, t: seq<byte>, d: nat, lo: nat, hi: nat)
    requires d + |t| <= |m| && t == m[d..d + |t|]
    requires d <= lo <= hi <= d + |t|
    ensures OffsetSpan(NewSpan(t, lo - d, hi - d), d) == NewSpan(m, lo, hi)
  {
    ShiftFromRange(lo - d, hi - d, d);
    SliceFollows(m, t, d, lo, hi);
  }

  lemma KeptSpanFollows(s: seq<byte>, m: seq<byte>, t: seq<byte>, d: nat, lo: nat, hi: nat)
    requires Window(s, m, t, d) && d <= lo <= hi <= d + |t| && Kept(s, m, lo, hi)
    ensures OffsetSpan(NewSpan(t, lo - d, hi - d), d) == NewSpan(s, lo, hi)
  {
    SpanFollows(m, t, d, lo, hi);
    assert m[lo..hi] == s[lo..hi];
  }

  lemma RereadNewSpan(s: seq<byte>, m: seq<byte>, lo: nat, hi: nat)
    requires lo <= hi <= |s| == |m|
    ensures Reread(m, NewSpan(s, lo, hi)) == NewSpan(m, lo, hi)
  {
    IndexOneRange(m, lo, hi);
  }

  // ----- Strings

  lemma {:induction false} StringEndStep(s: seq<byte>, a: nat)
    requires a <= |s|
    ensures StringEnd(s, a) ==
      if a < |s| && s[a] != QUOTE && s[a] != BACKSLASH then StringEnd(s, a + 1)
      else if EscapeEnd(s, a).Some? then StringEnd(s, EscapeEnd(s, a).value)
      else a
  {
    hide EscapeEnd;
  }

  lemma NoEscape(t: seq<byte>, a: nat)
    ensures At(t, a, QUOTE) ==> EscapeEnd(t, a).None?
  {
  }

  lemma {:induction false} StringEndFollows(s: seq<byte>, m: seq<byte>, t: seq<byte>, d: nat, a: nat)
    requires Window(s, m, t, d) && d <= a <= |s|
    requires StringEnd(s, a) < d + |t| && At(s, StringEnd(s, a), QUOTE)
    requires Kept(s, m, a, StringEnd(s, a) + 1)
    ensures StringEnd(t, a - d) == StringEnd(s, a) - d
    decreases |s| - a
  {
    hide StringEnd, EscapeEnd;
    StringEndStep(s, a);
    StringEndStep(t, a - d);
    NoEscape(t, a - d);
    if a < |s| && s[a] != QUOTE && s[a] != BACKSLASH {
      StringEndFollows(s, m, t, d, a + 1);
    } else if EscapeEnd(s, a).Some? {
      var e := EscapeEnd(s, a).value;
      StringEndFollows(s, m, t, d, e);
      EscapeFollows(s, t, d, a);
    }
  }

  lemma EscapeFollows(s: seq<byte>, t: seq<byte>, d: nat, a: nat)
    requires EscapeEnd(s, a).Some? && Agree(s, t, d, a, EscapeEnd(s, a).value)
    ensures EscapeEnd(t, a - d) == Some(EscapeEnd(s, a).value - d)
  {
    assert t[a - d] == s[a] && t[a + 1 - d] == s[a + 1];
  }

  lemma {:induction false} StringEndOfStars(t: seq<byte>, a: nat, b: nat)
    requires a <= b < |t| && t[b] == QUOTE
    requires forall p :: a <= p < b ==> t[p] == STAR
    ensures StringEnd(t, a) == b
    decreases b - a
  {
    if a < b { StringEndOfStars(t, a + 1, b); }
  }

  /** `a..b` is the text between the quotes of the string at `i`. */
  ghost predicate StringParts(s: seq<byte>, i: nat, a: nat, b: nat) {
    && At(s, i, QUOTE) && a == Skip(s, i + 1)
    && b == StringEnd(s, a) && At(s, b, QUOTE)
  }

  lemma StringInverse(s: seq<byte>, i: nat) returns (a: nat, b: nat)
    requires QuotedString(s, i).Match?
    ensures StringParts(s, i, a, b) && i < a <= b < |s|
  {
    hide Run, StringEnd;
    a := Skip(s, i + 1);
    b := StringEnd(s, a);
  }

  lemma StringForm(s: seq<byte>, i: nat, a: nat, b: nat)
    requires StringParts(s, i, a, b)
    ensures i < a <= b < |s| && QuotedString(s, i) == Match(NewSpan(s, a, b), b + 1)
    ensures forall p :: i < p < a ==> IsWhitespace(s[p])
    ensures !IsWhitespace(s[a])
  {
    hide StringEnd;
  }

  /** A kept string is found again; the caller says nothing about what follows it. */
  lemma KeptStringFollows(s: seq<byte>, m: seq<byte>, t: seq<byte>, d: nat, i: nat)
    requires Window(s, m, t, d) && d <= i
    requires QuotedString(s, i).Match? && QuotedString(s, i).end <= d + |t|
    requires Kept(s, m, i, QuotedString(s, i).end)
    ensures QuotedString(t, i - d).Match? && QuotedString(t, i - d).end == QuotedString(s, i).end - d
    ensures OffsetSpan(QuotedString(t, i - d).node, d) == QuotedString(s, i).node
  {
    hide QuotedString, Run, StringEnd, FromRange, NewSpan, OffsetSpan;
    var a, b := StringInverse(s, i);
    StringForm(s, i, a, b);
    SkipFollows(s, m, t, d, i + 1);
    StringEndFollows(s, m, t, d, a);
    StringForm(t, i - d, a - d, b - d);
    KeptSpanFollows(s, m, t, d, a, b);
  }

  lemma MaskedRange(s: seq<byte>, m: seq<byte>, lo: nat, a: nat, b: nat, hi: nat)
    requires lo <= a <= b <= hi && Masked(s, m, Indices(FromRange(a, b)), lo, hi)
    ensures Kept(s, m, lo, a) && Kept(s, m, b, hi)
    ensures forall p :: a <= p < b ==> m[p] == STAR
  {
  }

  lemma StringAfterStars(s: seq<byte>, m: seq<byte>, t: seq<byte>, d: nat, i: nat, a: nat, b: nat)
    requires Window(s, m, t, d) && d <= i && StringParts(s, i, a, b) && b + 1 <= d + |t|
    requires Kept(s, m, i, a) && Kept(s, m, b, b + 1) && forall p :: a <= p < b ==> m[p] == STAR
    ensures StringParts(t, i - d, a - d, b - d)
  {
    hide Run, StringEnd;
    StringForm(s, i, a, b);
    SkipFollows(s, m, t, d, i + 1);
    StringEndOfStars(t, a - d, b - d);
  }

  /** A masked string is still a string, of stars. */
  lemma StarredStringFollows(s: seq<byte>, m: seq<byte>, t: seq<byte>, d: nat, i: nat)
    requires Window(s, m, t, d) && d <= i
    requires QuotedString(s, i).Match? && QuotedString(s, i).end <= d + |t|
    requires Masked(s, m, Indices(QuotedString(s, i).node.indices), i, QuotedString(s, i).end)
    ensures QuotedString(t, i - d).Match? && QuotedString(t, i - d).end == QuotedString(s, i).end - d
    ensures OffsetSpan(QuotedString(t, i - d).node, d) == Starred(QuotedString(s, i).node)
  {
    hide QuotedString, Run, StringEnd, FromRange, Masked, Kept, Indices;
    var a, b := StringInverse(s, i);
    StringForm(s, i, a, b);
    MaskedRange(s, m, i, a, b, b + 1);
    StringAfterStars(s, m, t, d, i, a, b);
    StringForm(t, i - d, a - d, b - d);
    SpanFollows(m, t, d, a, b);
    assert m[a..b] == Stars(b - a);
  }

  // ----- Numbers and the other leaves

  lemma DigitsFollow(s: seq<byte>, t: seq<byte>, d: nat, i: nat, e: nat)
    requires Agree(s, t, d, i, e)
    requires Stops(t, e - d)
    requires DigitsEnd(s, i).Some? && DigitsEnd(s, i).value <= e
    ensures DigitsEnd(t, i - d) == Some(DigitsEnd(s, i).value - d)
  {
    RunIs(t, i - d, DigitsEnd(s, i).value - d, IsDigit);
  }

  lemma ExpFollows(s: seq<byte>, t: seq<byte>, d: nat, i: nat, e: nat)
    requires Agree(s, t, d, i, e)
    requires Stops(t, e - d)
    requires if i == e then true else ExpEnd(s, i) == Some(e)
    ensures ExpEnd(t, i - d) == if i == e then None else Some(e - d)
  {
    if i < e {
      var digits := if At(s, i + 1, PLUS) || At(s, i + 1, MINUS) then i + 2 else i + 1;
      assert t[i - d] == s[i] && t[i + 1 - d] == s[i + 1];
      DigitsFollow(s, t, d, digits, e);
    }
  }

  lemma FractionFollows(s: seq<byte>, t: seq<byte>, d: nat, i: nat, e: nat)
    requires Agree(s, t, d, i, e)
    requires Stops(t, e - d)
    requires FractionEnd(s, i) == e
    ensures FractionEnd(t, i - d) == e - d
  {
    hide Run, ExpEnd;
    if i < e {
      assert t[i - d] == s[i];
      if At(s, i, DOT) && DigitsEnd(s, i + 1).Some? {
        DigitsFollow(s, t, d, i + 1, e);
        ExpFollows(s, t, d, DigitsEnd(s, i + 1).value, e);
      } else {
        ExpFollows(s, t, d, i, e);
      }
    } else {
      ExpFollows(s, t, d, i, e);
    }
  }

  lemma NumberFollows(s: seq<byte>, t: seq<byte>, d: nat, i: nat, e: nat)
    requires Agree(s, t, d, i, e)
    requires Stops(t, e - d)
    requires NumberEnd(s, i) == Some(e)
    ensures NumberEnd(t, i - d) == Some(e - d)
  {
    hide Run, FractionEnd;
    assert t[i - d] == s[i];
    var p := if At(s, i, MINUS) then i + 1 else i;
    var q := IntEnd(s, p).value;
    assert t[p - d] == s[p];
    if !At(s, p, ZERO) { DigitsFollow(s, t, d, p, e); }
    FractionFollows(s, t, d, q, e);
  }

  lemma LiteralFollows(s: seq<byte>, m: seq<byte>, t: seq<byte>, d: nat, i: nat, literal: seq<byte>)
    requires Window(s, m, t, d) && d <= i && literal != []
    requires HasLiteral(s, i, literal) && i + |literal| <= d + |t|
    requires Kept(s, m, i, i + |literal|)
    ensures HasLiteral(t, i - d, literal) && At(s, i, literal[0]) && At(t, i - d, literal[0])
  {
    SliceFollows(m, t, d, i, i + |literal|);
    assert m[i..i + |literal|] == s[i..i + |literal|];
    LiteralFirst(s, i, literal);
    LiteralFirst(t, i - d, literal);
  }

  /** The leaves other than strings. */
  predicate BareLeaf(v: JsonValue) { v.Null? || v.Bool? || v.Number? || v.Redacted? }

  /** A bare leaf spans exactly what its rule matched. */
  lemma BareLeafSpan(s: seq<byte>, i: nat)
    requires Value(s, i).Match? && BareLeaf(Value(s, i).node)
    ensures Value(s, i).node.span == NewSpan(s, i, Value(s, i).end)
    ensures !At(s, i, QUOTE) && !At(s, i, LBRACE) && !At(s, i, LBRACKET)
    ensures Value(s, i) in {NumberRule(s, i), BoolRule(s, i), NullRule(s, i), RedactedRule(s, i)}
  {
    hide Value;
    ValueByFirstByte(s, i);
    hide Pair, MorePairs, MoreValues;
  }

  lemma StarRun(m: seq<byte>, t: seq<byte>, d: nat, i: nat, e: nat)
    requires d <= i < e <= d + |t| <= |m| && t == m[d..d + |t|]
    requires forall p :: i <= p < e ==> m[p] == STAR
    requires Stops(t, e - d)
    ensures At(t, i - d, STAR) && Run(t, i - d, IsStar) == e - d
  {
    RunIs(t, i - d, e - d, IsStar);
  }

  lemma StarredNewSpan(s: seq<byte>, m: seq<byte>, i: nat, e: nat)
    requires i <= e <= |s| == |m| && forall p :: i <= p < e ==> m[p] == STAR
    ensures Starred(NewSpan(s, i, e)) == NewSpan(m, i, e)
  {
    assert m[i..e] == Stars(e - i);
  }

  /** A masked bare leaf parses as `Redacted` over the same span. */
  lemma StarredLeafFollows(s: seq<byte>, m: seq<byte>, t: seq<byte>, d: nat, i: nat, e: nat)
    requires Window(s, m, t, d) && d <= i < e <= d + |t| && e <= |s|
    requires forall p :: i <= p < e ==> m[p] == STAR
    requires Stops(t, e - d)
    ensures Value(t, i - d).Match? && Value(t, i - d).end == e - d
    ensures Offset(Value(t, i - d).node, d) == Redacted(Starred(NewSpan(s, i, e)))
  {
    hide Value, FromRange, Run, OffsetSpan, NewSpan, Starred, Stops;
    ValueByFirstByte(t, i - d);
    StarRun(m, t, d, i, e);
    WindowSpan(s, m, t, d, i, e);
    StarredNewSpan(s, m, i, e);
  }

  lemma KeptAgrees(s: seq<byte>, m: seq<byte>, t: seq<byte>, d: nat, i: nat, e: nat)
    requires Window(s, m, t, d) && d <= i < e <= d + |t| && Kept(s, m, i, e)
    ensures Agree(s, t, d, i, e) && i - d < |t| && t[i - d] == s[i]
  {
  }

  /** A kept leaf is found again, provided nothing after it prolongs it. */
  lemma KeptLeafFollows(s: seq<byte>, m: seq<byte>, t: seq<byte>, d: nat, i: nat)
    requires Window(s, m, t, d) && d <= i
    requires Value(s, i).Match? && BareLeaf(Value(s, i).node) && Value(s, i).end <= d + |t|
    requires Kept(s, m, i, Value(s, i).end)
    requires Stops(t, Value(s, i).end - d)
    ensures Value(t, i - d).Match? && Value(t, i - d).end == Value(s, i).end - d
    ensures Offset(Value(t, i - d).node, d) == Value(s, i).node
  {
    hide Value, ObjectRule, ArrayRule, BoolRule, NullRule, NumberRule, RedactedRule, OffsetSpan, NewSpan, Window,
         Kept, Agree, Stops;
    var e := Value(s, i).end;
    BareLeafSpan(s, i);
    ValueByFirstByte(s, i);
    ValueByFirstByte(t, i - d);
    KeptSpanFollows(s, m, t, d, i, e);
    KeptAgrees(s, m, t, d, i, e);
    if At(s, i, STAR) {
      RedactedFollows(s, t, d, i);
    } else if At(s, i, TRUE[0]) || At(s, i, FALSE[0]) {
      BoolFollows(s, m, t, d, i);
    } else if At(s, i, NULL[0]) {
      NullFollows(s, m, t, d, i);
    } else {
      NumberRuleFollows(s, t, d, i);
    }
  }

  lemma RedactedFollows(s: seq<byte>, t: seq<byte>, d: nat, i: nat)
    requires RedactedRule(s, i).Match? && d <= i && RedactedRule(s, i).end <= d + |t|
    requires Agree(s, t, d, i, RedactedRule(s, i).end) && Stops(t, RedactedRule(s, i).end - d)
    ensures RedactedRule(t, i - d)
       == Match(Redacted(NewSpan(t, i - d, RedactedRule(s, i).end - d)), RedactedRule(s, i).end - d)
    ensures RedactedRule(s, i).node.Redacted?
  {
    hide Run, NewSpan;
    RunIs(t, i - d, RedactedRule(s, i).end - d, IsStar);
  }

  lemma NumberRuleFollows(s: seq<byte>, t: seq<byte>, d: nat, i: nat)
    requires NumberRule(s, i).Match? && d <= i && NumberRule(s, i).end <= d + |t|
    requires Agree(s, t, d, i, NumberRule(s, i).end) && Stops(t, NumberRule(s, i).end - d)
    ensures NumberRule(t, i - d) == Match(Number(NewSpan(t, i - d, NumberRule(s, i).end - d)), NumberRule(s, i).end - d)
    ensures NumberRule(s, i).node.Number?
  {
    hide NumberEnd, NewSpan, Agree, Stops;
    NumberFollows(s, t, d, i, NumberRule(s, i).end);
  }

  lemma BoolFollows(s: seq<byte>, m: seq<byte>, t: seq<byte>, d: nat, i: nat)
    requires Window(s, m, t, d) && d <= i
    requires BoolRule(s, i).Match? && BoolRule(s, i).end <= d + |t| && Kept(s, m, i, BoolRule(s, i).end)
    ensures BoolRule(t, i - d) == Match(Bool(NewSpan(t, i - d, BoolRule(s, i).end - d)), BoolRule(s, i).end - d)
    ensures BoolRule(s, i).node.Bool?
  {
    if HasLiteral(s, i, TRUE) {
      LiteralFollows(s, m, t, d, i, TRUE);
    } else {
      LiteralFollows(s, m, t, d, i, FALSE);
      LiteralFirst(t, i - d, TRUE);
    }
  }

  lemma NullFollows(s: seq<byte>, m: seq<byte>, t: seq<byte>, d: nat, i: nat)
    requires Window(s, m, t, d) && d <= i
    requires NullRule(s, i).Match? && NullRule(s, i).end <= d + |t| && Kept(s, m, i, NullRule(s, i).end)
    ensures NullRule(t, i - d) == Match(Null(NewSpan(t, i - d, NullRule(s, i).end - d)), NullRule(s, i).end - d)
    ensures NullRule(s, i).node.Null?
  {
    LiteralFollows(s, m, t, d, i, NULL);
  }

  // ----- Where the hidden bytes of a match lie

  lemma PairHidden(s: seq<byte>, i: nat, key: Span, k: nat, value: JsonValue, e: nat, shown: set<JsonValue>)
    requires PairParts(s, i, key, k, value, e)
    ensures i < Skip(s, Skip(s, k) + 1) < e
    ensures Inside(Hidden(value, shown), Skip(s, Skip(s, k) + 1), e)
  {
    hide Value, QuotedString;
    ValueNested(s, Skip(s, Skip(s, k) + 1));
    HiddenInSpan(value, shown);
  }

  lemma {:induction false} MorePairsHidden(s: seq<byte>, k: nat, shown: set<JsonValue>)
    requires k <= |s|
    ensures Inside(HiddenInPairs(MorePairs(s, k).node, shown), Skip(s, k) + 1, MorePairs(s, k).end)
    decreases |s| - k
  {
    hide Pair, Run;
    var j := Skip(s, k);
    if Pair(s, j).Match? {
      var key, n, value, e := PairInverse(s, j);
      PairForm(s, j, key, n, value, e);
      PairHidden(s, j, key, n, value, e, shown);
      MorePairsHidden(s, PairEnd(s, e), shown);
    }
  }

  lemma {:induction false} MoreValuesHidden(s: seq<byte>, k: nat, shown: set<JsonValue>)
    requires k <= |s|
    ensures Inside(HiddenInValues(MoreValues(s, k).node, shown), Skip(s, k) + 1, MoreValues(s, k).end)
    decreases |s| - k
  {
    hide Value, Run;
    var j := Skip(s, k);
    if At(s, j, COMMA) {
      var vpos := Skip(s, j + 1);
      if Value(s, vpos).Match? {
        ValueNested(s, vpos);
        HiddenInSpan(Value(s, vpos).node, shown);
        MoreValuesHidden(s, Value(s, vpos).end, shown);
      }
    }
  }

  /** Bytes outside the hidden region are kept. */
  lemma KeptOutside(s: seq<byte>, m: seq<byte>, hidden: set<nat>, lo: nat, a: nat, b: nat, hi: nat)
    requires Masked(s, m, hidden, lo, hi) && Inside(hidden, a, b) && lo <= a <= b <= hi
    ensures Kept(s, m, lo, a) && Kept(s, m, b, hi) && Masked(s, m, hidden, a, b)
  {
  }

  lemma MaskedPart(s: seq<byte>, m: seq<byte>, hidden: set<nat>, lo: nat, hi: nat, a: nat, b: nat)
    requires Masked(s, m, hidden, lo, hi) && lo <= a <= b <= hi
    ensures Masked(s, m, hidden, a, b)
  {
  }

  lemma KeptPart(s: seq<byte>, m: seq<byte>, lo: nat, hi: nat, a: nat, b: nat)
    requires Kept(s, m, lo, hi) && lo <= a <= b <= hi
    ensures Kept(s, m, a, b)
  {
  }

  /** A kept byte is seen through the window. */
  lemma KeptByte(s: seq<byte>, m: seq<byte>, t: seq<byte>, d: nat, lo: nat, hi: nat, p: nat)
    requires Window(s, m, t, d) && Kept(s, m, lo, hi) && lo <= p < hi && d <= p < d + |t|
    ensures p < |s| && p < |m| && m[p] == s[p] == t[p - d]
  {
  }

  /** Skipping up to a kept byte that ends the whitespace. */
  lemma KeptSkip(s: seq<byte>, m: seq<byte>, t: seq<byte>, d: nat, i: nat)
    requires Window(s, m, t, d) && d <= i <= |s|
    requires Skip(s, i) < d + |t| && Kept(s, m, i, Skip(s, i) + 1)
    ensures Skip(t, i - d) == Skip(s, i) - d
    ensures t[Skip(s, i) - d] == s[Skip(s, i)]
  {
    hide Run;
    SkipFollows(s, m, t, d, i);
  }

  // ----- The simulation

  lemma {:induction false} ValueFollows(s: seq<byte>, m: seq<byte>, t: seq<byte>, d: nat, i: nat, shown: set<JsonValue>)
    requires Window(s, m, t, d) && d <= i
    requires Value(s, i).Match? && Value(s, i).end <= d + |t|
    requires Masked(s, m, Hidden(Value(s, i).node, shown), i, Value(s, i).end)
    requires BareLeaf(Value(s, i).node) ==> Stops(t, Value(s, i).end - d)
    ensures Value(t, i - d).Match? && Value(t, i - d).end == Value(s, i).end - d
    ensures Offset(Value(t, i - d).node, d) == Redact(Value(s, i).node, shown, m)
    decreases |s| - i, 1
  {
    hide Value, ObjectRule, ArrayRule, StringRule, Window, Masked, Offset, Redact, Hidden;
    if BareLeaf(Value(s, i).node) {
      BareLeafFollows(s, m, t, d, i, shown);
    } else {
      ValueKinds(s, i);
      if At(s, i, QUOTE) {
        StringRuleFollows(s, m, t, d, i, shown);
      } else if At(s, i, LBRACE) {
        ObjectFollows(s, m, t, d, i, shown);
      } else {
        ArrayFollows(s, m, t, d, i, shown);
      }
      ValueByFirstByte(t, i - d);
    }
  }

  lemma ValueKinds(s: seq<byte>, i: nat)
    requires Value(s, i).Match? && !BareLeaf(Value(s, i).node)
    ensures At(s, i, QUOTE) || At(s, i, LBRACE) || At(s, i, LBRACKET)
    ensures At(s, i, QUOTE) ==> Value(s, i) == StringRule(s, i)
    ensures At(s, i, LBRACE) ==> Value(s, i) == ObjectRule(s, i)
    ensures At(s, i, LBRACKET) ==> Value(s, i) == ArrayRule(s, i)
  {
    hide Value;
    ValueByFirstByte(s, i);
    hide ObjectRule, ArrayRule;
  }

  lemma BareLeafFollows(s: seq<byte>, m: seq<byte>, t: seq<byte>, d: nat, i: nat, shown: set<JsonValue>)
    requires Window(s, m, t, d) && d <= i
    requires Value(s, i).Match? && Value(s, i).end <= d + |t| && BareLeaf(Value(s, i).node)
    requires Masked(s, m, Hidden(Value(s, i).node, shown), i, Value(s, i).end)
    requires Stops(t, Value(s, i).end - d)
    ensures Value(t, i - d).Match? && Value(t, i - d).end == Value(s, i).end - d
    ensures Offset(Value(t, i - d).node, d) == Redact(Value(s, i).node, shown, m)
  {
    hide Value, FromRange;
    var Match(v, e) := Value(s, i);
    BareLeafSpan(s, i);
    if v in shown {
      KeptLeafFollows(s, m, t, d, i);
    } else {
      StarredLeafFollows(s, m, t, d, i, e);
    }
  }

  lemma StringRuleFollows(s: seq<byte>, m: seq<byte>, t: seq<byte>, d: nat, i: nat, shown: set<JsonValue>)
    requires Window(s, m, t, d) && d <= i
    requires StringRule(s, i).Match? && StringRule(s, i).end <= d + |t|
    requires Masked(s, m, Hidden(StringRule(s, i).node, shown), i, StringRule(s, i).end)
    ensures At(t, i - d, QUOTE)
    ensures StringRule(t, i - d).Match? && StringRule(t, i - d).end == StringRule(s, i).end - d
    ensures Offset(StringRule(t, i - d).node, d) == Redact(StringRule(s, i).node, shown, m)
  {
    hide QuotedString;
    if StringRule(s, i).node in shown {
      KeptStringFollows(s, m, t, d, i);
    } else {
      StarredStringFollows(s, m, t, d, i);
    }
    StringStarts(t, i - d);
  }

  lemma StringStarts(t: seq<byte>, i: nat)
    ensures QuotedString(t, i).Match? ==> At(t, i, QUOTE)
  {
  }

  /** What may come right after a pair inside an object. */
  predicate AfterPair(s: seq<byte>, k: nat) {
    k < |s| && (IsWhitespace(s[k]) || s[k] == QUOTE || s[k] == RBRACE)
  }

  lemma PairEndFollows(s: seq<byte>, m: seq<byte>, t: seq<byte>, d: nat, e: nat)
    requires Window(s, m, t, d) && d <= e <= |s|
    requires PairEnd(s, e) < d + |t| && Kept(s, m, e, PairEnd(s, e) + 1) && AfterPair(s, PairEnd(s, e))
    ensures PairEnd(t, e - d) == PairEnd(s, e) - d
    ensures PairSpanEnd(t, e - d) == PairSpanEnd(s, e) - d
    ensures Stops(t, e - d)
  {
    hide Run;
    SkipFollows(s, m, t, d, e);
    assert t[Skip(s, e) - d] == s[Skip(s, e)];
    assert t[e - d] == s[e];
  }

  /** Everything of a pair up to its value is found again. */
  lemma PairHeadFollows(s: seq<byte>, m: seq<byte>, t: seq<byte>, d: nat, i: nat, key: Span, k: nat)
    requires Window(s, m, t, d) && d <= i && QuotedString(s, i) == Match(key, k)
    requires At(s, Skip(s, k), COLON)
    requires Kept(s, m, i, Skip(s, Skip(s, k) + 1))
    requires var vpos := Skip(s, Skip(s, k) + 1); vpos < d + |t| && !IsWhitespace(m[vpos])
    ensures QuotedString(t, i - d).Match? && QuotedString(t, i - d).end == k - d
    ensures OffsetSpan(QuotedString(t, i - d).node, d) == key
    ensures k - d <= |t| && At(t, Skip(t, k - d), COLON)
    ensures Skip(t, Skip(t, k - d) + 1) == Skip(s, Skip(s, k) + 1) - d
  {
    hide QuotedString, Run;
    var c := Skip(s, k);
    KeptStringFollows(s, m, t, d, i);
    SkipFollows(s, m, t, d, k);
    assert t[c - d] == s[c];
    SkipFollows(s, m, t, d, c + 1);
  }

  lemma {:induction false} PairFollows(s: seq<byte>, m: seq<byte>, t: seq<byte>, d: nat, i: nat, shown: set<JsonValue>)
    requires Window(s, m, t, d) && d <= i <= |s|
    requires Pair(s, i).Match? && Pair(s, i).end < d + |t| && AfterPair(s, Pair(s, i).end)
    requires Masked(s, m, HiddenInPair(Pair(s, i).node, shown), i, Pair(s, i).end + 1)
    ensures Pair(t, i - d).Match? && Pair(t, i - d).end == Pair(s, i).end - d
    ensures OffsetPair(Pair(t, i - d).node, d) == RedactPair(Pair(s, i).node, shown, m)
    decreases |s| - i, 1
  {
    hide Value, QuotedString, Pair, Run, FromRange, NewSpan, Skip, PairEnd, PairSpanEnd, OffsetSpan, Reread, Masked,
         Kept, Window, Inside, Offset, Redact, Hidden, AfterPair, Stops;
    var key, k, value, e := PairInverse(s, i);
    PairForm(s, i, key, k, value, e);
    PairHidden(s, i, key, k, value, e, shown);
    var vpos := Skip(s, Skip(s, k) + 1);
    KeptOutside(s, m, Hidden(value, shown), i, vpos, e, PairEnd(s, e) + 1);
    ValueStarts(s, m, vpos, shown);
    PairHeadFollows(s, m, t, d, i, key, k);
    PairEndFollows(s, m, t, d, e);
    ValueFollows(s, m, t, d, vpos, shown);
    PairForm(t, i - d, QuotedString(t, i - d).node, k - d, Value(t, vpos - d).node, e - d);
    WindowSpan(s, m, t, d, i, PairSpanEnd(s, e));
    RereadNewSpan(s, m, i, PairSpanEnd(s, e));
  }

  /** Masked or not, a value does not begin with whitespace. */
  lemma ValueStarts(s: seq<byte>, m: seq<byte>, i: nat, shown: set<JsonValue>)
    requires Value(s, i).Match? && Masked(s, m, Hidden(Value(s, i).node, shown), i, Value(s, i).end)
    ensures !IsWhitespace(m[i])
  {
    hide Value;
    ValueByFirstByte(s, i);
  }

  lemma MorePairsForm(s: seq<byte>, k: nat)
    requires k <= |s|
    ensures Pair(s, Skip(s, k)).Fail? ==> MorePairs(s, k) == Match([], k)
    ensures Pair(s, Skip(s, k)).Match? ==>
              var rest := MorePairs(s, Pair(s, Skip(s, k)).end);
              MorePairs(s, k) == Match([Pair(s, Skip(s, k)).node] + rest.node, rest.end)
  {
    hide Pair;
  }

  lemma ConsPairs(first: KeyValue, rest: seq<KeyValue>, d: nat, shown: set<JsonValue>, m: seq<byte>)
    ensures OffsetPairs([first] + rest, d) == [OffsetPair(first, d)] + OffsetPairs(rest, d)
    ensures RedactPairs([first] + rest, shown, m) == [RedactPair(first, shown, m)] + RedactPairs(rest, shown, m)
    ensures HiddenInPairs([first] + rest, shown) == HiddenInPair(first, shown) + HiddenInPairs(rest, shown)
  {
    assert ([first] + rest)[1..] == rest;
  }

  lemma NoPairs(d: nat, shown: set<JsonValue>, m: seq<byte>)
    ensures OffsetPairs([], d) == [] && RedactPairs([], shown, m) == []
    ensures OffsetValues([], d) == [] && RedactValues([], shown, m) == []
  {
  }

  lemma PairStarts(t: seq<byte>, i: nat)
    requires i <= |t|
    ensures Pair(t, i).Match? ==> At(t, i, QUOTE)
  {
    hide Value;
    StringStarts(t, i);
  }

  /** Between two pairs there is whitespace, the next pair's quote or the closing brace. */
  lemma AfterEachPair(s: seq<byte>, k: nat)
    requires k <= |s| && At(s, Skip(s, MorePairs(s, k).end), RBRACE)
    ensures AfterPair(s, k)
  {
    hide Pair, Run;
    if Pair(s, Skip(s, k)).Match? { PairStarts(s, Skip(s, k)); }
  }

  lemma MaskedSplit(s: seq<byte>, m: seq<byte>, h1: set<nat>, h2: set<nat>, lo: nat, e: nat, n: nat, b: nat, hi: nat)
    requires Masked(s, m, h1 + h2, lo, hi) && Inside(h1, lo + 1, e) && Inside(h2, n + 1, b)
    requires lo <= e <= n <= b < hi
    ensures Masked(s, m, h1, lo, n + 1) && Masked(s, m, h2, n, hi)
    ensures Inside(h1 + h2, lo + 1, b)
  {
  }

  /** The hidden bytes of a pair and of the pairs after it lie in different places. */
  lemma SplitPairs(s: seq<byte>, m: seq<byte>, j: nat, hi: nat, shown: set<JsonValue>)
    requires j <= |s| && Pair(s, j).Match?
    requires var n := Pair(s, j).end;
      && At(s, Skip(s, MorePairs(s, n).end), RBRACE) && Skip(s, MorePairs(s, n).end) < hi
      && Masked(s, m, HiddenInPairs([Pair(s, j).node] + MorePairs(s, n).node, shown), j, hi)
    ensures var n := Pair(s, j).end;
      && AfterPair(s, n)
      && Masked(s, m, HiddenInPair(Pair(s, j).node, shown), j, n + 1)
      && Masked(s, m, HiddenInPairs(MorePairs(s, n).node, shown), n, hi)
      && Inside(HiddenInPairs([Pair(s, j).node] + MorePairs(s, n).node, shown), j + 1, MorePairs(s, n).end)
  {
    hide Pair, Skip, MorePairs, AfterPair, Masked, HiddenInPairs, HiddenInPair, RedactPairs, OffsetPairs;
    var Match(first, n) := Pair(s, j);
    var Match(rest, e) := MorePairs(s, n);
    PairHiddenInside(s, j, shown);
    MorePairsHidden(s, n, shown);
    AfterEachPair(s, n);
    ConsPairs(first, rest, 0, shown, m);
    MorePairsHiddenAfter(s, n, shown);
    MaskedSplit(s, m, HiddenInPair(first, shown), HiddenInPairs(rest, shown), j, n, n, e, hi);
  }

  lemma PairHiddenInside(s: seq<byte>, j: nat, shown: set<JsonValue>)
    requires j <= |s| && Pair(s, j).Match?
    ensures Inside(HiddenInPair(Pair(s, j).node, shown), j + 1, Pair(s, j).end)
  {
    hide Pair;
    var key, k, value, e := PairInverse(s, j);
    PairForm(s, j, key, k, value, e);
    PairHidden(s, j, key, k, value, e, shown);
  }

  lemma MorePairsHiddenAfter(s: seq<byte>, n: nat, shown: set<JsonValue>)
    requires n <= |s|
    ensures Inside(HiddenInPairs(MorePairs(s, n).node, shown), n + 1, MorePairs(s, n).end)
  {
    hide MorePairs;
    MorePairsHidden(s, n, shown);
  }

  lemma {:induction false} MorePairsFollows(s: seq<byte>, m: seq<byte>, t: seq<byte>, d: nat, k: nat,
                                            shown: set<JsonValue>)
    requires Window(s, m, t, d) && d <= k <= |s|
    requires At(s, Skip(s, MorePairs(s, k).end), RBRACE) && Skip(s, MorePairs(s, k).end) < d + |t|
    requires Masked(s, m, HiddenInPairs(MorePairs(s, k).node, shown), k, Skip(s, MorePairs(s, k).end) + 1)
    ensures MorePairs(t, k - d).end == MorePairs(s, k).end - d
    ensures OffsetPairs(MorePairs(t, k - d).node, d) == RedactPairs(MorePairs(s, k).node, shown, m)
    decreases |s| - k, 2
  {
    hide Pair, Run, MorePairs, Masked, Kept, Window, AfterPair, Inside, Skip;
    hide HiddenInPairs, OffsetPairs, RedactPairs, OffsetPair, RedactPair;
    var j := Skip(s, k);
    var Match(pairs, e) := MorePairs(s, k);
    var c := Skip(s, e);
    MorePairsForm(s, k);
    MorePairsForm(t, k - d);
    if Pair(s, j).Match? {
      var Match(first, n) := Pair(s, j);
      MorePairsHidden(s, k, shown);
      KeptOutside(s, m, HiddenInPairs(pairs, shown), k, j + 1, e, c + 1);
      KeptSkip(s, m, t, d, k);
      MaskedPart(s, m, HiddenInPairs(pairs, shown), k, c + 1, j, c + 1);
      SplitPairs(s, m, j, c + 1, shown);
      PairFollows(s, m, t, d, j, shown);
      MorePairsFollows(s, m, t, d, n, shown);
      ConsPairs(first, MorePairs(s, n).node, d, shown, m);
      ConsPairs(Pair(t, j - d).node, MorePairs(t, n - d).node, d, shown, m);
    } else {
      NothingHidden(s, m, k, c + 1, shown);
      NoPairs(d, shown, m);
      KeptSkip(s, m, t, d, k);
      PairStarts(t, j - d);
    }
  }

  lemma NothingHidden(s: seq<byte>, m: seq<byte>, lo: nat, hi: nat, shown: set<JsonValue>)
    ensures Masked(s, m, HiddenInPairs([], shown), lo, hi) ==> Kept(s, m, lo, hi)
    ensures Masked(s, m, HiddenInValues([], shown), lo, hi) ==> Kept(s, m, lo, hi)
  {
  }

  lemma WindowSpan(s: seq<byte>, m: seq<byte>, t: seq<byte>, d: nat, lo: nat, hi: nat)
    requires Window(s, m, t, d) && d <= lo <= hi <= d + |t|
    ensures hi <= |s| == |m|
    ensures OffsetSpan(NewSpan(t, lo - d, hi - d), d) == NewSpan(m, lo, hi)
  {
    SpanFollows(m, t, d, lo, hi);
  }

  lemma ObjectLaws(span: Span, pairs: seq<KeyValue>, d: nat, shown: set<JsonValue>, m: seq<byte>)
    ensures Offset(Object(span, pairs), d) == Object(OffsetSpan(span, d), OffsetPairs(pairs, d))
    ensures Redact(Object(span, pairs), shown, m) == Object(Reread(m, span), RedactPairs(pairs, shown, m))
    ensures Hidden(Object(span, pairs), shown) == HiddenInPairs(pairs, shown)
  {
  }

  lemma EmptyObjectFollows(s: seq<byte>, m: seq<byte>, t: seq<byte>, d: nat, i: nat, shown: set<JsonValue>)
    requires Window(s, m, t, d) && d <= i && EmptyObject(s, i) && Skip(s, i + 1) < d + |t|
    requires Masked(s, m, HiddenInPairs([], shown), i, Skip(s, i + 1) + 1)
    ensures At(t, i - d, LBRACE)
    ensures ObjectRule(t, i - d) == Match(Object(NewSpan(t, i - d, Skip(s, i + 1) + 1 - d), []), Skip(s, i + 1) + 1 - d)
  {
    hide ObjectRule, Run, NewSpan, Masked, Kept, HiddenInPairs;
    var end := Skip(s, i + 1) + 1;
    NothingHidden(s, m, i, end, shown);
    KeptPart(s, m, i, end, i + 1, end);
    KeptSkip(s, m, t, d, i + 1);
    KeptByte(s, m, t, d, i, end, i);
    EmptyObjectForm(t, i - d);
  }

  lemma {:induction false} ObjectFollows(s: seq<byte>, m: seq<byte>, t: seq<byte>, d: nat, i: nat,
                                         shown: set<JsonValue>)
    requires Window(s, m, t, d) && d <= i
    requires ObjectRule(s, i).Match? && ObjectRule(s, i).end <= d + |t|
    requires Masked(s, m, Hidden(ObjectRule(s, i).node, shown), i, ObjectRule(s, i).end)
    ensures At(t, i - d, LBRACE)
    ensures ObjectRule(t, i - d).Match? && ObjectRule(t, i - d).end == ObjectRule(s, i).end - d
    ensures Offset(ObjectRule(t, i - d).node, d) == Redact(ObjectRule(s, i).node, shown, m)
    decreases |s| - i, 0
  {
    hide ObjectRule, Pair, MorePairs, Run, NewSpan, Masked, Kept, Window;
    hide Offset, OffsetSpan, OffsetPairs, Redact, RedactPairs, Reread, Hidden, HiddenInPairs, Skip;
    var end := ObjectRule(s, i).end;
    var first, k, rest, e := ObjectInverse(s, i);
    WindowSpan(s, m, t, d, i, end);
    RereadNewSpan(s, m, i, end);
    if EmptyObject(s, i) {
      EmptyObjectForm(s, i);
      ObjectLaws(NewSpan(s, i, end), [], d, shown, m);
      EmptyObjectFollows(s, m, t, d, i, shown);
      ObjectLaws(NewSpan(t, i - d, end - d), [], d, shown, m);
      NoPairs(d, shown, m);
    } else {
      ObjectForm(s, i, first, k, rest, e);
      ObjectLaws(NewSpan(s, i, end), [first] + rest, d, shown, m);
      ObjectPairsFollow(s, m, t, d, i, first, k, rest, e, shown);
      ObjectLaws(NewSpan(t, i - d, end - d), ObjectRule(t, i - d).node.pairs, d, shown, m);
    }
  }

  lemma {:induction false} ObjectPairsFollow(s: seq<byte>, m: seq<byte>, t: seq<byte>, d: nat, i: nat,
                                             first: KeyValue, k: nat, rest: seq<KeyValue>, e: nat,
                                             shown: set<JsonValue>)
    requires Window(s, m, t, d) && d <= i
    requires ObjectParts(s, i, first, k, rest, e) && Skip(s, e) < d + |t|
    requires Masked(s, m, HiddenInPairs([first] + rest, shown), i, Skip(s, e) + 1)
    ensures At(t, i - d, LBRACE)
    ensures ObjectRule(t, i - d).Match? && ObjectRule(t, i - d).end == Skip(s, e) + 1 - d
    ensures ObjectRule(t, i - d).node.Object?
    ensures ObjectRule(t, i - d).node.span == NewSpan(t, i - d, Skip(s, e) + 1 - d)
    ensures OffsetPairs(ObjectRule(t, i - d).node.pairs, d) == RedactPairs([first] + rest, shown, m)
    decreases |s| - i - 1, 3
  {
    hide ObjectRule, Pair, MorePairs, Run, NewSpan, AfterPair, Masked, Kept, Window, Inside;
    hide HiddenInPairs, OffsetPairs, RedactPairs, OffsetPair, RedactPair, Skip;
    var j, end := Skip(s, i + 1), Skip(s, e) + 1;
    var hidden := HiddenInPairs([first] + rest, shown);
    ObjectForm(s, i, first, k, rest, e);
    PairStarts(s, j);
    MaskedPart(s, m, hidden, i, end, j, end);
    SplitPairs(s, m, j, end, shown);
    KeptOutside(s, m, hidden, i, j + 1, e, end);
    KeptPart(s, m, i, j + 1, i + 1, j + 1);
    KeptByte(s, m, t, d, i, j + 1, i);
    KeptSkip(s, m, t, d, i + 1);
    KeptSkip(s, m, t, d, e);
    PairFollows(s, m, t, d, j, shown);
    MorePairsFollows(s, m, t, d, k, shown);
    var first', rest' := Pair(t, j - d).node, MorePairs(t, k - d).node;
    ConsPairs(first, rest, d, shown, m);
    ConsPairs(first', rest', d, shown, m);
    ObjectForm(t, i - d, first', k - d, rest', e - d);
  }

  // ----- The simulation: arrays

  lemma MoreValuesForm(s: seq<byte>, k: nat)
    requires k <= |s|
    ensures !At(s, Skip(s, k), COMMA) ==> MoreValues(s, k) == Match([], k)
    ensures At(s, Skip(s, k), COMMA) ==>
              var first := Value(s, Skip(s, Skip(s, k) + 1));
              && (first.Fail? ==> MoreValues(s, k) == Match([], k))
              && (first.Match? ==>
                    var rest := MoreValues(s, first.end);
                    MoreValues(s, k) == Match([first.node] + rest.node, rest.end))
  {
    hide Value;
  }

  lemma ConsValues(first: JsonValue, rest: seq<JsonValue>, d: nat, shown: set<JsonValue>, m: seq<byte>)
    ensures OffsetValues([first] + rest, d) == [Offset(first, d)] + OffsetValues(rest, d)
    ensures RedactValues([first] + rest, shown, m) == [Redact(first, shown, m)] + RedactValues(rest, shown, m)
    ensures HiddenInValues([first] + rest, shown) == Hidden(first, shown) + HiddenInValues(rest, shown)
  {
    assert ([first] + rest)[1..] == rest;
  }

  lemma ValueHiddenInside(s: seq<byte>, i: nat, shown: set<JsonValue>)
    requires Value(s, i).Match?
    ensures Inside(Hidden(Value(s, i).node, shown), i, Value(s, i).end)
  {
    hide Value;
    ValueNested(s, i);
    HiddenInSpan(Value(s, i).node, shown);
  }

  /** After a value inside an array there is whitespace, a comma or the closing bracket. */
  lemma AfterEachValue(s: seq<byte>, k: nat)
    requires k <= |s| && At(s, Skip(s, MoreValues(s, k).end), RBRACKET)
    ensures k < |s| && Stops(s, k)
    ensures At(s, Skip(s, k), COMMA) ==> Value(s, Skip(s, Skip(s, k) + 1)).Match?
  {
    hide Value, Run;
  }

  lemma MaskedTail(s: seq<byte>, m: seq<byte>, h1: set<nat>, h2: set<nat>, lo: nat, a: nat, n: nat, b: nat, hi: nat)
    requires Masked(s, m, h1 + h2, lo, hi) && Inside(h1, a, n) && Inside(h2, n + 1, b)
    requires lo <= a <= n <= b < hi
    ensures Kept(s, m, lo, a) && Masked(s, m, h1, a, n) && Kept(s, m, n, n + 1) && Masked(s, m, h2, n, hi)
    ensures Kept(s, m, b, hi)
  {
  }

  /** The hidden bytes of a value and of the values after it lie in different places. */
  lemma SplitValues(s: seq<byte>, m: seq<byte>, lo: nat, j: nat, hi: nat, shown: set<JsonValue>)
    requires lo <= j && Value(s, j).Match?
    requires var n := Value(s, j).end;
      && At(s, Skip(s, MoreValues(s, n).end), RBRACKET) && Skip(s, MoreValues(s, n).end) < hi
      && Masked(s, m, HiddenInValues([Value(s, j).node] + MoreValues(s, n).node, shown), lo, hi)
    ensures var n := Value(s, j).end;
      && Kept(s, m, lo, j) && Kept(s, m, n, n + 1) && Kept(s, m, MoreValues(s, n).end, hi)
      && Masked(s, m, Hidden(Value(s, j).node, shown), j, n)
      && Masked(s, m, HiddenInValues(MoreValues(s, n).node, shown), n, hi)
      && !IsWhitespace(m[j]) && n < |s| && Stops(s, n)
  {
    hide Value, Run, MoreValues, Masked, Kept, HiddenInValues, Hidden;
    var Match(first, n) := Value(s, j);
    var Match(rest, e) := MoreValues(s, n);
    ValueHiddenInside(s, j, shown);
    MoreValuesHidden(s, n, shown);
    AfterEachValue(s, n);
    ConsValues(first, rest, 0, shown, m);
    MaskedTail(s, m, Hidden(first, shown), HiddenInValues(rest, shown), lo, j, n, e, hi);
    ValueStarts(s, m, j, shown);
  }

  /** A value inside an array, with what follows it, is found again. */
  lemma {:induction false} ElementFollows(s: seq<byte>, m: seq<byte>, t: seq<byte>, d: nat, lo: nat, j: nat,
                                          shown: set<JsonValue>)
    requires Window(s, m, t, d) && d <= lo <= |s| && j == Skip(s, lo) && Value(s, j).Match?
    requires Kept(s, m, lo, j) && !IsWhitespace(m[j]) && Value(s, j).end < d + |t|
    requires Masked(s, m, Hidden(Value(s, j).node, shown), j, Value(s, j).end)
    requires Kept(s, m, Value(s, j).end, Value(s, j).end + 1) && Stops(s, Value(s, j).end)
    ensures Skip(t, lo - d) == j - d
    ensures Value(t, j - d).Match? && Value(t, j - d).end == Value(s, j).end - d
    ensures Offset(Value(t, j - d).node, d) == Redact(Value(s, j).node, shown, m)
    decreases |s| - j, 2
  {
    hide Value, Run, Masked, Kept, Window, Hidden;
    var n := Value(s, j).end;
    KeptByte(s, m, t, d, n, n + 1, n);
    SkipFollows(s, m, t, d, lo);
    ValueFollows(s, m, t, d, j, shown);
  }

  lemma {:induction false} MoreValuesFollows(s: seq<byte>, m: seq<byte>, t: seq<byte>, d: nat, k: nat,
                                             shown: set<JsonValue>)
    requires Window(s, m, t, d) && d <= k <= |s|
    requires At(s, Skip(s, MoreValues(s, k).end), RBRACKET) && Skip(s, MoreValues(s, k).end) < d + |t|
    requires Masked(s, m, HiddenInValues(MoreValues(s, k).node, shown), k, Skip(s, MoreValues(s, k).end) + 1)
    ensures MoreValues(t, k - d).end == MoreValues(s, k).end - d
    ensures OffsetValues(MoreValues(t, k - d).node, d) == RedactValues(MoreValues(s, k).node, shown, m)
    decreases |s| - k, 2
  {
    hide Value, Run, MoreValues, Masked, Kept, Window, Inside, Skip, Stops;
    hide HiddenInValues, OffsetValues, RedactValues, Offset, Redact;
    var j := Skip(s, k);
    var Match(values, e) := MoreValues(s, k);
    var c := Skip(s, e);
    MoreValuesForm(s, k);
    MoreValuesForm(t, k - d);
    AfterEachValue(s, k);
    if At(s, j, COMMA) {
      var vpos := Skip(s, j + 1);
      var Match(first, n) := Value(s, vpos);
      SplitValues(s, m, k, vpos, c + 1, shown);
      KeptPart(s, m, k, vpos, k, j + 1);
      KeptPart(s, m, k, vpos, j + 1, vpos);
      KeptSkip(s, m, t, d, k);
      ElementFollows(s, m, t, d, j + 1, vpos, shown);
      MoreValuesFollows(s, m, t, d, n, shown);
      ConsValues(first, MoreValues(s, n).node, d, shown, m);
      ConsValues(Value(t, vpos - d).node, MoreValues(t, n - d).node, d, shown, m);
    } else {
      NothingHidden(s, m, k, c + 1, shown);
      NoPairs(d, shown, m);
      KeptSkip(s, m, t, d, k);
    }
  }

  lemma ArrayLaws(span: Span, values: seq<JsonValue>, d: nat, shown: set<JsonValue>, m: seq<byte>)
    ensures Offset(Array(span, values), d) == Array(OffsetSpan(span, d), OffsetValues(values, d))
    ensures Redact(Array(span, values), shown, m) == Array(Reread(m, span), RedactValues(values, shown, m))
    ensures Hidden(Array(span, values), shown) == HiddenInValues(values, shown)
  {
  }

  lemma EmptyArrayFollows(s: seq<byte>, m: seq<byte>, t: seq<byte>, d: nat, i: nat, shown: set<JsonValue>)
    requires Window(s, m, t, d) && d <= i && EmptyArray(s, i) && Skip(s, i + 1) < d + |t|
    requires Masked(s, m, HiddenInValues([], shown), i, Skip(s, i + 1) + 1)
    ensures At(t, i - d, LBRACKET)
    ensures ArrayRule(t, i - d) == Match(Array(NewSpan(t, i - d, Skip(s, i + 1) + 1 - d), []), Skip(s, i + 1) + 1 - d)
  {
    hide ArrayRule, Run, NewSpan, Masked, Kept, HiddenInValues;
    var end := Skip(s, i + 1) + 1;
    NothingHidden(s, m, i, end, shown);
    KeptPart(s, m, i, end, i + 1, end);
    KeptSkip(s, m, t, d, i + 1);
    KeptByte(s, m, t, d, i, end, i);
    EmptyArrayForm(t, i - d);
  }

  lemma {:induction false} ArrayFollows(s: seq<byte>, m: seq<byte>, t: seq<byte>, d: nat, i: nat, shown: set<JsonValue>)
    requires Window(s, m, t, d) && d <= i
    requires ArrayRule(s, i).Match? && ArrayRule(s, i).end <= d + |t|
    requires Masked(s, m, Hidden(ArrayRule(s, i).node, shown), i, ArrayRule(s, i).end)
    ensures At(t, i - d, LBRACKET)
    ensures ArrayRule(t, i - d).Match? && ArrayRule(t, i - d).end == ArrayRule(s, i).end - d
    ensures Offset(ArrayRule(t, i - d).node, d) == Redact(ArrayRule(s, i).node, shown, m)
    decreases |s| - i, 0
  {
    hide ArrayRule, Value, MoreValues, Run, NewSpan, Masked, Kept, Window;
    hide Offset, OffsetSpan, OffsetValues, Redact, RedactValues, Reread, Hidden, HiddenInValues, Skip;
    var end := ArrayRule(s, i).end;
    var first, k, rest, e := ArrayInverse(s, i);
    WindowSpan(s, m, t, d, i, end);
    RereadNewSpan(s, m, i, end);
    if EmptyArray(s, i) {
      EmptyArrayForm(s, i);
      ArrayLaws(NewSpan(s, i, end), [], d, shown, m);
      EmptyArrayFollows(s, m, t, d, i, shown);
      ArrayLaws(NewSpan(t, i - d, end - d), [], d, shown, m);
      NoPairs(d, shown, m);
    } else {
      ArrayForm(s, i, first, k, rest, e);
      ArrayLaws(NewSpan(s, i, end), [first] + rest, d, shown, m);
      ArrayValuesFollow(s, m, t, d, i, first, k, rest, e, shown);
      ArrayLaws(NewSpan(t, i - d, end - d), ArrayRule(t, i - d).node.values, d, shown, m);
    }
  }

  lemma {:induction false} ArrayValuesFollow(s: seq<byte>, m: seq<byte>, t: seq<byte>, d: nat, i: nat,
                                             first: JsonValue, k: nat, rest: seq<JsonValue>, e: nat,
                                             shown: set<JsonValue>)
    requires Window(s, m, t, d) && d <= i
    requires ArrayParts(s, i, first, k, rest, e) && Skip(s, e) < d + |t|
    requires Masked(s, m, HiddenInValues([first] + rest, shown), i, Skip(s, e) + 1)
    ensures At(t, i - d, LBRACKET)
    ensures ArrayRule(t, i - d).Match? && ArrayRule(t, i - d).end == Skip(s, e) + 1 - d
    ensures ArrayRule(t, i - d).node.Array?
    ensures ArrayRule(t, i - d).node.span == NewSpan(t, i - d, Skip(s, e) + 1 - d)
    ensures OffsetValues(ArrayRule(t, i - d).node.values, d) == RedactValues([first] + rest, shown, m)
    decreases |s| - i - 1, 3
  {
    hide ArrayRule, Value, MoreValues, Run, NewSpan, Masked, Kept, Window, Inside;
    hide HiddenInValues, OffsetValues, RedactValues, Offset, Redact, Skip, Stops;
    var j, end := Skip(s, i + 1), Skip(s, e) + 1;
    ArrayForm(s, i, first, k, rest, e);
    SplitValues(s, m, i, j, end, shown);
    KeptByte(s, m, t, d, i, j, i);
    KeptPart(s, m, i, j, i + 1, j);
    ElementFollows(s, m, t, d, i + 1, j, shown);
    KeptSkip(s, m, t, d, e);
    MoreValuesFollows(s, m, t, d, k, shown);
    var first', rest' := Value(t, j - d).node, MoreValues(t, k - d).node;
    ConsValues(first, rest, d, shown, m);
    ConsValues(first', rest', d, shown, m);
    ArrayForm(t, i - d, first', k - d, rest', e - d);
  }
}
