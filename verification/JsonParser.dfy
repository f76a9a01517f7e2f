/**
 The JSON grammar as functions from a position to a match, building the tree of spans on the way.
 Every delimiter of the grammar is an ASCII byte, so working on bytes finds the same spans as
 working on the characters of a valid UTF-8 source.
 */
module JsonParser {
  import opened RangeSets
  import opened Wire
  import opened JsonTree

  const TAB: byte := 0x09
  const LF: byte := 0x0A
  const CR: byte := 0x0D
  const SPACE: byte := 0x20
  const QUOTE: byte := 0x22
  const PLUS: byte := 0x2B
  const COMMA: byte := 0x2C
  const MINUS: byte := 0x2D
  const DOT: byte := 0x2E
  const SLASH: byte := 0x2F
  const ZERO: byte := 0x30
  const NINE: byte := 0x39
  const COLON: byte := 0x3A
  const UPPER_E: byte := 0x45
  const LBRACKET: byte := 0x5B
  const BACKSLASH: byte := 0x5C
  const RBRACKET: byte := 0x5D
  const LOWER_E: byte := 0x65
  const LOWER_U: byte := 0x75
  const LBRACE: byte := 0x7B
  const RBRACE: byte := 0x7D

  const TRUE: seq<byte> := [0x74, 0x72, 0x75, 0x65]
  const FALSE: seq<byte> := [0x66, 0x61, 0x6C, 0x73, 0x65]
  const NULL: seq<byte> := [0x6E, 0x75, 0x6C, 0x6C]

  /** What a rule yields: a node and the position after it, or nothing. */
  datatype Parsed<+T> = Fail | Match(node: T, end: nat) {
    /** Ordered choice: the next alternative counts only when this one failed. */
    function Or(next: Parsed<T>): Parsed<T> {
      if Fail? then next else this
    }
  }

  predicate At(s: seq<byte>, i: nat, b: byte) { i < |s| && s[i] == b }

  predicate IsWhitespace(b: byte) { b == SPACE || b == TAB || b == CR || b == LF }

  predicate IsDigit(b: byte) { ZERO <= b <= NINE }

  predicate IsHexDigit(b: byte) { IsDigit(b) || 0x41 <= b <= 0x46 || 0x61 <= b <= 0x66 }

  predicate IsStar(b: byte) { b == STAR }

  // ----- Runs of bytes

  /** The end of the longest run of bytes in `inRun` from `i`. */
  function Run(s: seq<byte>, i: nat, inRun: byte -> bool): (j: nat)
    requires i <= |s|
    ensures i <= j <= |s|
    ensures forall p :: i <= p < j ==> inRun(s[p])
    ensures j < |s| ==> !inRun(s[j])
    decreases |s| - i
  {
    if i < |s| && inRun(s[i]) then Run(s, i + 1, inRun) else i
  }

  /** `WHITESPACE*`, which the grammar allows between the parts of a non-atomic rule. */
  function Skip(s: seq<byte>, i: nat): (j: nat)
    requires i <= |s|
    ensures i <= j <= |s|
  {
    Run(s, i, IsWhitespace)
  }

  // ----- Strings

  /** `escape`: the position after a backslash escape, if there is one at `i`. */
  function EscapeEnd(s: seq<byte>, i: nat): (e: Option<nat>)
    ensures e.Some? ==> i < e.value <= |s|
  {
    if !At(s, i, BACKSLASH) || i + 1 >= |s| then None
    else
      var b := s[i + 1];
      if b == QUOTE || b == BACKSLASH || b == SLASH
         || b == 0x62 || b == 0x66 || b == 0x6E || b == 0x72 || b == 0x74 then
        Some(i + 2)
      else if b == LOWER_U && i + 6 <= |s| && forall k :: i + 2 <= k < i + 6 ==> IsHexDigit(s[k]) then
        Some(i + 6)
      else None
  }

  /** `string`: everything up to the first unescaped quote or invalid escape. It always matches. */
  function StringEnd(s: seq<byte>, i: nat): (j: nat)
    requires i <= |s|
    ensures i <= j <= |s|
    ensures j < |s| ==> s[j] == QUOTE || s[j] == BACKSLASH
    decreases |s| - i
  {
    if i < |s| && s[i] != QUOTE && s[i] != BACKSLASH then StringEnd(s, i + 1)
    else match EscapeEnd(s, i)
      case None => i
      case Some(e) => StringEnd(s, e)
  }

  /** `quoted_string`: not atomic, so whitespace after the opening quote is outside the span. */
  function QuotedString(s: seq<byte>, i: nat): (r: Parsed<Span>)
    ensures r.Match? ==> i + 1 < r.end <= |s|
  {
    if !At(s, i, QUOTE) then Fail
    else
      var a := Skip(s, i + 1);
      var b := StringEnd(s, a);
      var c := Skip(s, b);
      if At(s, c, QUOTE) then Match(NewSpan(s, a, b), c + 1) else Fail
  }

  // ----- Numbers and literals

  /** `ASCII_DIGIT+` */
  function DigitsEnd(s: seq<byte>, i: nat): (e: Option<nat>)
    ensures e.Some? ==> i < e.value <= |s|
  {
    if i < |s| && IsDigit(s[i]) then Some(Run(s, i, IsDigit)) else None
  }

  /** `int` */
  function IntEnd(s: seq<byte>, i: nat): (e: Option<nat>)
    ensures e.Some? ==> i < e.value <= |s|
  {
    if At(s, i, ZERO) then Some(i + 1) else DigitsEnd(s, i)
  }

  /** `exp` */
  function ExpEnd(s: seq<byte>, i: nat): (e: Option<nat>)
    ensures e.Some? ==> i < e.value <= |s|
  {
    if !At(s, i, UPPER_E) && !At(s, i, LOWER_E) then None
    else DigitsEnd(s, if At(s, i + 1, PLUS) || At(s, i + 1, MINUS) then i + 2 else i + 1)
  }

  /** `("." ~ ASCII_DIGIT+ ~ exp? | exp)?` */
  function FractionEnd(s: seq<byte>, i: nat): (e: nat)
    requires i <= |s|
    ensures i <= e <= |s|
  {
    var fraction := if At(s, i, DOT) then DigitsEnd(s, i + 1) else None;
    match fraction
    case Some(f) => (match ExpEnd(s, f) case Some(e) => e case None => f)
    case None => (match ExpEnd(s, i) case Some(e) => e case None => i)
  }

  /** `number` */
  function NumberEnd(s: seq<byte>, i: nat): (e: Option<nat>)
    ensures e.Some? ==> i < e.value <= |s|
  {
    match IntEnd(s, if At(s, i, MINUS) then i + 1 else i)
    case None => None
    case Some(e) => Some(FractionEnd(s, e))
  }

  function NumberRule(s: seq<byte>, i: nat): (r: Parsed<JsonValue>)
    ensures r.Match? ==> i < r.end <= |s|
  {
    match NumberEnd(s, i)
    case None => Fail
    case Some(e) => Match(Number(NewSpan(s, i, e)), e)
  }

  predicate HasLiteral(s: seq<byte>, i: nat, literal: seq<byte>) {
    i + |literal| <= |s| && s[i..i + |literal|] == literal
  }

  function BoolRule(s: seq<byte>, i: nat): (r: Parsed<JsonValue>)
    ensures r.Match? ==> i < r.end <= |s|
  {
    if HasLiteral(s, i, TRUE) then Match(Bool(NewSpan(s, i, i + 4)), i + 4)
    else if HasLiteral(s, i, FALSE) then Match(Bool(NewSpan(s, i, i + 5)), i + 5)
    else Fail
  }

  function NullRule(s: seq<byte>, i: nat): (r: Parsed<JsonValue>)
    ensures r.Match? ==> i < r.end <= |s|
  {
    if HasLiteral(s, i, NULL) then Match(Null(NewSpan(s, i, i + 4)), i + 4) else Fail
  }

  function RedactedRule(s: seq<byte>, i: nat): (r: Parsed<JsonValue>)
    ensures r.Match? ==> i < r.end <= |s|
  {
    if At(s, i, STAR) then
      var e := Run(s, i, IsStar);
      Match(Redacted(NewSpan(s, i, e)), e)
    else Fail
  }

  // ----- Values

  function StringRule(s: seq<byte>, i: nat): (r: Parsed<JsonValue>)
    ensures r.Match? ==> i + 1 < r.end <= |s|
  {
    match QuotedString(s, i)
    case Fail => Fail
    case Match(span, e) => Match(String(span), e)
  }

  /** `value`: no whitespace before it, and nothing said about what follows. */
  function Value(s: seq<byte>, i: nat): (r: Parsed<JsonValue>)
    ensures r.Match? ==> i < r.end <= |s|
    decreases |s| - i, 1
  {
    StringRule(s, i)
      .Or(NumberRule(s, i))
      .Or(ObjectRule(s, i))
      .Or(ArrayRule(s, i))
      .Or(BoolRule(s, i))
      .Or(NullRule(s, i))
      .Or(RedactedRule(s, i))
  }

  /** `object`: one pair or more between braces, or else an empty pair of braces. */
  function ObjectRule(s: seq<byte>, i: nat): (r: Parsed<JsonValue>)
    ensures r.Match? ==> i < r.end <= |s|
    decreases |s| - i, 0
  {
    if !At(s, i, LBRACE) then Fail
    else
      var j := Skip(s, i + 1);
      var withPairs :=
        match Pair(s, j)
        case Fail => Fail
        case Match(first, k) =>
          var rest := MorePairs(s, k);
          var c := Skip(s, rest.end);
          if At(s, c, RBRACE) then Match(Object(NewSpan(s, i, c + 1), [first] + rest.node), c + 1) else Fail;
      withPairs.Or(if At(s, j, RBRACE) then Match(Object(NewSpan(s, i, j + 1), []), j + 1) else Fail)
  }

  /** The rest of `pair ~ (pair)*`: no comma is asked for, since a pair's comma belongs to the pair. */
  function MorePairs(s: seq<byte>, k: nat): (r: Parsed<seq<KeyValue>>)
    requires k <= |s|
    ensures r.Match? && k <= r.end <= |s|
    decreases |s| - k, 2
  {
    match Pair(s, Skip(s, k))
    case Fail => Match([], k)
    case Match(kv, e) =>
      var rest := MorePairs(s, e);
      Match([kv] + rest.node, rest.end)
  }

  /** `pair`: key, colon, value and an optional comma; the span drops trailing whitespace. */
  function Pair(s: seq<byte>, i: nat): (r: Parsed<KeyValue>)
    requires i <= |s|
    ensures r.Match? ==> i < r.end <= |s|
    decreases |s| - i, 1
  {
    match QuotedString(s, i)
    case Fail => Fail
    case Match(key, k) =>
      var c := Skip(s, k);
      if !At(s, c, COLON) then Fail
      else
        match Value(s, Skip(s, c + 1))
        case Fail => Fail
        case Match(value, e) =>
          var end := PairEnd(s, e);
          Match(KeyValue(NewSpan(s, i, TrimEnd(s, i, end)), key, value), end)
  }

  /** `(",")?` after a pair's value, whitespace before it included. */
  function PairEnd(s: seq<byte>, e: nat): (end: nat)
    requires e <= |s|
    ensures e <= end <= |s|
  {
    var t := Skip(s, e);
    if At(s, t, COMMA) then t + 1 else t
  }

  /** `trim_end` on `lo..hi`. A pair's text ends in an ASCII byte, so ASCII white space is all it can drop. */
  function TrimEnd(s: seq<byte>, lo: nat, hi: nat): (e: nat)
    requires lo <= hi <= |s|
    ensures lo <= e <= hi
  {
    if lo < hi && (TAB <= s[hi - 1] <= CR || s[hi - 1] == SPACE) then TrimEnd(s, lo, hi - 1) else hi
  }

  /** `array`: one value or more between brackets, or else an empty pair of brackets. */
  function ArrayRule(s: seq<byte>, i: nat): (r: Parsed<JsonValue>)
    ensures r.Match? ==> i < r.end <= |s|
    decreases |s| - i, 0
  {
    if !At(s, i, LBRACKET) then Fail
    else
      var j := Skip(s, i + 1);
      var withValues :=
        match Value(s, j)
        case Fail => Fail
        case Match(first, k) =>
          var rest := MoreValues(s, k);
          var c := Skip(s, rest.end);
          if At(s, c, RBRACKET) then Match(Array(NewSpan(s, i, c + 1), [first] + rest.node), c + 1) else Fail;
      withValues.Or(if At(s, j, RBRACKET) then Match(Array(NewSpan(s, i, j + 1), []), j + 1) else Fail)
  }

  /** `("," ~ value)*` */
  function MoreValues(s: seq<byte>, k: nat): (r: Parsed<seq<JsonValue>>)
    requires k <= |s|
    ensures r.Match? && k <= r.end <= |s|
    decreases |s| - k, 2
  {
    var j := Skip(s, k);
    if !At(s, j, COMMA) then Match([], k)
    else
      match Value(s, Skip(s, j + 1))
      case Fail => Match([], k)
      case Match(v, e) =>
        var rest := MoreValues(s, e);
        Match([v] + rest.node, rest.end)
  }

  /** `parse`: the value at the start of the source, whatever follows it. */
  function Parse(src: seq<byte>): Option<JsonValue> {
    match Value(src, 0)
    case Fail => None
    case Match(v, _) => Some(v)
  }
}
