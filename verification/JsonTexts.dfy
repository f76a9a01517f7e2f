/**
 The texts the JSON grammar stands for, written down as data: what a text looks like, byte by byte, and
 which tree it means. Nothing here parses.
 */
module JsonTexts {
  import opened RangeSets
  import opened Wire
  import opened JsonTree
  import opened JsonParser

  // ----- Terminals

  /** The classes of bytes that the grammar tells apart, as text. */
  lemma ByteClasses(b: byte)
    ensures IsWhitespace(b) <==> b as char in " \t\r\n"
    ensures IsDigit(b) <==> b as char in "0123456789"
    ensures IsHexDigit(b) <==> b as char in "0123456789abcdefABCDEF"
    ensures IsStar(b) <==> b as char in "*"
  {
    DigitClass(b);
    HexDigitClass(b);
  }

  lemma DigitClass(b: byte)
    ensures IsDigit(b) <==> b as char in "0123456789"
  {
    var digits := "0123456789";
    if IsDigit(b) { assert b as char == digits[b - '0' as byte]; }
  }

  lemma HexDigitClass(b: byte)
    ensures IsHexDigit(b) <==> b as char in "0123456789abcdefABCDEF"
  {
    DigitClass(b);
    var lower, upper := "abcdef", "ABCDEF";
    assert "0123456789abcdefABCDEF" == "0123456789" + lower + upper;
    if 'a' as byte <= b <= 'f' as byte { assert b as char == lower[b - 'a' as byte]; }
    if 'A' as byte <= b <= 'F' as byte { assert b as char == upper[b - 'A' as byte]; }
  }

  /** The punctuation and the literals of the grammar, as text. */
  lemma Punctuation()
    ensures Spelled([LBRACE, RBRACE, LBRACKET, RBRACKET, COLON, COMMA, QUOTE, BACKSLASH], "{}[]:,\"\\")
    ensures Spelled([DOT, MINUS, PLUS, UPPER_E, LOWER_E, LOWER_U, SLASH, ZERO], ".-+Eeu/0")
    ensures Spelled(TRUE, "true") && Spelled(FALSE, "false") && Spelled(NULL, "null")
  {
  }

  predicate Blank(ws: seq<byte>) { forall k :: 0 <= k < |ws| ==> IsWhitespace(ws[k]) }

  // ----- Strings

  /** A byte that stands for itself, or the code after a backslash. */
  datatype Piece = Plain(b: byte) | Escaped(code: seq<byte>)

  predicate LegalPiece(p: Piece) {
    match p
    case Plain(b) => b != QUOTE && b != BACKSLASH
    case Escaped(code) =>
      || (|code| == 1 && code[0] in {QUOTE, BACKSLASH, SLASH, 0x62, 0x66, 0x6E, 0x72, 0x74})
      || (|code| == 5 && code[0] == LOWER_U && forall k :: 1 <= k < 5 ==> IsHexDigit(code[k]))
  }

  function PieceText(p: Piece): seq<byte> {
    match p
    case Plain(b) => [b]
    case Escaped(code) => [BACKSLASH] + code
  }

  function PiecesText(pieces: seq<Piece>): seq<byte> {
    if pieces == [] then [] else PieceText(pieces[0]) + PiecesText(pieces[1..])
  }

  /** Whitespace after the opening quote is not part of the string. */
  datatype Quoted = Quoted(blank: seq<byte>, pieces: seq<Piece>)

  ghost predicate LegalQuoted(q: Quoted) {
    && Blank(q.blank)
    && (forall k :: 0 <= k < |q.pieces| ==> LegalPiece(q.pieces[k]))
    && (q.pieces != [] && q.pieces[0].Plain? ==> !IsWhitespace(q.pieces[0].b))
  }

  function QuotedText(q: Quoted): seq<byte> {
    [QUOTE] + (q.blank + (PiecesText(q.pieces) + [QUOTE]))
  }

  function QuotedSpan(q: Quoted, pos: nat): Span {
    SpanOf(PiecesText(q.pieces), pos + 1 + |q.blank|)
  }

  /** A span that holds `bytes` from `pos` on. */
  function SpanOf(bytes: seq<byte>, pos: nat): Span {
    Span(bytes, FromRange(pos, pos + |bytes|))
  }

  // ----- Numbers

  datatype Exponent = Exponent(letter: byte, sign: seq<byte>, digits: seq<byte>)

  datatype Numeral = Numeral(minus: bool, whole: seq<byte>, fraction: Option<seq<byte>>, exponent: Option<Exponent>)

  predicate Digits(s: seq<byte>) { s != [] && forall k :: 0 <= k < |s| ==> IsDigit(s[k]) }

  ghost predicate LegalExponent(e: Exponent) {
    && (e.letter == UPPER_E || e.letter == LOWER_E)
    && (e.sign == [] || e.sign == [PLUS] || e.sign == [MINUS])
    && Digits(e.digits)
  }

  ghost predicate LegalNumeral(n: Numeral) {
    && (n.whole == [ZERO] || (Digits(n.whole) && n.whole[0] != ZERO))
    && (n.fraction.Some? ==> Digits(n.fraction.value))
    && (n.exponent.Some? ==> LegalExponent(n.exponent.value))
  }

  function ExponentText(e: Option<Exponent>): seq<byte> {
    match e
    case None => []
    case Some(x) => [x.letter] + (x.sign + x.digits)
  }

  function FractionText(fraction: Option<seq<byte>>): seq<byte> {
    match fraction
    case None => []
    case Some(digits) => [DOT] + digits
  }

  function SignText(minus: bool): seq<byte> { if minus then [MINUS] else [] }

  function NumeralText(n: Numeral): seq<byte> {
    SignText(n.minus) + (n.whole + (FractionText(n.fraction) + ExponentText(n.exponent)))
  }

  // ----- Values

  datatype Text =
    | NullText
    | BoolText(value: bool)
    | NumberText(n: Numeral)
    | StringText(q: Quoted)
    | StarsText(count: nat)
    | EmptyArrayText(blank: seq<byte>)
    | ArrayText(items: seq<Item>)
    | ObjectText(members: seq<Member>, blank: seq<byte>)
  {
    predicate Bare() { NullText? || BoolText? || NumberText? || StarsText? }
  }

  /** A value of an array, with the whitespace around it. */
  datatype Item = Item(blank: seq<byte>, value: Text, after: seq<byte>)

  /** A pair of an object, with its whitespace and the comma it may end with. */
  datatype Member = Member(blank: seq<byte>, key: Quoted, beforeColon: seq<byte>, afterColon: seq<byte>, value: Text,
                           comma: Option<seq<byte>>)

  ghost predicate Legal(t: Text) {
    match t
    case NumberText(n) => LegalNumeral(n)
    case StringText(q) => LegalQuoted(q)
    case StarsText(count) => count > 0
    case EmptyArrayText(blank) => Blank(blank)
    case ArrayText(items) => items != [] && LegalItems(items)
    case ObjectText(members, blank) => LegalMembers(members) && Blank(blank)
    case _ => true
  }

  ghost predicate LegalItems(items: seq<Item>)
    decreases items
  {
    items != [] ==> LegalItem(items[0]) && LegalItems(items[1..])
  }

  ghost predicate LegalItem(item: Item) { Blank(item.blank) && Legal(item.value) && Blank(item.after) }

  ghost predicate LegalMembers(members: seq<Member>)
    decreases members
  {
    members != [] ==> LegalMember(members[0]) && LegalMembers(members[1..])
  }

  ghost predicate LegalMember(m: Member) {
    && Blank(m.blank) && LegalQuoted(m.key) && Blank(m.beforeColon) && Blank(m.afterColon) && Legal(m.value)
    && (m.comma.Some? ==> Blank(m.comma.value))
  }

  /** The bytes of a text. */
  function Print(t: Text): seq<byte> {
    match t
    case NullText => NULL
    case BoolText(value) => if value then TRUE else FALSE
    case NumberText(n) => NumeralText(n)
    case StringText(q) => QuotedText(q)
    case StarsText(count) => Stars(count)
    case EmptyArrayText(blank) => [LBRACKET] + (blank + [RBRACKET])
    case ArrayText(items) => [LBRACKET] + (ItemsText(items) + [RBRACKET])
    case ObjectText(members, blank) => [LBRACE] + (MembersText(members) + (blank + [RBRACE]))
  }

  function ItemsText(items: seq<Item>): seq<byte>
    decreases items
  {
    if items == [] then [] else ItemText(items[0]) + (items[0].after + MoreItemsText(items[1..]))
  }

  /** The items after the first, each behind a comma. */
  function MoreItemsText(items: seq<Item>): seq<byte>
    decreases items
  {
    if items == [] then [] else [COMMA] + (ItemText(items[0]) + (items[0].after + MoreItemsText(items[1..])))
  }

  function ItemText(item: Item): seq<byte> { item.blank + Print(item.value) }

  function MembersText(members: seq<Member>): seq<byte>
    decreases members
  {
    if members == [] then [] else members[0].blank + (PairText(members[0]) + MembersText(members[1..]))
  }

  /** A pair from its key to its value, or to its comma if it has one. */
  function PairText(m: Member): seq<byte> {
    PairHead(m) + (Print(m.value) + CommaText(m.comma))
  }

  function PairHead(m: Member): seq<byte> {
    QuotedText(m.key) + (m.beforeColon + ([COLON] + m.afterColon))
  }

  function CommaText(comma: Option<seq<byte>>): seq<byte> {
    match comma
    case None => []
    case Some(blank) => blank + [COMMA]
  }

  // ----- Where a text may end

  predicate DigitAt(s: seq<byte>, k: nat) { k < |s| && IsDigit(s[k]) }

  predicate ExponentAt(s: seq<byte>, k: nat) {
    && (At(s, k, UPPER_E) || At(s, k, LOWER_E))
    && (DigitAt(s, k + 1) || ((At(s, k + 1, PLUS) || At(s, k + 1, MINUS)) && DigitAt(s, k + 2)))
  }

  /** Nothing at `k` prolongs a number that ends there with this fraction and this exponent. */
  predicate FractionEnds(fraction: Option<seq<byte>>, e: Option<Exponent>, s: seq<byte>, k: nat) {
    if e.Some? then !DigitAt(s, k)
    else !ExponentAt(s, k) && if fraction.Some? then !DigitAt(s, k) else !(At(s, k, DOT) && DigitAt(s, k + 1))
  }

  predicate NumeralEnds(n: Numeral, s: seq<byte>, k: nat) {
    && FractionEnds(n.fraction, n.exponent, s, k)
    && (n.fraction.None? && n.exponent.None? && n.whole != [ZERO] ==> !DigitAt(s, k))
  }

  /** Nothing at `k` prolongs a text that ends there; only numbers and runs of stars can go on. */
  predicate TextEnds(t: Text, s: seq<byte>, k: nat) {
    match t
    case NumberText(n) => NumeralEnds(n, s, k)
    case StarsText(_) => !At(s, k, STAR)
    case _ => true
  }

  // ----- Meaning

  /** The tree of a text that stands at `pos`. */
  function Tree(t: Text, pos: nat): JsonValue {
    match t
    case NullText => Null(SpanOf(Print(t), pos))
    case BoolText(_) => Bool(SpanOf(Print(t), pos))
    case NumberText(_) => Number(SpanOf(Print(t), pos))
    case StringText(q) => String(QuotedSpan(q, pos))
    case StarsText(_) => Redacted(SpanOf(Print(t), pos))
    case EmptyArrayText(_) => Array(SpanOf(Print(t), pos), [])
    case ArrayText(items) => Array(SpanOf(Print(t), pos), ItemTrees(items, pos + 1))
    case ObjectText(members, _) => Object(SpanOf(Print(t), pos), MemberTrees(members, pos + 1))
  }

  function ItemTrees(items: seq<Item>, pos: nat): seq<JsonValue>
    decreases items
  {
    if items == [] then []
    else [ItemTree(items[0], pos)] + ItemTrees(items[1..], pos + |ItemText(items[0])| + |items[0].after| + 1)
  }

  function ItemTree(item: Item, pos: nat): JsonValue { Tree(item.value, pos + |item.blank|) }

  function MemberTrees(members: seq<Member>, pos: nat): seq<KeyValue>
    decreases members
  {
    if members == [] then []
    else
      var start := pos + |members[0].blank|;
      [MemberTree(members[0], start)] + MemberTrees(members[1..], start + |PairText(members[0])|)
  }

  function MemberTree(m: Member, start: nat): KeyValue {
    KeyValue(SpanOf(PairText(m), start), QuotedSpan(m.key, start), Tree(m.value, start + |PairHead(m)|))
  }
}
