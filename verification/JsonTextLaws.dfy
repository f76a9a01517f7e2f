/** The parser and the texts: every text parses to its tree, and whatever parses is such a text. */
module JsonTextLaws {
  import opened RangeSets
  import opened Wire
  import opened JsonTree
  import opened JsonParser
  import opened JsonNesting
  import opened JsonTexts
  import D = JsonDisclosure
  import JsonLocality
  import JsonPlacement

  // ----- Every text parses

  lemma SpanHolds(s: seq<byte>, pos: nat, bytes: seq<byte>)
    requires Holds(s, pos, bytes)
    ensures pos + |bytes| <= |s| && NewSpan(s, pos, pos + |bytes|) == SpanOf(bytes, pos)
  {
  }

  lemma HoldsInBounds(s: seq<byte>, pos: nat, bytes: seq<byte>)
    requires Holds(s, pos, bytes)
    ensures pos + |bytes| <= |s|
  {
  }

  lemma HeldByte(s: seq<byte>, pos: nat, bytes: seq<byte>, k: nat)
    requires Holds(s, pos, bytes) && k < |bytes|
    ensures pos + k < |s| && s[pos + k] == bytes[k]
  {
    assert s[pos..pos + |bytes|][k] == s[pos + k];
  }

  lemma BlankIsSkipped(s: seq<byte>, i: nat, ws: seq<byte>)
    requires Holds(s, i, ws) && Blank(ws)
    requires i + |ws| < |s| ==> !IsWhitespace(s[i + |ws|])
    ensures Skip(s, i) == i + |ws|
  {
    forall p | i <= p < i + |ws| ensures IsWhitespace(s[p]) { HeldByte(s, i, ws, p - i); }
    D.RunIs(s, i, i + |ws|, IsWhitespace);
  }

  lemma {:induction false} PiecesParse(s: seq<byte>, a: nat, pieces: seq<Piece>)
    requires Holds(s, a, PiecesText(pieces)) && At(s, a + |PiecesText(pieces)|, QUOTE)
    requires forall k :: 0 <= k < |pieces| ==> LegalPiece(pieces[k])
    ensures StringEnd(s, a) == a + |PiecesText(pieces)|
    decreases |pieces|
  {
    hide StringEnd, EscapeEnd, Holds, LegalPiece, PiecesText, PieceText;
    D.StringEndStep(s, a);
    if pieces == [] {
      NoPieces();
      D.NoEscape(s, a);
    } else {
      PiecesCons(pieces);
      HoldsParts(s, a, PieceText(pieces[0]), PiecesText(pieces[1..]));
      PieceParses(s, a, pieces[0]);
      PiecesParse(s, a + |PieceText(pieces[0])|, pieces[1..]);
    }
  }

  lemma NoPieces()
    ensures PiecesText([]) == []
  {
  }

  lemma {:induction false} PiecesCons(pieces: seq<Piece>)
    requires pieces != []
    ensures PiecesText(pieces) == PieceText(pieces[0]) + PiecesText(pieces[1..])
  {
  }

  lemma PieceParses(s: seq<byte>, a: nat, p: Piece)
    requires Holds(s, a, PieceText(p)) && LegalPiece(p)
    ensures a < |s|
    ensures p.Plain? ==> s[a] != QUOTE && s[a] != BACKSLASH && |PieceText(p)| == 1
    ensures p.Escaped? ==> s[a] == BACKSLASH && EscapeEnd(s, a) == Some(a + |PieceText(p)|)
  {
    HeldByte(s, a, PieceText(p), 0);
    match p
    case Plain(b) =>
    case Escaped(code) =>
      forall k: nat | k < |code| ensures a + 1 + k < |s| && s[a + 1 + k] == code[k] {
        HeldByte(s, a, PieceText(p), k + 1);
      }
      if |code| == 5 {
        forall k | a + 2 <= k < a + 6 ensures IsHexDigit(s[k]) { assert s[k] == code[k - a - 1]; }
      }
  }

  /** Where a string begins, before its quotes are taken into account: no whitespace. */
  lemma PiecesStart(q: Quoted)
    requires LegalQuoted(q)
    ensures var t := PiecesText(q.pieces) + [QUOTE]; !IsWhitespace(t[0])
  {
    if q.pieces != [] { assert PieceText(q.pieces[0]) != []; }
  }

  lemma QuotedParses(s: seq<byte>, i: nat, q: Quoted)
    requires Holds(s, i, QuotedText(q)) && LegalQuoted(q)
    ensures QuotedString(s, i) == Match(QuotedSpan(q, i), i + |QuotedText(q)|)
    ensures At(s, i, QUOTE)
  {
    hide Holds, StringEnd, QuotedString, PiecesText, IsWhitespace;
    var a := i + 1 + |q.blank|;
    var pieces := PiecesText(q.pieces);
    HoldsParts(s, i, [QUOTE], q.blank + (pieces + [QUOTE]));
    HoldsParts(s, i + 1, q.blank, pieces + [QUOTE]);
    PiecesStart(q);
    HeldByte(s, i, [QUOTE], 0);
    HeldByte(s, a, pieces + [QUOTE], 0);
    BlankIsSkipped(s, i + 1, q.blank);
    HoldsParts(s, a, pieces, [QUOTE]);
    HeldByte(s, a + |pieces|, [QUOTE], 0);
    PiecesParse(s, a, q.pieces);
    D.StringForm(s, i, a, a + |pieces|);
    SpanHolds(s, a, pieces);
  }

  // ----- Numbers

  lemma DigitsParse(s: seq<byte>, i: nat, digits: seq<byte>)
    requires Holds(s, i, digits) && Digits(digits) && (i + |digits| < |s| ==> !IsDigit(s[i + |digits|]))
    ensures DigitsEnd(s, i) == Some(i + |digits|)
  {
    forall p | i <= p < i + |digits| ensures IsDigit(s[p]) { HeldByte(s, i, digits, p - i); }
    D.RunIs(s, i, i + |digits|, IsDigit);
  }

  lemma ExponentIsAt(s: seq<byte>, i: nat)
    ensures ExpEnd(s, i).Some? <==> ExponentAt(s, i)
  {
    hide Run;
  }

  lemma ExponentParses(s: seq<byte>, i: nat, e: Option<Exponent>)
    requires Holds(s, i, ExponentText(e)) && (e.Some? ==> LegalExponent(e.value))
    requires if e.Some? then !DigitAt(s, i + |ExponentText(e)|) else !ExponentAt(s, i)
    ensures ExpEnd(s, i) == if e.None? then None else Some(i + |ExponentText(e)|)
    ensures e.Some? ==> i < |s| && !IsDigit(s[i]) && s[i] != DOT
  {
    hide Holds, DigitsEnd;
    match e
    case None => ExponentIsAt(s, i);
    case Some(x) =>
      HoldsParts(s, i, [x.letter], x.sign + x.digits);
      HoldsParts(s, i + 1, x.sign, x.digits);
      HeldByte(s, i, [x.letter], 0);
      HeldByte(s, i + 1 + |x.sign|, x.digits, 0);
      DigitsParse(s, i + 1 + |x.sign|, x.digits);
      if x.sign != [] { HeldByte(s, i + 1, x.sign, 0); }
      assert (if At(s, i + 1, PLUS) || At(s, i + 1, MINUS) then i + 2 else i + 1) == i + 1 + |x.sign| by {
        assert IsDigit(s[i + 1 + |x.sign|]);
      }
      assert ExpEnd(s, i) == DigitsEnd(s, i + 1 + |x.sign|);
  }

  lemma DigitsAt(s: seq<byte>, i: nat)
    ensures DigitsEnd(s, i).Some? <==> DigitAt(s, i)
  {
    hide Run;
  }

  lemma FractionParses(s: seq<byte>, i: nat, fraction: Option<seq<byte>>, e: Option<Exponent>)
    requires Holds(s, i, FractionText(fraction) + ExponentText(e))
    requires (fraction.Some? ==> Digits(fraction.value)) && (e.Some? ==> LegalExponent(e.value))
    requires FractionEnds(fraction, e, s, i + |FractionText(fraction)| + |ExponentText(e)|)
    ensures i <= |s| && FractionEnd(s, i) == i + |FractionText(fraction)| + |ExponentText(e)|
    ensures fraction.Some? || e.Some? ==> i < |s| && !IsDigit(s[i])
  {
    hide DigitsEnd, ExpEnd, IsDigit, Holds, ExponentAt;
    HoldsInBounds(s, i, FractionText(fraction) + ExponentText(e));
    HoldsParts(s, i, FractionText(fraction), ExponentText(e));
    ExponentParses(s, i + |FractionText(fraction)|, e);
    match fraction
    case None => DigitsAt(s, i + 1);
    case Some(digits) =>
      HoldsParts(s, i, [DOT], digits);
      HeldByte(s, i, [DOT], 0);
      DigitsParse(s, i + 1, digits);
      DotIsNoDigit();
  }

  lemma DotIsNoDigit()
    ensures !IsDigit(DOT) && !IsDigit(MINUS)
  {
  }

  /** No digit follows the whole part of a number but a leading zero. */
  lemma WholeEnds(s: seq<byte>, k: nat, n: Numeral)
    requires Holds(s, k, FractionText(n.fraction) + ExponentText(n.exponent)) && LegalNumeral(n) && n.whole != [ZERO]
    requires NumeralEnds(n, s, k + |FractionText(n.fraction)| + |ExponentText(n.exponent)|)
    ensures !DigitAt(s, k)
  {
    hide Holds, Digits, FractionEnds;
    var tail := FractionText(n.fraction) + ExponentText(n.exponent);
    if tail != [] { HeldByte(s, k, tail, 0); }
  }

  lemma NumeralParses(s: seq<byte>, i: nat, n: Numeral)
    requires Holds(s, i, NumeralText(n)) && LegalNumeral(n) && NumeralEnds(n, s, i + |NumeralText(n)|)
    ensures NumberEnd(s, i) == Some(i + |NumeralText(n)|)
    ensures i < |s| && (s[i] == MINUS || IsDigit(s[i]))
  {
    hide Holds, DigitsEnd, FractionEnd, ExponentAt, LegalExponent, FractionText, ExponentText, FractionEnds;
    var tail := FractionText(n.fraction) + ExponentText(n.exponent);
    var p := i + |SignText(n.minus)|;
    HoldsParts(s, i, SignText(n.minus), n.whole + tail);
    HoldsParts(s, p, n.whole, tail);
    HeldByte(s, p, n.whole, 0);
    if n.minus { HeldByte(s, i, [MINUS], 0); }
    FractionParses(s, p + |n.whole|, n.fraction, n.exponent);
    if n.whole != [ZERO] {
      WholeEnds(s, p + |n.whole|, n);
      DigitsParse(s, p, n.whole);
    }
  }

  // ----- Values

  /** The first byte of a text tells its kind, and is not whitespace. */
  lemma TextStarts(t: Text)
    requires Legal(t)
    ensures Print(t) != [] && !IsWhitespace(Print(t)[0])
  {
    hide ItemsText, MembersText, PiecesText, ExponentText, FractionText, LegalItems, LegalMembers;
    match t
    case NumberText(n) => assert NumeralText(n)[0] == if n.minus then MINUS else n.whole[0];
    case StringText(q) => assert QuotedText(q)[0] == QUOTE;
    case _ =>
  }

  lemma BareParses(s: seq<byte>, i: nat, t: Text)
    requires t.Bare() && Holds(s, i, Print(t)) && Legal(t) && TextEnds(t, s, i + |Print(t)|)
    ensures Value(s, i) == Match(Tree(t, i), i + |Print(t)|)
  {
    hide Value, NumberEnd, NumeralText, LegalNumeral, FromRange, Run;
    ValueByFirstByte(s, i);
    SpanHolds(s, i, Print(t));
    TextStarts(t);
    HeldByte(s, i, Print(t), 0);
    LiteralFirst(s, i, TRUE);
    if t.NumberText? { NumeralParses(s, i, t.n); }
    if t.StarsText? { StarsParse(s, i, t.count); }
  }

  lemma StarsParse(s: seq<byte>, i: nat, count: nat)
    requires count > 0 && Holds(s, i, Stars(count)) && !At(s, i + count, STAR)
    ensures At(s, i, STAR) && Run(s, i, IsStar) == i + count
  {
    forall p | i <= p < i + count ensures s[p] == STAR { HeldByte(s, i, Stars(count), p - i); }
    D.RunIs(s, i, i + count, IsStar);
  }

  lemma StringParses(s: seq<byte>, i: nat, q: Quoted)
    requires Holds(s, i, QuotedText(q)) && LegalQuoted(q)
    ensures Value(s, i) == Match(String(QuotedSpan(q, i)), i + |QuotedText(q)|)
  {
    hide Value, QuotedString, QuotedText, QuotedSpan, LegalQuoted;
    ValueByFirstByte(s, i);
    QuotedParses(s, i, q);
  }

  /**
   Every text the grammar stands for parses, wherever it stands, to exactly its tree, unless it is a number
   or a run of stars that goes on behind its text.
   */
  lemma {:induction false} TextParses(s: seq<byte>, i: nat, t: Text)
    requires Holds(s, i, Print(t)) && Legal(t) && TextEnds(t, s, i + |Print(t)|)
    ensures Value(s, i) == Match(Tree(t, i), i + |Print(t)|)
    decreases t
  {
    hide Value, Holds, NumeralText, QuotedText, ItemsText, MembersText, TextEnds, LegalItems, LegalMembers,
         LegalNumeral, LegalQuoted, ItemTrees, MemberTrees;
    match t
    case StringText(q) => StringParses(s, i, q);
    case EmptyArrayText(blank) => EmptyArrayParses(s, i, blank);
    case ArrayText(items) => ItemsParse(s, i, items);
    case ObjectText(members, blank) => ObjectTextParses(s, i, members, blank);
    case _ => BareParses(s, i, t);
  }

  lemma EmptyArrayParses(s: seq<byte>, i: nat, blank: seq<byte>)
    requires Holds(s, i, Print(EmptyArrayText(blank))) && Blank(blank)
    ensures Value(s, i) == Match(Tree(EmptyArrayText(blank), i), i + |Print(EmptyArrayText(blank))|)
  {
    hide Value, ArrayRule, Holds, FromRange, NewSpan;
    HoldsParts(s, i, [LBRACKET], blank + [RBRACKET]);
    HoldsParts(s, i + 1, blank, [RBRACKET]);
    HeldByte(s, i, [LBRACKET], 0);
    HeldByte(s, i + 1 + |blank|, [RBRACKET], 0);
    BlankIsSkipped(s, i + 1, blank);
    SpanHolds(s, i, Print(EmptyArrayText(blank)));
    ValueByFirstByte(s, i);
    EmptyArrayForm(s, i);
  }

  // ----- Arrays

  /** Whatever may follow a value inside an array or an object ends its text. */
  lemma StopsEnd(t: Text, s: seq<byte>, k: nat)
    ensures D.Stops(s, k) ==> TextEnds(t, s, k)
  {
  }

  lemma {:induction false} ItemParses(s: seq<byte>, p: nat, item: Item)
    requires Holds(s, p, ItemText(item)) && LegalItem(item) && D.Stops(s, p + |ItemText(item)|)
    ensures p <= |s| && Skip(s, p) == p + |item.blank|
    ensures Value(s, Skip(s, p)) == Match(ItemTree(item, p), p + |ItemText(item)|)
    decreases item
  {
    hide Value, Holds, Print, Legal, Tree, D.Stops, Skip;
    HoldsParts(s, p, item.blank, Print(item.value));
    TextStarts(item.value);
    HeldByte(s, p + |item.blank|, Print(item.value), 0);
    BlankIsSkipped(s, p, item.blank);
    StopsEnd(item.value, s, p + |ItemText(item)|);
    TextParses(s, p + |item.blank|, item.value);
  }

  /** After an item comes whitespace, the next comma or the closing bracket. */
  lemma AfterItem(s: seq<byte>, k: nat, after: seq<byte>, rest: seq<Item>)
    requires Holds(s, k, after + MoreItemsText(rest)) && Blank(after)
    requires At(s, k + |after| + |MoreItemsText(rest)|, RBRACKET)
    ensures D.Stops(s, k) && k <= |s| && Skip(s, k) == k + |after|
    ensures if rest == [] then At(s, k + |after|, RBRACKET) else At(s, k + |after|, COMMA)
  {
    hide Holds, ItemText, Skip;
    HoldsParts(s, k, after, MoreItemsText(rest));
    if rest != [] { HeldByte(s, k + |after|, MoreItemsText(rest), 0); }
    if after != [] { HeldByte(s, k, after, 0); }
    BlankIsSkipped(s, k, after);
  }

  lemma {:induction false} MoreItemsParse(s: seq<byte>, k: nat, after: seq<byte>, rest: seq<Item>)
    requires Holds(s, k, after + MoreItemsText(rest)) && Blank(after) && LegalItems(rest)
    requires At(s, k + |after| + |MoreItemsText(rest)|, RBRACKET)
    ensures k <= |s| && MoreValues(s, k).node == ItemTrees(rest, k + |after| + 1)
    ensures Skip(s, MoreValues(s, k).end) == k + |after| + |MoreItemsText(rest)|
    decreases rest
  {
    hide Value, MoreValues, Holds, ItemText, ItemTree, LegalItem, D.Stops, Skip, MoreItemsText, Blank, ItemTrees;
    AfterItem(s, k, after, rest);
    D.MoreValuesForm(s, k);
    if rest == [] {
      NoMoreItems();
    } else {
      var item, j := rest[0], k + |after| + 1;
      MoreItemsCons(rest);
      HoldsParts(s, k, after, MoreItemsText(rest));
      HoldsParts(s, k + |after|, [COMMA], ItemText(item) + (item.after + MoreItemsText(rest[1..])));
      HoldsParts(s, j, ItemText(item), item.after + MoreItemsText(rest[1..]));
      BlankAfter(item);
      AfterItem(s, j + |ItemText(item)|, item.after, rest[1..]);
      ItemParses(s, j, item);
      MoreItemsParse(s, j + |ItemText(item)|, item.after, rest[1..]);
    }
  }

  lemma NoItems()
    ensures LegalItems([])
  {
  }

  lemma NoMoreItems()
    ensures MoreItemsText([]) == [] && forall pos :: ItemTrees([], pos) == []
  {
  }

  lemma {:induction false} MoreItemsCons(rest: seq<Item>)
    requires rest != []
    ensures MoreItemsText(rest) == [COMMA] + (ItemText(rest[0]) + (rest[0].after + MoreItemsText(rest[1..])))
    ensures forall pos: nat ::
      ItemTrees(rest, pos)
      == [ItemTree(rest[0], pos)] + ItemTrees(rest[1..], pos + |ItemText(rest[0])| + |rest[0].after| + 1)
  {
  }

  lemma BlankAfter(item: Item)
    requires LegalItem(item)
    ensures Blank(item.after) && Blank(item.blank)
  {
  }

  lemma {:induction false} ItemsParse(s: seq<byte>, i: nat, items: seq<Item>)
    requires items != [] && LegalItems(items) && Holds(s, i, Print(ArrayText(items)))
    ensures Value(s, i) == Match(Tree(ArrayText(items), i), i + |Print(ArrayText(items))|)
    decreases items
  {
    hide Value, MoreValues, ArrayRule, Holds, ItemText, ItemTree, LegalItem, D.Stops, Skip, MoreItemsText, Blank,
         FromRange, NewSpan;
    var item := items[0];
    var p, k := i + 1, i + 1 + |ItemText(item)|;
    var more := item.after + MoreItemsText(items[1..]);
    assert Print(ArrayText(items)) == [LBRACKET] + ((ItemText(item) + more) + [RBRACKET]);
    HoldsParts(s, i, [LBRACKET], (ItemText(item) + more) + [RBRACKET]);
    HoldsParts(s, p, ItemText(item) + more, [RBRACKET]);
    HoldsParts(s, p, ItemText(item), more);
    HeldByte(s, i, [LBRACKET], 0);
    HeldByte(s, k + |more|, [RBRACKET], 0);
    BlankAfter(item);
    AfterItem(s, k, item.after, items[1..]);
    ItemParses(s, p, item);
    MoreItemsParse(s, k, item.after, items[1..]);
    SpanHolds(s, i, Print(ArrayText(items)));
    ValueByFirstByte(s, i);
    ArrayForm(s, i, ItemTree(item, p), k, MoreValues(s, k).node, MoreValues(s, k).end);
  }

  // ----- Objects

  lemma MemberForm(m: Member, start: nat)
    ensures PairText(m) == PairHead(m) + (Print(m.value) + CommaText(m.comma))
    ensures m.comma.None? ==> CommaText(m.comma) == []
    ensures MemberTree(m, start) ==
      KeyValue(SpanOf(PairText(m), start), QuotedSpan(m.key, start), Tree(m.value, start + |PairHead(m)|))
  {
    hide Print, Tree, PairHead, SpanOf, QuotedSpan;
  }

  lemma {:induction false} MemberParses(s: seq<byte>, start: nat, m: Member)
    requires Holds(s, start, PairText(m)) && LegalMember(m)
    requires start + |PairText(m)| <= |s|
    requires m.comma.None? ==> D.Stops(s, start + |PairText(m)|) && !At(s, Skip(s, start + |PairText(m)|), COMMA)
    ensures start <= |s| && At(s, start, QUOTE)
    ensures var end := start + |PairText(m)|;
      Pair(s, start) == Match(MemberTree(m, start), if m.comma.Some? then end else Skip(s, end))
    decreases m
  {
    hide Value, QuotedString, Pair, Holds, Print, Legal, Tree, D.Stops, Skip, QuotedText, QuotedSpan, PairHead,
         FromRange, NewSpan, LegalQuoted, TextEnds, PairSpanEnd, PairEnd, IsWhitespace, PairText, CommaText, MemberTree;
    MemberForm(m, start);
    var tail := Print(m.value) + CommaText(m.comma);
    var vpos := start + |PairHead(m)|;
    var e := vpos + |Print(m.value)|;
    HoldsParts(s, start, PairHead(m), tail);
    HoldsParts(s, vpos, Print(m.value), CommaText(m.comma));
    TextStarts(m.value);
    HeldByte(s, vpos, Print(m.value), 0);
    KeyParses(s, start, m);
    CommaParses(s, e, m);
    StopsEnd(m.value, s, e);
    TextParses(s, vpos, m.value);
    var k := start + |QuotedText(m.key)|;
    PairForm(s, start, QuotedSpan(m.key, start), k, Tree(m.value, vpos), e);
    SpanHolds(s, start, PairText(m));
  }

  /** The key of a pair, and the colon with its whitespace. */
  lemma KeyParses(s: seq<byte>, start: nat, m: Member)
    requires Holds(s, start, PairHead(m)) && LegalMember(m)
    requires start + |PairHead(m)| < |s| && !IsWhitespace(s[start + |PairHead(m)|])
    ensures start <= |s| && At(s, start, QUOTE)
    ensures var k := start + |QuotedText(m.key)|;
      && QuotedString(s, start) == Match(QuotedSpan(m.key, start), k)
      && k <= |s| && At(s, Skip(s, k), COLON)
      && Skip(s, Skip(s, k) + 1) == start + |PairHead(m)|
  {
    hide Value, QuotedString, Holds, Skip, QuotedText, QuotedSpan, Legal, IsWhitespace;
    var k := start + |QuotedText(m.key)|;
    var c := k + |m.beforeColon|;
    HoldsParts(s, start, QuotedText(m.key), m.beforeColon + ([COLON] + m.afterColon));
    HoldsParts(s, k, m.beforeColon, [COLON] + m.afterColon);
    HoldsParts(s, c, [COLON], m.afterColon);
    QuotedParses(s, start, m.key);
    HeldByte(s, c, [COLON], 0);
    ColonIsNoBlank();
    BlankIsSkipped(s, k, m.beforeColon);
    BlankIsSkipped(s, c + 1, m.afterColon);
  }

  lemma ColonIsNoBlank()
    ensures !IsWhitespace(COLON) && !IsWhitespace(COMMA) && !IsWhitespace(QUOTE) && !IsWhitespace(RBRACE)
  {
  }

  /** What follows the value of a pair: its comma, or nothing that belongs to the pair. */
  lemma CommaParses(s: seq<byte>, e: nat, m: Member)
    requires Holds(s, e, CommaText(m.comma)) && (m.comma.Some? ==> Blank(m.comma.value))
    requires e + |CommaText(m.comma)| <= |s|
    requires m.comma.None? ==> D.Stops(s, e) && !At(s, Skip(s, e), COMMA)
    ensures D.Stops(s, e)
    ensures PairSpanEnd(s, e) == e + |CommaText(m.comma)|
    ensures PairEnd(s, e) == if m.comma.Some? then e + |CommaText(m.comma)| else Skip(s, e)
  {
    hide Holds, Skip;
    if m.comma.Some? {
      var blank := m.comma.value;
      HoldsParts(s, e, blank, [COMMA]);
      HeldByte(s, e + |blank|, [COMMA], 0);
      if blank != [] { HeldByte(s, e, blank, 0); }
      BlankIsSkipped(s, e, blank);
    }
  }

  function MembersTail(members: seq<Member>, blank: seq<byte>): seq<byte> { MembersText(members) + (blank + [RBRACE]) }

  lemma {:induction false} MembersTailCons(members: seq<Member>, blank: seq<byte>)
    requires members != []
    ensures MembersTail(members, blank) == members[0].blank + (PairText(members[0]) + MembersTail(members[1..], blank))
  {
    hide PairText;
    var m, rest := members[0], members[1..];
    assert (m.blank + (PairText(m) + MembersText(rest))) + (blank + [RBRACE])
        == m.blank + (PairText(m) + (MembersText(rest) + (blank + [RBRACE])));
  }

  /** Where members, or the closing brace, go on: whitespace is skipped up to a key or the brace. */
  lemma MembersStart(s: seq<byte>, p: nat, members: seq<Member>, blank: seq<byte>)
    requires Holds(s, p, MembersTail(members, blank)) && LegalMembers(members) && Blank(blank)
    ensures p <= |s| && D.Stops(s, p)
    ensures Skip(s, p) == p + (if members == [] then |blank| else |members[0].blank|)
    ensures if members == [] then At(s, Skip(s, p), RBRACE) else At(s, Skip(s, p), QUOTE)
  {
    hide Holds, Skip, QuotedText, LegalQuoted, Legal, PairHead, PairText, Print, MembersTail, MembersText;
    var gap := if members == [] then blank else members[0].blank;
    if members == [] {
      NoMembersTail(blank);
      HoldsParts(s, p, blank, [RBRACE]);
      HeldByte(s, p + |blank|, [RBRACE], 0);
    } else {
      MembersTailCons(members, blank);
      var rest := PairText(members[0]) + MembersTail(members[1..], blank);
      HoldsParts(s, p, gap, rest);
      PairTextStarts(members[0]);
      HeldByte(s, p + |gap|, rest, 0);
    }
    if gap != [] { HeldByte(s, p, gap, 0); }
    BlankIsSkipped(s, p, gap);
  }

  lemma NoMembersTail(blank: seq<byte>)
    ensures MembersTail([], blank) == blank + [RBRACE]
  {
  }

  lemma PairTextStarts(m: Member)
    ensures PairText(m) != [] && PairText(m)[0] == QUOTE
  {
    hide Print, PiecesText;
  }

  lemma SkipTwice(s: seq<byte>, p: nat)
    requires p <= |s|
    ensures Skip(s, Skip(s, p)) == Skip(s, p)
  {
  }

  /** A member parses as a pair at `start`, up to whitespace behind `next`. */
  ghost predicate FollowsMember(s: seq<byte>, start: nat, next: nat, m: Member) {
    && start <= next <= |s|
    && Pair(s, start).Match? && Pair(s, start).node == MemberTree(m, start)
    && next <= Pair(s, start).end && Skip(s, Pair(s, start).end) == Skip(s, next)
  }

  /** The first member parses as a pair, and leaves off where the next one is looked for. */
  lemma {:induction false} FirstMemberParses(s: seq<byte>, p: nat, members: seq<Member>, blank: seq<byte>)
    requires members != [] && Holds(s, p, MembersTail(members, blank)) && LegalMembers(members) && Blank(blank)
    ensures p <= |s| && Skip(s, p) == p + |members[0].blank|
    ensures Holds(s, p + |members[0].blank| + |PairText(members[0])|, MembersTail(members[1..], blank))
    ensures FollowsMember(s, p + |members[0].blank|, p + |members[0].blank| + |PairText(members[0])|, members[0])
    decreases members, 0
  {
    hide Pair, Holds, Skip, PairText, LegalMember, MembersTail, Blank, MemberTree, D.Stops;
    var m, rest := members[0], members[1..];
    var start := p + |m.blank|;
    var next := start + |PairText(m)|;
    MembersTailCons(members, blank);
    HoldsParts(s, p, m.blank, PairText(m) + MembersTail(rest, blank));
    HoldsParts(s, start, PairText(m), MembersTail(rest, blank));
    MembersStart(s, p, members, blank);
    MembersStart(s, next, rest, blank);
    MemberParses(s, start, m);
    SkipTwice(s, next);
  }

  lemma {:induction false} MembersParse(s: seq<byte>, p: nat, k: nat, members: seq<Member>, blank: seq<byte>)
    requires Holds(s, p, MembersTail(members, blank)) && LegalMembers(members) && Blank(blank)
    requires p <= k <= |s| && Skip(s, k) == Skip(s, p)
    ensures MorePairs(s, k).node == MemberTrees(members, p)
    ensures Skip(s, MorePairs(s, k).end) == p + |MembersText(members)| + |blank|
    ensures At(s, Skip(s, MorePairs(s, k).end), RBRACE)
    decreases members, 1
  {
    hide Pair, MorePairs, Holds, Skip, PairText, LegalMember, MembersTail, Blank, MemberTree, D.Stops;
    D.MorePairsForm(s, k);
    MembersStart(s, p, members, blank);
    if members == [] {
      D.PairStarts(s, Skip(s, k));
    } else {
      var start := p + |members[0].blank|;
      var next := start + |PairText(members[0])|;
      FirstMemberParses(s, p, members, blank);
      MembersParse(s, next, Pair(s, start).end, members[1..], blank);
    }
  }

  lemma {:induction false} ObjectTextParses(s: seq<byte>, i: nat, members: seq<Member>, blank: seq<byte>)
    requires LegalMembers(members) && Blank(blank) && Holds(s, i, Print(ObjectText(members, blank)))
    ensures Value(s, i) == Match(Tree(ObjectText(members, blank), i), i + |Print(ObjectText(members, blank))|)
    decreases members, 2
  {
    hide Value, Pair, MorePairs, ObjectRule, Holds, Skip, PairText, LegalMember, Blank, MemberTree, D.Stops,
         FromRange, NewSpan, LegalMembers;
    var p := i + 1;
    HoldsParts(s, i, [LBRACE], MembersTail(members, blank));
    HeldByte(s, i, [LBRACE], 0);
    SpanHolds(s, i, Print(ObjectText(members, blank)));
    ValueByFirstByte(s, i);
    MembersStart(s, p, members, blank);
    if members == [] {
      EmptyObjectForm(s, i);
    } else {
      hide MembersTail;
      FirstMemberParses(s, p, members, blank);
      LegalRest(members);
      var start := p + |members[0].blank|;
      var k := Pair(s, start).end;
      MembersParse(s, start + |PairText(members[0])|, k, members[1..], blank);
      ObjectForm(s, i, MemberTree(members[0], start), k, MorePairs(s, k).node, MorePairs(s, k).end);
    }
  }

  lemma LegalRest(members: seq<Member>)
    requires LegalMembers(members) && members != []
    ensures LegalMembers(members[1..])
  {
  }

  // ----- Whatever parses is a text

  lemma HoldsJoin(s: seq<byte>, pos: nat, a: seq<byte>, b: seq<byte>)
    requires Holds(s, pos, a) && Holds(s, pos + |a|, b)
    ensures Holds(s, pos, a + b)
  {
    assert s[pos..pos + |a| + |b|] == s[pos..pos + |a|] + s[pos + |a|..pos + |a| + |b|];
  }

  lemma HoldsSlice(s: seq<byte>, lo: nat, hi: nat)
    requires lo <= hi <= |s|
    ensures Holds(s, lo, s[lo..hi])
  {
  }

  lemma HoldsOne(s: seq<byte>, i: nat, b: byte)
    requires At(s, i, b)
    ensures Holds(s, i, [b])
  {
  }

  /** The whitespace between two positions. */
  lemma BlankOf(s: seq<byte>, p: nat) returns (blank: seq<byte>)
    requires p <= |s|
    ensures Blank(blank) && Holds(s, p, blank) && p + |blank| == Skip(s, p)
  {
    hide Run;
    blank := s[p..Skip(s, p)];
  }

  lemma {:induction false} PiecesOf(s: seq<byte>, a: nat) returns (pieces: seq<Piece>)
    requires a <= |s|
    ensures forall k :: 0 <= k < |pieces| ==> LegalPiece(pieces[k])
    ensures Holds(s, a, PiecesText(pieces)) && a + |PiecesText(pieces)| == StringEnd(s, a)
    decreases |s| - a
  {
    hide StringEnd, EscapeEnd, LegalPiece, PiecesText, PieceText, Holds;
    D.StringEndStep(s, a);
    if (a < |s| && s[a] != QUOTE && s[a] != BACKSLASH) || EscapeEnd(s, a).Some? {
      var p := PieceOf(s, a);
      var rest := PiecesOf(s, a + |PieceText(p)|);
      pieces := [p] + rest;
      PiecesCons(pieces);
      HoldsJoin(s, a, PieceText(p), PiecesText(rest));
    } else {
      pieces := [];
      NoPieces();
      HoldsSlice(s, a, a);
    }
  }

  lemma PieceOf(s: seq<byte>, a: nat) returns (p: Piece)
    requires (a < |s| && s[a] != QUOTE && s[a] != BACKSLASH) || EscapeEnd(s, a).Some?
    ensures LegalPiece(p) && Holds(s, a, PieceText(p)) && |PieceText(p)| > 0
    ensures if a < |s| && s[a] != QUOTE && s[a] != BACKSLASH then |PieceText(p)| == 1
            else EscapeEnd(s, a) == Some(a + |PieceText(p)|)
  {
    if a < |s| && s[a] != QUOTE && s[a] != BACKSLASH {
      p := Plain(s[a]);
    } else {
      p := Escaped(s[a + 1..EscapeEnd(s, a).value]);
      assert [BACKSLASH] + s[a + 1..EscapeEnd(s, a).value] == s[a..EscapeEnd(s, a).value];
    }
  }

  lemma QuotedOf(s: seq<byte>, i: nat) returns (q: Quoted)
    requires QuotedString(s, i).Match?
    ensures LegalQuoted(q) && Holds(s, i, QuotedText(q))
    ensures QuotedString(s, i) == Match(QuotedSpan(q, i), i + |QuotedText(q)|)
  {
    hide QuotedString, StringEnd, Skip, PiecesText, Holds, LegalPiece, PieceText;
    var a, b := D.StringInverse(s, i);
    D.StringForm(s, i, a, b);
    var blank := BlankOf(s, i + 1);
    var pieces := PiecesOf(s, a);
    hide FromRange, NewSpan, IsWhitespace;
    q := Quoted(blank, pieces);
    HoldsOne(s, i, QUOTE);
    HoldsOne(s, b, QUOTE);
    HoldsJoin(s, a, PiecesText(pieces), [QUOTE]);
    HoldsJoin(s, i + 1, blank, PiecesText(pieces) + [QUOTE]);
    HoldsJoin(s, i, [QUOTE], blank + (PiecesText(pieces) + [QUOTE]));
    SpanHolds(s, a, PiecesText(pieces));
    if pieces != [] { FirstPiece(s, a, pieces); }
  }

  lemma FirstPiece(s: seq<byte>, a: nat, pieces: seq<Piece>)
    requires pieces != [] && Holds(s, a, PiecesText(pieces))
    ensures a < |s| && (pieces[0].Plain? ==> pieces[0].b == s[a])
  {
    HeldByte(s, a, PiecesText(pieces), 0);
  }

  lemma DigitsOf(s: seq<byte>, i: nat) returns (digits: seq<byte>)
    requires DigitsEnd(s, i).Some?
    ensures Digits(digits) && Holds(s, i, digits) && DigitsEnd(s, i) == Some(i + |digits|) && digits[0] == s[i]
    ensures !DigitAt(s, i + |digits|)
  {
    hide Run;
    digits := s[i..DigitsEnd(s, i).value];
  }

  /** Where the digits of an exponent begin. */
  function ExponentDigits(s: seq<byte>, i: nat): nat {
    if At(s, i + 1, PLUS) || At(s, i + 1, MINUS) then i + 2 else i + 1
  }

  lemma ExponentForm(s: seq<byte>, i: nat)
    requires ExpEnd(s, i).Some?
    ensures At(s, i, UPPER_E) || At(s, i, LOWER_E)
    ensures DigitsEnd(s, ExponentDigits(s, i)) == ExpEnd(s, i)
  {
    hide DigitsEnd;
  }

  lemma SignIs(s: seq<byte>, i: nat)
    requires i + 1 <= ExponentDigits(s, i) <= |s|
    ensures var sign := s[i + 1..ExponentDigits(s, i)]; sign == [] || sign == [PLUS] || sign == [MINUS]
  {
  }

  lemma ExponentHere(s: seq<byte>, i: nat) returns (x: Exponent)
    requires ExpEnd(s, i).Some?
    ensures LegalExponent(x) && Holds(s, i, ExponentText(Some(x))) && ExpEnd(s, i) == Some(i + |ExponentText(Some(x))|)
    ensures !DigitAt(s, i + |ExponentText(Some(x))|)
  {
    hide DigitsEnd, ExpEnd, Holds, Digits, DigitAt, ExponentDigits, ExponentText, LegalExponent, At;
    ExponentForm(s, i);
    var p := ExponentDigits(s, i);
    var digits := DigitsOf(s, p);
    DigitsFollowLetter(s, i);
    SignIs(s, i);
    x := Exponent(s[i], s[i + 1..p], digits);
    ExponentParts(s, i, x);
    HoldsSlice(s, i + 1, p);
    HoldsJoin(s, i + 1, x.sign, digits);
    HoldsOne(s, i, x.letter);
    HoldsJoin(s, i, [x.letter], x.sign + digits);
  }

  lemma ExponentParts(s: seq<byte>, i: nat, x: Exponent)
    requires (At(s, i, UPPER_E) || At(s, i, LOWER_E)) && x.letter == s[i] && Digits(x.digits)
    requires x.sign == [] || x.sign == [PLUS] || x.sign == [MINUS]
    ensures LegalExponent(x) && ExponentText(Some(x)) == [x.letter] + (x.sign + x.digits)
  {
    hide Digits;
  }

  lemma DigitsFollowLetter(s: seq<byte>, i: nat)
    requires DigitsEnd(s, ExponentDigits(s, i)).Some?
    ensures i + 1 <= ExponentDigits(s, i) < |s|
  {
    hide Run;
  }

  lemma ExponentOf(s: seq<byte>, i: nat) returns (e: Option<Exponent>)
    requires i <= |s|
    ensures e.Some? ==> LegalExponent(e.value)
    ensures Holds(s, i, ExponentText(e)) && (e.Some? <==> ExpEnd(s, i).Some?)
    ensures i + |ExponentText(e)| == match ExpEnd(s, i) case Some(end) => end case None => i
    ensures if e.Some? then !DigitAt(s, i + |ExponentText(e)|) else !ExponentAt(s, i) && ExponentText(e) == []
  {
    hide ExpEnd, ExponentAt, LegalExponent, DigitAt;
    ExponentIsAt(s, i);
    e := None;
    if ExpEnd(s, i).Some? {
      var x := ExponentHere(s, i);
      e := Some(x);
    }
  }

  /** The fraction proper, before any exponent. */
  lemma FractionDigitsOf(s: seq<byte>, i: nat) returns (fraction: Option<seq<byte>>)
    requires i <= |s|
    ensures fraction.Some? ==> Digits(fraction.value)
    ensures Holds(s, i, FractionText(fraction)) && i + |FractionText(fraction)| <= |s|
    ensures var f := i + |FractionText(fraction)|;
      && FractionEnd(s, i) == (match ExpEnd(s, f) case Some(e) => e case None => f)
      && if fraction.Some? then !DigitAt(s, f) else f == i && !(At(s, i, DOT) && DigitAt(s, i + 1))
  {
    hide DigitsEnd, ExpEnd, Digits, DigitAt, Holds;
    DigitsAt(s, i + 1);
    HoldsSlice(s, i, i);
    assert s[i..i] == [];
    fraction := None;
    if At(s, i, DOT) && DigitsEnd(s, i + 1).Some? {
      var digits := DigitsOf(s, i + 1);
      fraction := Some(digits);
      HoldsOne(s, i, DOT);
      HoldsJoin(s, i, [DOT], digits);
      HoldsInBounds(s, i + 1, digits);
    }
  }

  lemma FractionOf(s: seq<byte>, i: nat) returns (fraction: Option<seq<byte>>, e: Option<Exponent>)
    requires i <= |s|
    ensures (fraction.Some? ==> Digits(fraction.value)) && (e.Some? ==> LegalExponent(e.value))
    ensures Holds(s, i, FractionText(fraction) + ExponentText(e))
    ensures i + |FractionText(fraction)| + |ExponentText(e)| == FractionEnd(s, i)
    ensures FractionEnds(fraction, e, s, FractionEnd(s, i))
    ensures fraction.None? && e.None? ==> FractionEnd(s, i) == i
  {
    hide ExpEnd, FractionEnd, Digits, DigitAt, ExponentAt, LegalExponent, Holds, ExponentText, FractionText, At;
    fraction := FractionDigitsOf(s, i);
    e := ExponentOf(s, i + |FractionText(fraction)|);
    HoldsJoin(s, i, FractionText(fraction), ExponentText(e));
  }

  lemma SignHeld(s: seq<byte>, i: nat)
    ensures i <= |s| ==> Holds(s, i, SignText(At(s, i, MINUS)))
  {
  }

  lemma NumeralOf(s: seq<byte>, i: nat) returns (n: Numeral)
    requires NumberEnd(s, i).Some?
    ensures LegalNumeral(n) && Holds(s, i, NumeralText(n)) && NumberEnd(s, i) == Some(i + |NumeralText(n)|)
    ensures NumeralEnds(n, s, i + |NumeralText(n)|)
  {
    hide DigitsEnd, FractionEnd, FractionText, ExponentText, LegalExponent, Holds, FractionEnds, DigitAt;
    var minus := At(s, i, MINUS);
    var p := if minus then i + 1 else i;
    SignHeld(s, i);
    var whole: seq<byte> := [ZERO];
    if At(s, p, ZERO) { HoldsOne(s, p, ZERO); } else { whole := DigitsOf(s, p); }
    var fraction, e := FractionOf(s, p + |whole|);
    n := Numeral(minus, whole, fraction, e);
    HoldsJoin(s, p, whole, FractionText(fraction) + ExponentText(e));
    HoldsJoin(s, i, SignText(minus), whole + (FractionText(fraction) + ExponentText(e)));
  }

  /** `t` is the text of what parses at `i`. */
  ghost predicate IsTextAt(s: seq<byte>, i: nat, t: Text, r: Parsed<JsonValue>) {
    && Legal(t) && Holds(s, i, Print(t)) && TextEnds(t, s, i + |Print(t)|)
    && r == Match(Tree(t, i), i + |Print(t)|)
  }

  /** Whatever parses at a position is a text of the grammar there, and the tree is that text's. */
  lemma {:induction false} TextOf(s: seq<byte>, i: nat) returns (t: Text)
    requires Value(s, i).Match?
    ensures IsTextAt(s, i, t, Value(s, i))
    decreases |s| - i, 1
  {
    hide Value, ObjectRule, ArrayRule, StringRule, NumberRule, RedactedRule, BoolRule, NullRule, IsTextAt;
    ValueByFirstByte(s, i);
    if At(s, i, LBRACE) {
      t := ObjectTextOf(s, i);
    } else if At(s, i, LBRACKET) {
      t := ArrayTextOf(s, i);
    } else {
      t := LeafTextOf(s, i);
    }
  }

  lemma LeafTextOf(s: seq<byte>, i: nat) returns (t: Text)
    requires Value(s, i).Match? && !At(s, i, LBRACE) && !At(s, i, LBRACKET)
    ensures IsTextAt(s, i, t, Value(s, i))
  {
    hide Value, ObjectRule, ArrayRule, QuotedString, NumberEnd, Run, NewSpan, SpanOf, NumeralText, LegalNumeral,
         QuotedText, QuotedSpan, LegalQuoted, Holds;
    ValueByFirstByte(s, i);
    if At(s, i, QUOTE) {
      var q := QuotedOf(s, i);
      t := StringText(q);
    } else {
      var e := Value(s, i).end;
      if At(s, i, STAR) {
        t := StarsText(e - i);
        StarsHeld(s, i, e);
      } else if At(s, i, TRUE[0]) || At(s, i, FALSE[0]) {
        t := BoolText(HasLiteral(s, i, TRUE));
        LiteralsHeld(s, i);
      } else if At(s, i, NULL[0]) {
        t := NullText;
        LiteralsHeld(s, i);
      } else {
        var n := NumeralOf(s, i);
        t := NumberText(n);
      }
      SpanHolds(s, i, Print(t));
    }
  }

  lemma StarsHeld(s: seq<byte>, i: nat, e: nat)
    requires RedactedRule(s, i).Match? && e == RedactedRule(s, i).end
    ensures i < e && Holds(s, i, Stars(e - i))
  {
    hide Run;
    assert s[i..e] == Stars(e - i);
  }

  lemma LiteralsHeld(s: seq<byte>, i: nat)
    ensures HasLiteral(s, i, TRUE) ==> Holds(s, i, TRUE)
    ensures HasLiteral(s, i, FALSE) ==> Holds(s, i, FALSE)
    ensures HasLiteral(s, i, NULL) ==> Holds(s, i, NULL)
  {
  }

  lemma {:induction false} ArrayTextOf(s: seq<byte>, i: nat) returns (t: Text)
    requires ArrayRule(s, i).Match?
    ensures IsTextAt(s, i, t, ArrayRule(s, i))
    decreases |s| - i, 0
  {
    hide ArrayRule, Value, MoreValues, Skip, Holds, NewSpan, ItemText, LegalItem, IsTextAt, Blank;
    var first, k, rest, e := ArrayInverse(s, i);
    if EmptyArray(s, i) {
      t := EmptyArrayTextOf(s, i);
    } else {
      ArrayForm(s, i, first, k, rest, e);
      var blank := BlankOf(s, i + 1);
      var value := TextOf(s, i + 1 + |blank|);
      var after, items := MoreItemsOf(s, k);
      var item := Item(blank, value, after);
      ItemIs(s, i + 1, item);
      t := ArrayText([item] + items);
      ItemsAreText(s, i, item, items);
    }
  }

  lemma EmptyArrayTextOf(s: seq<byte>, i: nat) returns (t: Text)
    requires EmptyArray(s, i)
    ensures IsTextAt(s, i, t, ArrayRule(s, i))
  {
    hide ArrayRule, Skip, Holds, NewSpan, SpanOf, Blank;
    EmptyArrayForm(s, i);
    var blank := BlankOf(s, i + 1);
    HoldsOne(s, i, LBRACKET);
    HoldsOne(s, i + 1 + |blank|, RBRACKET);
    HoldsJoin(s, i + 1, blank, [RBRACKET]);
    HoldsJoin(s, i, [LBRACKET], blank + [RBRACKET]);
    t := EmptyArrayText(blank);
    SpanHolds(s, i, Print(t));
  }

  lemma {:induction false} ItemsCons(item: Item, items: seq<Item>)
    ensures ItemsText([item] + items) == ItemText(item) + (item.after + MoreItemsText(items))
    ensures LegalItem(item) && LegalItems(items) ==> LegalItems([item] + items)
    ensures forall pos: nat ::
      ItemTrees([item] + items, pos)
      == [ItemTree(item, pos)] + ItemTrees(items, pos + |ItemText(item)| + |item.after| + 1)
  {
    hide ItemText, LegalItem, ItemTree, MoreItemsText;
    assert ([item] + items)[1..] == items;
  }

  /** Items between brackets are an array. */
  lemma {:induction false} ItemsAreText(s: seq<byte>, i: nat, item: Item, items: seq<Item>)
    requires LegalItem(item) && LegalItems(items) && At(s, i, LBRACKET)
    requires var k := i + 1 + |ItemText(item)|; var more := item.after + MoreItemsText(items);
      && Holds(s, i + 1, ItemText(item)) && Holds(s, k, more) && At(s, k + |more|, RBRACKET)
      && var values := [ItemTree(item, i + 1)] + ItemTrees(items, k + |item.after| + 1);
         ArrayRule(s, i) == Match(Array(NewSpan(s, i, k + |more| + 1), values), k + |more| + 1)
    ensures IsTextAt(s, i, ArrayText([item] + items), ArrayRule(s, i))
  {
    hide ArrayRule, Holds, NewSpan, SpanOf, MoreItemsText, ItemsText, ItemTrees, LegalItems, ItemText, LegalItem,
         ItemTree;
    var more := item.after + MoreItemsText(items);
    ItemsCons(item, items);
    HoldsJoin(s, i + 1, ItemText(item), more);
    HoldsOne(s, i, LBRACKET);
    HoldsOne(s, i + 1 + |ItemText(item)| + |more|, RBRACKET);
    HoldsJoin(s, i + 1, ItemText(item) + more, [RBRACKET]);
    HoldsJoin(s, i, [LBRACKET], (ItemText(item) + more) + [RBRACKET]);
    SpanHolds(s, i, Print(ArrayText([item] + items)));
  }

  lemma IsTextForm(s: seq<byte>, i: nat, t: Text, r: Parsed<JsonValue>)
    ensures IsTextAt(s, i, t, r) <==>
      && Legal(t) && Holds(s, i, Print(t)) && TextEnds(t, s, i + |Print(t)|)
      && r == Match(Tree(t, i), i + |Print(t)|)
  {
    hide Legal, Holds, Print, Tree, TextEnds;
  }

  /** A value with its whitespace is an item. */
  lemma ItemIs(s: seq<byte>, p: nat, item: Item)
    requires Blank(item.blank) && Blank(item.after) && Holds(s, p, item.blank)
    requires IsTextAt(s, p + |item.blank|, item.value, Value(s, p + |item.blank|))
    ensures LegalItem(item) && Holds(s, p, ItemText(item))
    ensures Value(s, p + |item.blank|) == Match(ItemTree(item, p), p + |ItemText(item)|)
  {
    hide Value, Holds, Blank, Legal, Print, Tree;
    HoldsJoin(s, p, item.blank, Print(item.value));
  }

  lemma {:induction false} MoreItemsOf(s: seq<byte>, k: nat) returns (after: seq<byte>, rest: seq<Item>)
    requires k <= |s| && At(s, Skip(s, MoreValues(s, k).end), RBRACKET)
    ensures Blank(after) && LegalItems(rest) && Holds(s, k, after + MoreItemsText(rest))
    ensures k + |after| + |MoreItemsText(rest)| == Skip(s, MoreValues(s, k).end)
    ensures MoreValues(s, k).node == ItemTrees(rest, k + |after| + 1)
    decreases |s| - k, 2
  {
    hide Value, MoreValues, Skip, Holds, MoreItemsText, ItemText, LegalItem, LegalItems, ItemTree, ItemTrees, Blank,
         Legal, Print, Tree, TextEnds;
    NoItems();
    D.MoreValuesForm(s, k);
    after := BlankOf(s, k);
    rest := [];
    NoMoreItems();
    assert after + [] == after;
    if At(s, Skip(s, k), COMMA) {
      var j := k + |after| + 1;
      var v := Value(s, Skip(s, j));
      if v.Match? {
        var blank := BlankOf(s, j);
        var value := TextOf(s, j + |blank|);
        var after', items := MoreItemsOf(s, v.end);
        var item := Item(blank, value, after');
        ItemIs(s, j, item);
        rest := [item] + items;
        ItemsCons(item, items);
        LeadingItem(s, k, after, item, items);
      }
    }
  }

  /** An item in front of others, behind a comma. */
  lemma {:induction false} LeadingItem(s: seq<byte>, k: nat, after: seq<byte>, item: Item, items: seq<Item>)
    requires Holds(s, k, after) && At(s, k + |after|, COMMA)
    requires var j := k + |after| + 1;
      Holds(s, j, ItemText(item)) && Holds(s, j + |ItemText(item)|, item.after + MoreItemsText(items))
    ensures Holds(s, k, after + MoreItemsText([item] + items))
    ensures |MoreItemsText([item] + items)| == 1 + |ItemText(item)| + |item.after| + |MoreItemsText(items)|
  {
    hide Holds, ItemText, MoreItemsText, ItemTrees;
    MoreItemsCons([item] + items);
    assert ([item] + items)[1..] == items;
    var more := item.after + MoreItemsText(items);
    HoldsJoin(s, k + |after| + 1, ItemText(item), more);
    HoldsOne(s, k + |after|, COMMA);
    HoldsJoin(s, k + |after|, [COMMA], ItemText(item) + more);
    HoldsJoin(s, k, after, MoreItemsText([item] + items));
  }

  lemma {:induction false} MemberOf(s: seq<byte>, start: nat) returns (m: Member)
    requires start <= |s| && Pair(s, start).Match?
    ensures LegalMember(m) && Holds(s, start, PairText(m)) && |PairText(m)| > 0
    ensures FollowsMember(s, start, start + |PairText(m)|, m)
    decreases |s| - start, 1
  {
    hide Pair, Value, QuotedString, Skip, Holds, QuotedText, QuotedSpan, LegalQuoted, Legal, Print, Tree, NewSpan,
         SpanOf, PairSpanEnd, PairEnd, Blank, TextEnds, At;
    var key, k, value, e := PairInverse(s, start);
    PairForm(s, start, key, k, value, e);
    var q := QuotedOf(s, start);
    var beforeColon := BlankOf(s, k);
    var c := k + |beforeColon|;
    HoldsOne(s, c, COLON);
    var afterColon := BlankOf(s, c + 1);
    var t := TextOf(s, c + 1 + |afterColon|);
    var comma := CommaOf(s, e);
    m := Member([], q, beforeColon, afterColon, t, comma);
    NoBlank();
    HoldsJoin(s, c, [COLON], afterColon);
    HoldsJoin(s, k, beforeColon, [COLON] + afterColon);
    HoldsJoin(s, start, QuotedText(q), beforeColon + ([COLON] + afterColon));
    HoldsJoin(s, c + 1 + |afterColon|, Print(t), CommaText(comma));
    HoldsJoin(s, start, PairHead(m), Print(t) + CommaText(comma));
    SpanHolds(s, start, PairText(m));
    HoldsInBounds(s, start, PairText(m));
    SkipTwice(s, e);
  }

  lemma NoBlank()
    ensures Blank([])
  {
  }

  /** The comma of a pair whose value ends at `e`. */
  lemma CommaOf(s: seq<byte>, e: nat) returns (comma: Option<seq<byte>>)
    requires e <= |s|
    ensures comma.Some? ==> Blank(comma.value)
    ensures Holds(s, e, CommaText(comma)) && PairSpanEnd(s, e) == e + |CommaText(comma)|
    ensures PairEnd(s, e) == if comma.Some? then e + |CommaText(comma)| else Skip(s, e)
    ensures comma.None? ==> CommaText(comma) == []
  {
    hide Skip, Holds, Blank;
    comma := None;
    HoldsSlice(s, e, e);
    if At(s, Skip(s, e), COMMA) {
      var blank := BlankOf(s, e);
      HoldsOne(s, e + |blank|, COMMA);
      HoldsJoin(s, e, blank, [COMMA]);
      comma := Some(blank);
    } else {
      assert s[e..e] == [];
    }
  }

  lemma {:induction false} MembersOf(s: seq<byte>, p: nat, k: nat) returns (members: seq<Member>, blank: seq<byte>)
    requires p <= k <= |s| && Skip(s, k) == Skip(s, p) && At(s, Skip(s, MorePairs(s, k).end), RBRACE)
    ensures LegalMembers(members) && Blank(blank) && Holds(s, p, MembersTail(members, blank))
    ensures MorePairs(s, k).node == MemberTrees(members, p)
    ensures p + |MembersText(members)| + |blank| == Skip(s, MorePairs(s, k).end)
    decreases |s| - k, 2
  {
    hide Pair, MorePairs, Skip, Holds, PairText, LegalMember, LegalMembers, Blank, MemberTree, MemberTrees, MembersTail;
    D.MorePairsForm(s, k);
    blank := BlankOf(s, p);
    if Pair(s, Skip(s, k)).Match? {
      var start := Skip(s, k);
      var lead := blank;
      var m0 := MemberOf(s, start);
      var m := m0.(blank := lead);
      SameMember(m0, m, start);
      var next := start + |PairText(m)|;
      var rest: seq<Member>;
      rest, blank := MembersOf(s, next, Pair(s, start).end);
      members := [m] + rest;
      LeadingMember(s, p, m, rest, blank);
    } else {
      members := [];
      NoMembers(blank);
      HoldsOne(s, p + |blank|, RBRACE);
      HoldsJoin(s, p, blank, [RBRACE]);
    }
  }

  /** The whitespace before a member is no part of its pair. */
  lemma SameMember(m0: Member, m: Member, start: nat)
    requires m == m0.(blank := m.blank) && LegalMember(m0) && Blank(m.blank)
    ensures LegalMember(m) && PairText(m) == PairText(m0) && MemberTree(m, start) == MemberTree(m0, start)
  {
    hide QuotedText, Print, Tree, Legal, LegalQuoted, QuotedSpan, SpanOf;
  }

  lemma {:induction false} ObjectTextOf(s: seq<byte>, i: nat) returns (t: Text)
    requires ObjectRule(s, i).Match?
    ensures IsTextAt(s, i, t, ObjectRule(s, i))
    decreases |s| - i, 0
  {
    hide ObjectRule, Pair, MorePairs, Skip, Holds, NewSpan, PairText, LegalMember, LegalMembers, MemberTree,
         MemberTrees, Blank, MembersTail, IsTextAt;
    var first, k, rest, e := ObjectInverse(s, i);
    var lead := BlankOf(s, i + 1);
    NoMembers(lead);
    if EmptyObject(s, i) {
      EmptyObjectForm(s, i);
      HoldsOne(s, i + 1 + |lead|, RBRACE);
      HoldsJoin(s, i + 1, lead, [RBRACE]);
      t := ObjectText([], lead);
      MembersAreText(s, i, [], lead);
    } else {
      ObjectForm(s, i, first, k, rest, e);
      var start := i + 1 + |lead|;
      var m0 := MemberOf(s, start);
      var m := m0.(blank := lead);
      SameMember(m0, m, start);
      var members, blank := MembersOf(s, start + |PairText(m)|, k);
      LeadingMember(s, i + 1, m, members, blank);
      t := ObjectText([m] + members, blank);
      MembersAreText(s, i, [m] + members, blank);
    }
  }

  lemma NoMembers(blank: seq<byte>)
    ensures LegalMembers([]) && MembersTail([], blank) == blank + [RBRACE] && MembersText([]) == []
    ensures forall pos :: MemberTrees([], pos) == []
  {
  }

  /** A member in front of others. */
  lemma {:induction false} LeadingMember(s: seq<byte>, p: nat, m: Member, rest: seq<Member>, blank: seq<byte>)
    requires LegalMember(m) && LegalMembers(rest) && Holds(s, p, m.blank)
    requires var start := p + |m.blank|;
      Holds(s, start, PairText(m)) && Holds(s, start + |PairText(m)|, MembersTail(rest, blank))
    ensures LegalMembers([m] + rest) && Holds(s, p, MembersTail([m] + rest, blank))
    ensures |MembersText([m] + rest)| == |m.blank| + |PairText(m)| + |MembersText(rest)|
    ensures var start := p + |m.blank|;
      MemberTrees([m] + rest, p) == [MemberTree(m, start)] + MemberTrees(rest, start + |PairText(m)|)
  {
    hide Holds, PairText, LegalMember, MemberTree, MembersTail;
    assert ([m] + rest)[1..] == rest;
    MembersTailCons([m] + rest, blank);
    HoldsJoin(s, p + |m.blank|, PairText(m), MembersTail(rest, blank));
    HoldsJoin(s, p, m.blank, PairText(m) + MembersTail(rest, blank));
  }

  /** Members between braces are an object. */
  lemma MembersAreText(s: seq<byte>, i: nat, members: seq<Member>, blank: seq<byte>)
    requires LegalMembers(members) && Blank(blank) && At(s, i, LBRACE) && Holds(s, i + 1, MembersTail(members, blank))
    requires var end := i + 1 + |MembersText(members)| + |blank| + 1;
      end <= |s| && ObjectRule(s, i) == Match(Object(NewSpan(s, i, end), MemberTrees(members, i + 1)), end)
    ensures IsTextAt(s, i, ObjectText(members, blank), ObjectRule(s, i))
  {
    hide ObjectRule, Holds, NewSpan, SpanOf, MembersText, LegalMembers, MemberTrees, Blank;
    HoldsOne(s, i, LBRACE);
    HoldsJoin(s, i, [LBRACE], MembersTail(members, blank));
    SpanHolds(s, i, Print(ObjectText(members, blank)));
  }

  /**
   The parser accepts exactly the texts of the grammar: a source parses to a tree when, and only when, it
   begins with a text whose tree that is and nothing behind the text prolongs it.
   */
  lemma ParsesExactlyTexts(src: seq<byte>, v: JsonValue)
    ensures ParsesTo(src, v) <==> exists t: Text :: IsTextOf(t, src, v)
  {
    hide Value, Legal, Print, Tree, Holds, IsTextAt, TextEnds;
    if ParsesTo(src, v) {
      var t := TextOf(src, 0);
      IsTextForm(src, 0, t, Value(src, 0));
      assert IsTextOf(t, src, v);
    }
    if t: Text :| IsTextOf(t, src, v) {
      TextParses(src, 0, t);
    }
  }

  ghost predicate ParsesTo(src: seq<byte>, v: JsonValue) { Parse(src) == Some(v) }

  ghost predicate IsTextOf(t: Text, src: seq<byte>, v: JsonValue) {
    Legal(t) && Holds(src, 0, Print(t)) && TextEnds(t, src, |Print(t)|) && Tree(t, 0) == v
  }

  /** What begins with a text that parses to an object or an array parses to the same. */
  lemma LongerSourceParses(first: seq<byte>, src: seq<byte>)
    requires first <= src && Parse(first).Some? && Parse(first).value.Container()
    ensures Parse(src) == Parse(first)
  {
    hide Parse, Legal, Print, Tree, Holds, TextEnds;
    var v := Parse(first).value;
    ParsesExactlyTexts(first, v);
    var t: Text :| IsTextOf(t, first, v);
    PrefixHolds(first, src, Print(t));
    ContainerEnds(t, src);
    ParsesExactlyTexts(src, v);
    assert IsTextOf(t, src, v);
  }

  lemma PrefixHolds(first: seq<byte>, src: seq<byte>, bytes: seq<byte>)
    requires first <= src && Holds(first, 0, bytes)
    ensures Holds(src, 0, bytes)
  {
    assert src[..|bytes|] == first[..|bytes|];
  }

  lemma ContainerEnds(t: Text, s: seq<byte>)
    ensures Tree(t, 0).Container() ==> TextEnds(t, s, |Print(t)|)
  {
  }

  /** A container stands wholly in any part that holds its text: the part parses exactly when it does. */
  lemma ShorterSourceParses(first: seq<byte>, src: seq<byte>)
    requires first <= src && first != [] && Parse(src).Some? && Parse(src).value.Container()
    ensures Parse(first).Some? <==> |Parse(src).value.span.data| <= |first|
  {
    hide Parse, Value;
    var v := Parse(src).value;
    JsonPlacement.ContainerStandsAlone(src);
    var root := v.span.data;
    assert root == src[..|root|];
    if |root| <= |first| {
      assert root <= first;
      LongerSourceParses(root, first);
    }
    if Parse(first).Some? {
      BracketsMakeContainers(first);
      BracketsMakeContainers(src);
      assert first[0] == src[0];
      LongerSourceParses(first, src);
      JsonPlacement.ContainerStandsAlone(first);
    }
  }

  lemma BracketsMakeContainers(s: seq<byte>)
    requires Parse(s).Some?
    ensures s != [] && (Parse(s).value.Container() <==> s[0] == LBRACE || s[0] == LBRACKET)
  {
    hide Value, ObjectRule, ArrayRule, StringRule, NumberRule, BoolRule, NullRule, RedactedRule;
    ValueByFirstByte(s, 0);
    RuleKinds(s);
    if !At(s, 0, LBRACE) && !At(s, 0, LBRACKET) { JsonLocality.LeafRules(s, 0); }
  }

  lemma RuleKinds(s: seq<byte>)
    ensures ObjectRule(s, 0).Match? ==> ObjectRule(s, 0).node.Object?
    ensures ArrayRule(s, 0).Match? ==> ArrayRule(s, 0).node.Array?
  {
    hide Value, Pair, MorePairs, MoreValues, Skip;
  }
}
