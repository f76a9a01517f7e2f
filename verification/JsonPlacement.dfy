/** A JSON text inside a larger source: what shifting its tree to where it stands gets right. */
module JsonPlacement {
  import opened RangeSets
  import opened Wire
  import opened JsonTree
  import opened JsonParser
  import JsonNesting
  import JsonOffset
  import JsonLocality

  // ----- Shifting keeps a tree well nested

  lemma ShiftedInside(s: set<nat>, n: nat, lo: nat, hi: nat)
    requires Inside(s, lo, hi)
    ensures Inside(Shifted(s, n), lo + n, hi + n)
  {
  }

  lemma ShiftedBefore(a: set<nat>, b: set<nat>, n: nat)
    requires Before(a, b)
    ensures Before(Shifted(a, n), Shifted(b, n))
  {
  }

  lemma ShiftedSubset(a: set<nat>, b: set<nat>, n: nat)
    requires a <= b
    ensures Shifted(a, n) <= Shifted(b, n)
  {
    forall x | x in a ensures x + n in Shifted(b, n) {}
  }

  lemma {:induction false} OffsetValuesAt(values: seq<JsonValue>, n: nat)
    ensures |OffsetValues(values, n)| == |values|
    ensures forall k :: 0 <= k < |values| ==> OffsetValues(values, n)[k] == Offset(values[k], n)
    decreases values
  {
    hide Offset;
    if values != [] { OffsetValuesAt(values[1..], n); }
  }

  lemma {:induction false} OffsetPairsAt(pairs: seq<KeyValue>, n: nat)
    ensures |OffsetPairs(pairs, n)| == |pairs|
    ensures forall k :: 0 <= k < |pairs| ==> OffsetPairs(pairs, n)[k] == OffsetPair(pairs[k], n)
    decreases pairs
  {
    hide OffsetPair;
    if pairs != [] { OffsetPairsAt(pairs[1..], n); }
  }

  lemma ShiftLength(rs: RangeSet, n: nat)
    ensures |ShiftRight(rs, n)| == |rs|
  {
    if rs != [] { ShiftLength(rs[1..], n); }
  }

  /** A well-nested tree stays well nested wherever it is moved. */
  lemma {:induction false} OffsetKeepsNesting(v: JsonValue, n: nat)
    requires WellNested(v)
    ensures WellNested(Offset(v, n))
    decreases v
  {
    hide ValuesNested, PairsNested, ShiftRight, OffsetValues, OffsetPairs, Shifted;
    ShiftLength(v.span.indices, n);
    match v
    case Array(span, values) =>
      JsonOffset.OneRangeShifts(span, n);
      OffsetKeepsValuesNested(values, n, span.indices[0].start + 1, span.indices[0].end - 1);
    case Object(span, pairs) =>
      JsonOffset.OneRangeShifts(span, n);
      OffsetKeepsPairsNested(pairs, n, span.indices[0].start + 1, span.indices[0].end - 1);
    case _ =>
  }

  lemma {:induction false} OffsetKeepsValuesNested(values: seq<JsonValue>, n: nat, lo: nat, hi: nat)
    requires ValuesNested(values, lo, hi)
    ensures ValuesNested(OffsetValues(values, n), lo + n, hi + n)
    decreases values
  {
    hide ShiftRight, OffsetValues, WellNested, Shifted, Inside, Before, Offset;
    OffsetValuesAt(values, n);
    var moved := OffsetValues(values, n);
    forall k | 0 <= k < |values|
      ensures WellNested(moved[k]) && Inside(Indices(moved[k].span.indices), lo + n, hi + n)
    {
      OffsetKeepsNesting(values[k], n);
      JsonOffset.OffsetMovesSpan(values[k], n);
      ShiftedInside(Indices(values[k].span.indices), n, lo, hi);
    }
    forall j, k | 0 <= j < k < |values| ensures Before(Indices(moved[j].span.indices), Indices(moved[k].span.indices)) {
      JsonOffset.OffsetMovesSpan(values[j], n);
      JsonOffset.OffsetMovesSpan(values[k], n);
      ShiftedBefore(Indices(values[j].span.indices), Indices(values[k].span.indices), n);
    }
  }

  lemma {:induction false} OffsetKeepsPairsNested(pairs: seq<KeyValue>, n: nat, lo: nat, hi: nat)
    requires PairsNested(pairs, lo, hi)
    ensures PairsNested(OffsetPairs(pairs, n), lo + n, hi + n)
    decreases pairs
  {
    hide ShiftRight, OffsetPairs, PairNested, Shifted, Inside, Before, Offset;
    OffsetPairsAt(pairs, n);
    var moved := OffsetPairs(pairs, n);
    forall k | 0 <= k < |pairs| ensures PairNested(moved[k]) && Inside(Indices(moved[k].span.indices), lo + n, hi + n) {
      OffsetKeepsPairNested(pairs[k], n);
      ShiftedInside(Indices(pairs[k].span.indices), n, lo, hi);
    }
    forall j, k | 0 <= j < k < |pairs| ensures Before(Indices(moved[j].span.indices), Indices(moved[k].span.indices)) {
      ShiftedBefore(Indices(pairs[j].span.indices), Indices(pairs[k].span.indices), n);
    }
  }

  lemma {:induction false} OffsetKeepsPairNested(kv: KeyValue, n: nat)
    requires PairNested(kv)
    ensures PairNested(OffsetPair(kv, n))
    decreases kv
  {
    hide ShiftRight, WellNested, Shifted, Before, Offset;
    OffsetKeepsNesting(kv.value, n);
    JsonOffset.OffsetMovesSpan(kv.value, n);
    ShiftLength(kv.span.indices, n);
    ShiftedSubset(Indices(kv.key.indices), Indices(kv.span.indices), n);
    ShiftedSubset(Indices(kv.value.span.indices), Indices(kv.span.indices), n);
    ShiftedBefore(Indices(kv.key.indices), Indices(kv.value.span.indices), n);
  }

  // ----- Shifting to where the text stands keeps a tree faithful

  lemma ShiftCons(rs: RangeSet, n: nat)
    requires rs != []
    ensures var moved := ShiftRight(rs, n);
      |moved| == |rs| && moved[0] == Range(rs[0].start + n, rs[0].end + n) && moved[1..] == ShiftRight(rs[1..], n)
  {
    ShiftLength(rs, n);
  }

  /** Reading a set of ranges, first range first. */
  lemma ReadCons(data: seq<byte>, rs: RangeSet)
    requires rs != []
    ensures InBounds(rs, |data|) <==> rs[0].end <= |data| && InBounds(rs[1..], |data|)
    ensures InBounds(rs, |data|) ==> IndexRanges(data, rs) == data[rs[0].start..rs[0].end] + IndexRanges(data, rs[1..])
  {
    if InBounds(rs, |data|) { InBoundsTail(rs, |data|); }
  }

  lemma NothingToRead(src: seq<byte>, part: seq<byte>, n: nat)
    ensures ShiftRight([], n) == [] && InBounds([], |src|) && InBounds([], |part|)
    ensures IndexRanges(src, []) == IndexRanges(part, [])
  {
  }

  lemma SliceOfSlice(src: seq<byte>, part: seq<byte>, n: nat, lo: nat, hi: nat)
    requires n + |part| <= |src| && src[n..n + |part|] == part && lo <= hi <= |part|
    ensures src[lo + n..hi + n] == part[lo..hi]
  {
    forall k | 0 <= k < hi - lo ensures src[lo + n..hi + n][k] == part[lo..hi][k] {
      assert src[n..n + |part|][lo + k] == src[n + lo + k];
    }
  }

  lemma {:induction false} ShiftReads(src: seq<byte>, part: seq<byte>, n: nat, rs: RangeSet)
    requires n + |part| <= |src| && src[n..n + |part|] == part && InBounds(rs, |part|)
    ensures InBounds(ShiftRight(rs, n), |src|)
    ensures IndexRanges(src, ShiftRight(rs, n)) == IndexRanges(part, rs)
  {
    hide ShiftRight, IndexRanges, InBounds, Indices;
    if rs == [] {
      NothingToRead(src, part, n);
    } else {
      ReadCons(part, rs);
      ShiftReads(src, part, n, rs[1..]);
      ShiftCons(rs, n);
      ReadCons(src, ShiftRight(rs, n));
      SliceOfSlice(src, part, n, rs[0].start, rs[0].end);
    }
  }

  lemma ShiftedSpanReads(src: seq<byte>, part: seq<byte>, n: nat, span: Span)
    requires n + |part| <= |src| && src[n..n + |part|] == part && Reads(part, span)
    ensures Reads(src, OffsetSpan(span, n))
  {
    ShiftReads(src, part, n, span.indices);
  }

  /** A tree that is faithful to a text stays so where that text stands in a larger source. */
  lemma {:induction false} OffsetIsFaithful(src: seq<byte>, part: seq<byte>, n: nat, v: JsonValue)
    requires n + |part| <= |src| && src[n..n + |part|] == part && Faithful(part, v)
    ensures Faithful(src, Offset(v, n))
    decreases v
  {
    hide Reads, OffsetSpan, OffsetValues, OffsetPairs, OffsetPair;
    ShiftedSpanReads(src, part, n, v.span);
    match v
    case Array(_, values) =>
      OffsetValuesAt(values, n);
      forall k | 0 <= k < |values| ensures Faithful(src, OffsetValues(values, n)[k]) {
        OffsetIsFaithful(src, part, n, values[k]);
      }
    case Object(_, pairs) =>
      OffsetPairsAt(pairs, n);
      forall k | 0 <= k < |pairs| ensures FaithfulPair(src, OffsetPairs(pairs, n)[k]) {
        assert FaithfulPair(part, pairs[k]);
        OffsetPairIsFaithful(src, part, n, pairs[k]);
      }
    case _ =>
  }

  lemma {:induction false} OffsetPairIsFaithful(src: seq<byte>, part: seq<byte>, n: nat, kv: KeyValue)
    requires n + |part| <= |src| && src[n..n + |part|] == part && FaithfulPair(part, kv)
    ensures FaithfulPair(src, OffsetPair(kv, n))
    decreases kv
  {
    hide Reads, OffsetSpan;
    ShiftedSpanReads(src, part, n, kv.span);
    ShiftedSpanReads(src, part, n, kv.key);
    OffsetIsFaithful(src, part, n, kv.value);
  }

  /** A parsed container spans its source from the first byte on, and parses again from its own data. */
  lemma ContainerStandsAlone(part: seq<byte>)
    requires Parse(part).Some? && Parse(part).value.Container()
    ensures var v := Parse(part).value;
      && |v.span.data| <= |part|
      && v.span == NewSpan(part, 0, |v.span.data|)
      && Parse(v.span.data) == Some(v)
  {
    hide Value;
    var v := Parse(part).value;
    JsonLocality.ValueSpan(part, 0);
    JsonLocality.ParsingIsLocal(part, v);
    assert v in Nodes(v);
    JsonOffset.OffsetAdds(Parse(v.span.data).value, 0, 0);
  }

  /**
   Every node of a parsed text points at its data after a shift exactly when the root does. So a caller
   has one comparison to make.
   */
  lemma PlacedIffRootIs(src: seq<byte>, part: seq<byte>, n: nat)
    requires Parse(part).Some?
    ensures Faithful(src, Offset(Parse(part).value, n)) <==> Reads(src, OffsetSpan(Parse(part).value.span, n))
  {
    hide Value, Reads, Parse, OffsetSpan;
    var v := Parse(part).value;
    JsonOffset.OffsetMovesSpan(v, n);
    if v.Container() && Reads(src, OffsetSpan(v.span, n)) {
      ContainerStandsAlone(part);
      var root := v.span.data;
      JsonNesting.ParsedTreeNested(root);
      RootIsPlaced(src, part, n, |root|);
      OffsetIsFaithful(src, root, n, v);
    }
  }

  lemma OneRangeInBounds(lo: nat, hi: nat, n: nat)
    requires lo < hi
    ensures InBounds(FromRange(lo, hi), n) <==> hi <= n
  {
  }

  lemma RootIsPlaced(src: seq<byte>, part: seq<byte>, n: nat, e: nat)
    requires 0 < e <= |part| && Reads(src, OffsetSpan(NewSpan(part, 0, e), n))
    ensures n + e <= |src| && src[n..n + e] == part[..e]
  {
    hide ShiftRight, IndexRanges, FromRange, Indices;
    ShiftFromRange(0, e, n);
    OneRangeInBounds(n, n + e, |src|);
    IndexOneRange(src, n, n + e);
  }
}
