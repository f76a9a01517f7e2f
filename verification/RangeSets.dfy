/** Sets of indices kept as sorted, non-empty, disjoint and non-adjacent half-open ranges. */
module RangeSets {

  datatype Range = Range(start: nat, end: nat) {
    predicate Has(x: nat) { start <= x < end }
  }

  datatype Option<+T> = None | Some(value: T)

  /** The shape every index set is kept in, so that equal sets are equal values. */
  predicate Canonical(rs: seq<Range>) {
    rs == [] || (rs[0].start < rs[0].end && StartsAfter(rs[1..], rs[0].end) && Canonical(rs[1..]))
  }

  /** The first range, if there is one, leaves a gap after `bound`. */
  predicate StartsAfter(rs: seq<Range>, bound: nat) {
    rs != [] ==> bound < rs[0].start
  }

  type RangeSet = rs: seq<Range> | Canonical(rs) witness []

  ghost function RangeIndices(r: Range): set<nat> {
    set x: nat | r.start <= x < r.end && r.Has(x)
  }

  /** The set of indices a sequence of ranges stands for. */
  ghost function Indices(rs: seq<Range>): set<nat> {
    if rs == [] then {} else RangeIndices(rs[0]) + Indices(rs[1..])
  }

  lemma {:induction false} IndicesMembership(rs: seq<Range>, x: nat)
    ensures x in Indices(rs) <==> exists k :: 0 <= k < |rs| && rs[k].Has(x)
  {
    if rs != [] {
      IndicesMembership(rs[1..], x);
      if k :| 0 <= k < |rs[1..]| && rs[1..][k].Has(x) {
        assert rs[k + 1] == rs[1..][k];
      }
      if k :| 0 <= k < |rs| && rs[k].Has(x) && k != 0 {
        assert rs[1..][k - 1] == rs[k];
      }
    }
  }

  /** Every index of a canonical set lies above whatever its first range starts above. */
  lemma {:induction false} IndicesAbove(rs: RangeSet, bound: nat)
    requires StartsAfter(rs, bound)
    ensures forall x :: x in Indices(rs) ==> bound < x
  {
    if rs != [] { IndicesAbove(rs[1..], rs[0].end); }
  }

  /** One range before all those of a set. */
  function Prepend(r: Range, rest: RangeSet): (rs: RangeSet)
    requires r.start < r.end && StartsAfter(rest, r.end)
    ensures rs == [r] + rest
    ensures Indices(rs) == RangeIndices(r) + Indices(rest)
  {
    var rs := [r] + rest;
    assert rs[1..] == rest;
    rs
  }

  /** The single-range set `lo..hi`, empty when the range is. */
  function FromRange(lo: nat, hi: nat): (rs: RangeSet)
    ensures Indices(rs) == RangeIndices(Range(lo, hi))
  {
    if lo < hi then Prepend(Range(lo, hi), []) else []
  }

  /** The range covering two ranges that overlap or touch. */
  function Join(r: Range, q: Range): (joined: Range)
    requires r.start < r.end && q.start < q.end
    requires r.start <= q.end && q.start <= r.end
    ensures RangeIndices(joined) == RangeIndices(r) + RangeIndices(q)
    ensures joined.start == if r.start < q.start then r.start else q.start
    ensures joined.start < joined.end
  {
    Range(
      if r.start < q.start then r.start else q.start,
      if r.end < q.end then q.end else r.end)
  }

  /** Adds one non-empty range, merging every range it touches. */
  function Insert(a: RangeSet, r: Range): (rs: RangeSet)
    requires r.start < r.end
    ensures Indices(rs) == Indices(a) + RangeIndices(r)
    ensures forall bound: nat :: StartsAfter(a, bound) && bound < r.start ==> StartsAfter(rs, bound)
  {
    if a == [] then FromRange(r.start, r.end)
    else if a[0].end < r.start then Prepend(a[0], Insert(a[1..], r))
    else if r.end < a[0].start then Prepend(r, a)
    else Insert(a[1..], Join(r, a[0]))
  }

  function Union(a: RangeSet, b: RangeSet): (rs: RangeSet)
    ensures Indices(rs) == Indices(a) + Indices(b)
    decreases |b|
  {
    if b == [] then a else Union(Insert(a, b[0]), b[1..])
  }

  /** A range set built from any list of ranges, in any order, overlapping or empty. */
  function FromRanges(ranges: seq<Range>): (rs: RangeSet)
    ensures Indices(rs) == Indices(ranges)
  {
    if ranges == [] then []
    else
      var rest := FromRanges(ranges[1..]);
      if ranges[0].start < ranges[0].end then Insert(rest, ranges[0]) else rest
  }

  function Difference(a: RangeSet, b: RangeSet): (rs: RangeSet)
    ensures Indices(rs) == Indices(a) - Indices(b)
    ensures forall bound: nat :: StartsAfter(a, bound) ==> StartsAfter(rs, bound)
    decreases |a| + |b|, 1
  {
    if a == [] || b == [] then a
    else if b[0].end <= a[0].start then DifferencePast(a, b)
    else if a[0].end <= b[0].start then
      IndicesAbove(b[1..], b[0].end);
      Prepend(a[0], Difference(a[1..], b))
    else DifferenceOverlap(a, b)
  }

  /** The first range removed ends before the first range kept. */
  function DifferencePast(a: RangeSet, b: RangeSet): (rs: RangeSet)
    requires a != [] && b != [] && b[0].end <= a[0].start
    ensures Indices(rs) == Indices(a) - Indices(b)
    ensures forall bound: nat :: StartsAfter(a, bound) ==> StartsAfter(rs, bound)
    decreases |a| + |b|, 0
  {
    IndicesAbove(a[1..], a[0].end);
    Difference(a, b[1..])
  }

  /** The two first ranges overlap: what sticks out on the left is kept, the rest goes on. */
  function DifferenceOverlap(a: RangeSet, b: RangeSet): (rs: RangeSet)
    requires a != [] && b != []
    requires a[0].start < b[0].end && b[0].start < a[0].end
    ensures Indices(rs) == Indices(a) - Indices(b)
    ensures forall bound: nat :: StartsAfter(a, bound) ==> StartsAfter(rs, bound)
    decreases |a| + |b|, 0
  {
    var x, y := a[0], b[0];
    IndicesAbove(a[1..], x.end);
    IndicesAbove(b[1..], y.end);
    var tail: RangeSet :=
      if y.end < x.end then Difference(Prepend(Range(y.end, x.end), a[1..]), b[1..])
      else Difference(a[1..], b);
    assert StartsAfter(tail, y.start);
    if x.start < y.start then Prepend(Range(x.start, y.start), tail) else tail
  }

  /** `shift_right`: every index moved up by `n`. */
  function ShiftRight(rs: RangeSet, n: nat): (moved: RangeSet)
    ensures Indices(moved) == Shifted(Indices(rs), n)
    ensures forall bound: nat :: StartsAfter(rs, bound) ==> StartsAfter(moved, bound + n)
  {
    if rs == [] then []
    else
      ShiftedUnion(RangeIndices(rs[0]), Indices(rs[1..]), n);
      ShiftedRange(rs[0], n);
      Prepend(Range(rs[0].start + n, rs[0].end + n), ShiftRight(rs[1..], n))
  }

  /** The set `s` moved up by `n`. */
  ghost function Shifted(s: set<nat>, n: nat): set<nat> {
    set x | x in s :: x + n
  }

  lemma ShiftedUnion(a: set<nat>, b: set<nat>, n: nat)
    ensures Shifted(a + b, n) == Shifted(a, n) + Shifted(b, n)
  {
  }

  lemma ShiftedRange(r: Range, n: nat)
    ensures Shifted(RangeIndices(r), n) == RangeIndices(Range(r.start + n, r.end + n))
  {
    forall x | x in RangeIndices(Range(r.start + n, r.end + n)) ensures x in Shifted(RangeIndices(r), n) {
      assert x - n in RangeIndices(r);
    }
  }

  lemma ShiftFromRange(lo: nat, hi: nat, n: nat)
    ensures ShiftRight(FromRange(lo, hi), n) == FromRange(lo + n, hi + n)
  {
    ShiftedRange(Range(lo, hi), n);
    CanonicalUnique(ShiftRight(FromRange(lo, hi), n), FromRange(lo + n, hi + n));
  }

  /** The number of indices, counted range by range. */
  function Len(rs: RangeSet): nat {
    if rs == [] then 0 else rs[0].end - rs[0].start + Len(rs[1..])
  }

  lemma {:induction false} RangeCardinality(lo: nat, hi: nat)
    requires lo <= hi
    ensures |RangeIndices(Range(lo, hi))| == hi - lo
    decreases hi - lo
  {
    if lo == hi {
      assert RangeIndices(Range(lo, hi)) == {};
    } else {
      RangeCardinality(lo + 1, hi);
      assert RangeIndices(Range(lo, hi)) == {lo} + RangeIndices(Range(lo + 1, hi));
    }
  }

  lemma {:induction false} LenIsCardinality(rs: RangeSet)
    ensures Len(rs) == |Indices(rs)|
  {
    if rs != [] {
      LenIsCardinality(rs[1..]);
      RangeCardinality(rs[0].start, rs[0].end);
      IndicesAbove(rs[1..], rs[0].end);
    }
  }

  /** A first range holds the least index, and the index after it is missing. */
  lemma FirstRange(rs: RangeSet)
    requires rs != []
    ensures forall x :: x in Indices(rs) ==> rs[0].start <= x
    ensures RangeIndices(rs[0]) <= Indices(rs)
    ensures rs[0].start in RangeIndices(rs[0])
    ensures rs[0].end !in Indices(rs)
    ensures Indices(rs[1..]) == Indices(rs) - RangeIndices(rs[0])
  {
    IndicesAbove(rs[1..], rs[0].end);
  }

  /** An unbroken run of indices lies in a set exactly when it lies in one of its ranges. */
  lemma {:induction false} RunInSet(rs: RangeSet, lo: nat, hi: nat)
    requires lo < hi
    ensures RangeIndices(Range(lo, hi)) <= Indices(rs) <==>
              exists k :: 0 <= k < |rs| && rs[k].start <= lo && hi <= rs[k].end
  {
    var run := RangeIndices(Range(lo, hi));
    assert lo in run;
    if rs != [] {
      FirstRange(rs);
      RunInSet(rs[1..], lo, hi);
      assert forall k :: 0 <= k < |rs| - 1 ==> rs[1..][k] == rs[k + 1];
      if run <= Indices(rs) {
        RunInFirstOrRest(rs, lo, hi);
        if run <= Indices(rs[1..]) {
          var k :| 0 <= k < |rs[1..]| && rs[1..][k].start <= lo && hi <= rs[1..][k].end;
          assert rs[k + 1].start <= lo && hi <= rs[k + 1].end;
        }
      }
      if k :| 0 <= k < |rs| && rs[k].start <= lo && hi <= rs[k].end {
        if k > 0 { assert rs[1..][k - 1] == rs[k]; } else { assert run <= RangeIndices(rs[0]); }
      }
    }
  }

  lemma RunInFirstOrRest(rs: RangeSet, lo: nat, hi: nat)
    requires rs != [] && lo < hi && RangeIndices(Range(lo, hi)) <= Indices(rs)
    ensures (rs[0].start <= lo && hi <= rs[0].end) || RangeIndices(Range(lo, hi)) <= Indices(rs[1..])
  {
    FirstRange(rs);
    IndicesAbove(rs[1..], rs[0].end);
    var run := RangeIndices(Range(lo, hi));
    assert lo in run;
    assert rs[0].end in run <==> lo <= rs[0].end < hi;
  }

  lemma NonEmpty(rs: RangeSet)
    ensures rs != [] ==> rs[0].start in Indices(rs)
  {
  }

  /** Two range sets with the same indices are the same value. */
  lemma {:induction false} CanonicalUnique(a: RangeSet, b: RangeSet)
    requires Indices(a) == Indices(b)
    ensures a == b
  {
    if a == [] || b == [] {
      NonEmpty(a);
      NonEmpty(b);
    } else {
      FirstRange(a);
      FirstRange(b);
      assert a[0].end !in RangeIndices(b[0]) && b[0].end !in RangeIndices(a[0]);
      CanonicalUnique(a[1..], b[1..]);
    }
  }

  /** `end()`: one past the greatest index, if there is one. */
  function End(rs: RangeSet): Option<nat> {
    if rs == [] then None else Some(rs[|rs| - 1].end)
  }

  /** Every index is below `n`; the code tests it as `end().unwrap_or(0) <= n`. */
  predicate InBounds(rs: RangeSet, n: nat) {
    match End(rs) case None => true case Some(e) => e <= n
  }

  lemma {:induction false} InBoundsTail(rs: RangeSet, n: nat)
    requires rs != [] && InBounds(rs, n)
    ensures InBounds(rs[1..], n) && rs[0].end <= n
  {
    if |rs| > 1 {
      assert rs[1..] != [];
      InBoundsTail(rs[1..], n);
    }
  }

  lemma {:induction false} InBoundsBelow(rs: RangeSet, n: nat)
    requires InBounds(rs, n)
    ensures forall x :: x in Indices(rs) ==> x < n
  {
    if rs != [] {
      InBoundsTail(rs, n);
      InBoundsBelow(rs[1..], n);
    }
  }

  lemma {:induction false} LastIndex(rs: RangeSet)
    requires rs != []
    ensures rs[|rs| - 1].end > 0 && rs[|rs| - 1].end - 1 in Indices(rs)
  {
    if |rs| == 1 {
      assert rs[0].end - 1 in RangeIndices(rs[0]);
    } else {
      LastIndex(rs[1..]);
    }
  }

  lemma InBoundsMeansBelow(rs: RangeSet, n: nat)
    ensures InBounds(rs, n) <==> forall x :: x in Indices(rs) ==> x < n
  {
    if InBounds(rs, n) { InBoundsBelow(rs, n); } else { LastIndex(rs); }
  }

  /** `index_ranges`: the data at the indices of `rs`, in order. */
  function IndexRanges<T>(data: seq<T>, rs: RangeSet): (part: seq<T>)
    requires InBounds(rs, |data|)
    ensures |part| == Len(rs)
    decreases |rs|
  {
    if rs == [] then []
    else
      InBoundsTail(rs, |data|);
      data[rs[0].start..rs[0].end] + IndexRanges(data, rs[1..])
  }

  lemma IndexOneRange<T>(data: seq<T>, lo: nat, hi: nat)
    requires lo <= hi <= |data|
    ensures InBounds(FromRange(lo, hi), |data|)
    ensures IndexRanges(data, FromRange(lo, hi)) == data[lo..hi]
  {
    if lo < hi {
      assert FromRange(lo, hi)[1..] == [];
      assert IndexRanges(data, FromRange(lo, hi)) == data[lo..hi] + [];
    }
  }
}
