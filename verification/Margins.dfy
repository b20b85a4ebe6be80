/** Link-map margins: how much of each memory area the segments occupy, and the
    conservation law between used bytes, interior gaps and the free tail. */
module Margins {
  import opened Bytes

  datatype Area = Area(name: string, alias: Option<string>, start: nat, size: nat, file: bool) {
    function End(): int {
      start + size - 1
    }
  }

  datatype Segment = Segment(name: string, start: int, end: int, size: nat)

  /** The map parser rejects a row whose start and end disagree with its size. */
  predicate Parsed(segs: seq<Segment>) {
    forall i :: 0 <= i < |segs| && segs[i].size != 0 ==> segs[i].end == segs[i].start + segs[i].size - 1
  }

  datatype Span = Span(lo: int, hi: int)
  datatype Gap = Gap(length: int, at: int)

  datatype Row = Row(
    region: string, start: int, end: int, size: nat, overflow: int, empty: bool, used: int,
    lastUsed: Option<int>, tail: Option<int>, hole: Option<int>, holeAt: Option<int>)

  // --------------------------------------------------------- specification --

  predicate SegmentCovers(s: Segment, x: int) {
    s.size != 0 && s.start <= x <= s.end
  }

  predicate Covers(segs: seq<Segment>, x: int) {
    exists i :: 0 <= i < |segs| && SegmentCovers(segs[i], x)
  }

  /** The addresses of the area that some non-empty segment occupies. */
  ghost function Covered(a: Area, segs: seq<Segment>): set<int> {
    set x | a.start <= x <= a.End() && Covers(segs, x)
  }

  ghost predicate FreeRun(a: Area, cov: set<int>, at: int, n: int) {
    a.start <= at && forall x :: at <= x < at + n ==> x !in cov
  }

  predicate Overflows(a: Area, s: Segment) {
    s.size != 0 && a.start <= s.start <= a.End() && s.end > a.End()
  }

  predicate IsOverflow(a: Area, segs: seq<Segment>, v: int) {
    && v >= 0
    && (forall i :: 0 <= i < |segs| && Overflows(a, segs[i]) ==> segs[i].end - a.End() <= v)
    && (v > 0 ==> exists i :: 0 <= i < |segs| && Overflows(a, segs[i]) && segs[i].end - a.End() == v)
  }

  /** The reported hole is the longest free run below the last used address, the
      highest one among equals. */
  ghost predicate IsHole(a: Area, cov: set<int>, last: int, hole: int, at: Option<int>) {
    && hole >= 0 && (hole == 0 <==> at.None?)
    && (at.Some? ==> FreeRun(a, cov, at.value, hole) && at.value + hole <= last)
    && forall q, n :: n > 0 && FreeRun(a, cov, q, n) && q + n <= last ==>
      at.Some? && (n < hole || (n == hole && q <= at.value))
  }

  /** Everything a row says, as a function of the covered addresses alone. */
  ghost predicate Measures(a: Area, cov: set<int>, row: Row) {
    && row.region == a.name && row.start == a.start && row.end == a.End() && row.size == a.size
    && row.used == |cov| && (row.empty <==> cov == {})
    && (if row.empty then row.lastUsed.None? && row.tail.None? && row.hole.None? && row.holeAt.None?
        else
          && row.lastUsed.Some? && row.lastUsed.value in cov
          && (forall x :: x in cov ==> x <= row.lastUsed.value)
          && row.tail == Some(a.End() - row.lastUsed.value)
          && row.hole.Some? && IsHole(a, cov, row.lastUsed.value, row.hole.value, row.holeAt))
  }

  /** `g` lists the free space below `last`: free runs in ascending order, none
      overlapping, that between them hold every free address. */
  ghost predicate InteriorGaps(a: Area, cov: set<int>, last: int, g: seq<Gap>) {
    && (forall i :: 0 <= i < |g| ==>
        FreeRun(a, cov, g[i].at, g[i].length) && g[i].at + g[i].length <= last)
    && Disjoint(g)
    && (forall x :: a.start <= x <= last && x !in cov ==> InGaps(g, x))
  }

  predicate Disjoint(g: seq<Gap>) {
    && (forall i :: 0 <= i < |g| ==> g[i].length >= 0)
    && (forall i, j :: 0 <= i < j < |g| ==> g[i].at + g[i].length <= g[j].at)
  }

  predicate InGaps(g: seq<Gap>, x: int) {
    exists i :: 0 <= i < |g| && g[i].at <= x < g[i].at + g[i].length
  }

  function TotalGap(g: seq<Gap>): int {
    if g == [] then 0 else TotalGap(g[..|g| - 1]) + g[|g| - 1].length
  }

  /** Used bytes, all interior gaps and the tail make up the whole area. */
  ghost predicate Balances(a: Area, cov: set<int>, row: Row, g: seq<Gap>) {
    && row.lastUsed.Some? && row.tail.Some? && InteriorGaps(a, cov, row.lastUsed.value, g)
    && row.used + TotalGap(g) + row.tail.value == a.size
  }

  ghost predicate RowFor(a: Area, segs: seq<Segment>, row: Row) {
    && Measures(a, Covered(a, segs), row) && IsOverflow(a, segs, row.overflow)
    && (!row.empty ==> exists g :: Balances(a, Covered(a, segs), row, g))
  }

  /** The specification leaves no choice: two rows that meet it are equal. */
  lemma MeasuresUnique(a: Area, cov: set<int>, r1: Row, r2: Row)
    requires Measures(a, cov, r1) && Measures(a, cov, r2)
    ensures r1.(overflow := 0) == r2.(overflow := 0)
  {
    if !r1.empty {
      var last := r1.lastUsed.value;
      assert r2.lastUsed.value == last;
      HoleUnique(a, cov, last, r1.hole.value, r1.holeAt, r2.hole.value, r2.holeAt);
    }
  }

  lemma HoleUnique(a: Area, cov: set<int>, last: int, h1: int, at1: Option<int>, h2: int, at2: Option<int>)
    requires IsHole(a, cov, last, h1, at1) && IsHole(a, cov, last, h2, at2)
    ensures h1 == h2 && at1 == at2
  {
    if at1.Some? {
      assert FreeRun(a, cov, at1.value, h1);
    }
    if at2.Some? {
      assert FreeRun(a, cov, at2.value, h2);
    }
  }

  predicate SameSegments(s1: seq<Segment>, s2: seq<Segment>) {
    (forall i :: 0 <= i < |s1| ==> s1[i] in s2) && (forall i :: 0 <= i < |s2| ==> s2[i] in s1)
  }

  /** A row does not depend on the order or multiplicity of the segments. */
  lemma RowOrderFree(a: Area, s1: seq<Segment>, s2: seq<Segment>, r1: Row, r2: Row)
    requires SameSegments(s1, s2) && RowFor(a, s1, r1) && RowFor(a, s2, r2)
    ensures r1 == r2
  {
    assert Covered(a, s1) == Covered(a, s2) by {
      forall x
        ensures Covers(s1, x) <==> Covers(s2, x)
      {
        if i :| 0 <= i < |s1| && SegmentCovers(s1[i], x) { assert s1[i] in s2; }
        if i :| 0 <= i < |s2| && SegmentCovers(s2[i], x) { assert s2[i] in s1; }
      }
    }
    MeasuresUnique(a, Covered(a, s1), r1, r2);
    OverflowMono(a, s1, s2, r1.overflow, r2.overflow);
    OverflowMono(a, s2, s1, r2.overflow, r1.overflow);
  }

  lemma OverflowMono(a: Area, s1: seq<Segment>, s2: seq<Segment>, v1: int, v2: int)
    requires forall i :: 0 <= i < |s1| ==> s1[i] in s2
    requires IsOverflow(a, s1, v1) && IsOverflow(a, s2, v2)
    ensures v1 <= v2
  {
    if v1 > 0 {
      var i :| 0 <= i < |s1| && Overflows(a, s1[i]) && s1[i].end - a.End() == v1;
      assert s1[i] in s2;
    }
  }

  // ------------------------------------------------------------- algorithm --

  function Before(p: Span, q: Span): bool {
    p.lo < q.lo || (p.lo == q.lo && p.hi <= q.hi)
  }

  function Insert(p: Span, s: seq<Span>): seq<Span> {
    if s == [] || Before(p, s[0]) then [p] + s else [s[0]] + Insert(p, s[1..])
  }

  /** Python's `sorted` on pairs. */
  function Sort(s: seq<Span>): seq<Span> {
    if s == [] then [] else Insert(s[0], Sort(s[1..]))
  }

  predicate Ordered(s: seq<Span>) {
    forall i, j :: 0 <= i < j < |s| ==> Before(s[i], s[j])
  }

  lemma {:induction false} InsertPermutes(p: Span, s: seq<Span>)
    ensures multiset(Insert(p, s)) == multiset([p] + s)
  {
    if s != [] && !Before(p, s[0]) {
      InsertPermutes(p, s[1..]);
      assert s == [s[0]] + s[1..];
    }
  }

  lemma {:induction false} InsertOrders(p: Span, s: seq<Span>)
    requires Ordered(s)
    ensures Ordered(Insert(p, s))
    ensures forall r :: r in Insert(p, s) ==> r == p || r in s
  {
    if s != [] && !Before(p, s[0]) {
      InsertOrders(p, s[1..]);
      var t := Insert(p, s[1..]);
      forall i | 0 <= i < |t|
        ensures Before(s[0], t[i])
      {
        assert t[i] in t;
      }
    }
  }

  lemma {:induction false} SortOrders(s: seq<Span>)
    ensures Ordered(Sort(s)) && multiset(Sort(s)) == multiset(s)
  {
    if s != [] {
      SortOrders(s[1..]);
      InsertOrders(s[0], Sort(s[1..]));
      InsertPermutes(s[0], Sort(s[1..]));
      assert s == [s[0]] + s[1..];
    }
  }

  predicate InSpans(s: seq<Span>, x: int) {
    exists i :: 0 <= i < |s| && s[i].lo <= x <= s[i].hi
  }

  predicate Proper(s: seq<Span>) {
    forall i :: 0 <= i < |s| ==> s[i].lo <= s[i].hi
  }

  /** Disjoint, ascending, and with at least one address between neighbours. */
  predicate Separated(m: seq<Span>) {
    Proper(m) && forall i, j :: 0 <= i < j < |m| ==> m[i].hi + 1 < m[j].lo
  }

  /** Clip every non-empty segment that touches the area to the area. */
  method Clip(a: Area, segs: seq<Segment>) returns (spans: seq<Span>)
    requires a.size > 0 && Parsed(segs)
    ensures Proper(spans)
    ensures forall x :: InSpans(spans, x) <==> a.start <= x <= a.End() && Covers(segs, x)
  {
    spans := [];
    for i := 0 to |segs|
      invariant Proper(spans)
      invariant forall x :: InSpans(spans, x) <==> a.start <= x <= a.End() && Covers(segs[..i], x)
    {
      var s := segs[i];
      ghost var before := spans;
      if s.size != 0 && s.start <= a.End() && s.end >= a.start {
        spans := spans + [Span(Max(s.start, a.start), Min(s.end, a.End()))];
      }
      forall x
        ensures InSpans(spans, x) <==> a.start <= x <= a.End() && Covers(segs[..i + 1], x)
      {
        CoversOneMore(segs, i, x);
        if spans != before { InSpansOneMore(before, spans[|before|], x); }
      }
    }
    assert segs[..|segs|] == segs;
  }

  lemma CoversOneMore(segs: seq<Segment>, i: nat, x: int)
    requires i < |segs|
    ensures Covers(segs[..i + 1], x) <==> Covers(segs[..i], x) || SegmentCovers(segs[i], x)
  {
    var more := segs[..i + 1];
    assert more[i] == segs[i];
    if j :| 0 <= j < |segs[..i]| && SegmentCovers(segs[..i][j], x) { assert SegmentCovers(more[j], x); }
    if j :| 0 <= j < |more| && SegmentCovers(more[j], x) { assert j == i || more[j] == segs[..i][j]; }
  }

  lemma InSpansOneMore(s: seq<Span>, p: Span, x: int)
    ensures InSpans(s + [p], x) <==> InSpans(s, x) || p.lo <= x <= p.hi
  {
    var t := s + [p];
    assert t[|s|] == p;
    if j :| 0 <= j < |s| && s[j].lo <= x <= s[j].hi { assert t[j] == s[j]; }
    if j :| 0 <= j < |t| && t[j].lo <= x <= t[j].hi { assert j == |s| || t[j] == s[j]; }
  }

  lemma WidenLast(init: seq<Span>, last: Span, p: Span)
    requires Separated(init + [last]) && last.lo <= p.lo <= last.hi + 1 && p.lo <= p.hi
    ensures var wide := Span(last.lo, Max(last.hi, p.hi));
      && Separated(init + [wide])
      && forall x :: InSpans(init + [wide], x) <==> InSpans(init + [last], x) || p.lo <= x <= p.hi
  {
    var wide := Span(last.lo, Max(last.hi, p.hi));
    var was, now := init + [last], init + [wide];
    assert forall i :: 0 <= i < |init| ==> was[i] == now[i] == init[i];
    assert was[|init|] == last && now[|init|] == wide;
    forall x
      ensures InSpans(now, x) <==> InSpans(was, x) || p.lo <= x <= p.hi
    {
      InSpansOneMore(init, last, x);
      InSpansOneMore(init, wide, x);
    }
  }

  lemma AddLast(m: seq<Span>, p: Span)
    requires m != [] && Separated(m) && m[|m| - 1].hi + 1 < p.lo <= p.hi
    ensures Separated(m + [p])
    ensures forall x :: InSpans(m + [p], x) <==> InSpans(m, x) || p.lo <= x <= p.hi
  {
    forall x
      ensures InSpans(m + [p], x) <==> InSpans(m, x) || p.lo <= x <= p.hi
    {
      InSpansOneMore(m, p, x);
    }
    assert forall i :: 0 <= i < |m| ==> m[i].hi <= m[|m| - 1].hi;
  }

  /** Merge sorted spans, widening the last one while they touch. */
  method Merge(spans: seq<Span>) returns (merged: seq<Span>)
    requires spans != [] && Proper(spans) && Ordered(spans)
    ensures merged != [] && Separated(merged)
    ensures forall x :: InSpans(merged, x) <==> InSpans(spans, x)
  {
    hide InSpans;
    merged := [spans[0]];
    assert spans[..1] == [spans[0]];
    for i := 1 to |spans|
      invariant merged != [] && Separated(merged)
      invariant merged[|merged| - 1].lo <= spans[i - 1].lo
      invariant forall x :: InSpans(merged, x) <==> InSpans(spans[..i], x)
    {
      var p, k := spans[i], |merged| - 1;
      var last := merged[k];
      assert Before(spans[i - 1], p);
      assert spans[..i + 1] == spans[..i] + [p];
      ghost var was := merged;
      if p.lo <= last.hi + 1 {
        var wide := Span(last.lo, Max(last.hi, p.hi));
        assert was == was[..k] + [last];
        WidenLast(was[..k], last, p);
        merged := merged[k := wide];
        assert merged == was[..k] + [wide];
      } else {
        AddLast(merged, p);
        merged := merged + [p];
      }
      forall x
        ensures InSpans(merged, x) <==> InSpans(spans[..i + 1], x)
      {
        InSpansOneMore(spans[..i], p, x);
      }
    }
    assert spans[..|spans|] == spans;
  }

  function Used(m: seq<Span>): int {
    if m == [] then 0 else Used(m[..|m| - 1]) + m[|m| - 1].hi - m[|m| - 1].lo + 1
  }

  function Interval(lo: int, hi: int): (r: set<int>)
    requires lo <= hi + 1
    ensures |r| == hi - lo + 1 && forall x :: x in r <==> lo <= x <= hi
    decreases hi - lo + 1
  {
    if lo > hi then {} else Interval(lo, hi - 1) + {hi}
  }

  lemma LastSpan(m: seq<Span>, x: int)
    requires m != [] && Separated(m)
    ensures var last := m[|m| - 1];
      && (InSpans(m, x) <==> InSpans(m[..|m| - 1], x) || last.lo <= x <= last.hi)
      && !(InSpans(m[..|m| - 1], x) && last.lo <= x)
  {
    var k := |m| - 1;
    assert m == m[..k] + [m[k]];
    InSpansOneMore(m[..k], m[k], x);
    if i :| 0 <= i < k && m[..k][i].lo <= x <= m[..k][i].hi {
      assert m[i].hi + 1 < m[k].lo;
    }
  }

  /** `used` counts addresses: the merged spans cover each one once. */
  lemma {:induction false} UsedCounts(m: seq<Span>, cov: set<int>)
    requires Separated(m) && forall x :: x in cov <==> InSpans(m, x)
    ensures Used(m) == |cov|
  {
    if m == [] {
      forall x
        ensures x !in cov
      {
        assert !InSpans(m, x);
      }
      assert cov == {};
    } else {
      var k := |m| - 1;
      var top := Interval(m[k].lo, m[k].hi);
      forall x
        ensures x in cov - top <==> InSpans(m[..k], x)
        ensures x in top ==> x in cov
      {
        LastSpan(m, x);
      }
      UsedCounts(m[..k], cov - top);
      assert cov == (cov - top) + top;
    }
  }

  /** The gap before the first span, then one between each two neighbours. */
  predicate AreGaps(start: int, m: seq<Span>, g: seq<Gap>) {
    && |g| == |m| > 0 && g[0] == Gap(m[0].lo - start, start)
    && forall i :: 1 <= i < |m| ==> g[i] == Gap(m[i].lo - m[i - 1].hi - 1, m[i - 1].hi + 1)
  }

  method GapList(start: int, m: seq<Span>) returns (g: seq<Gap>)
    requires m != []
    ensures AreGaps(start, m, g)
  {
    g := [Gap(m[0].lo - start, start)];
    for i := 1 to |m|
      invariant |g| == i && AreGaps(start, m[..i], g)
    {
      g := g + [Gap(m[i].lo - m[i - 1].hi - 1, m[i - 1].hi + 1)];
    }
    assert m[..|m|] == m;
  }

  lemma {:induction false} GapsFill(start: int, m: seq<Span>, g: seq<Gap>)
    requires AreGaps(start, m, g)
    ensures Used(m) + TotalGap(g) == m[|m| - 1].hi - start + 1
  {
    var k := |m| - 1;
    if k > 0 {
      GapsFill(start, m[..k], g[..k]);
    } else {
      assert m[..0] == [] && g[..0] == [];
    }
  }

  predicate GapAtMost(p: Gap, q: Gap) {
    p.length < q.length || (p.length == q.length && p.at <= q.at)
  }

  /** Python's `max` on pairs. */
  method LargestGap(g: seq<Gap>) returns (best: Gap)
    requires g != []
    ensures best in g && forall i :: 0 <= i < |g| ==> GapAtMost(g[i], best)
  {
    best := g[0];
    for i := 1 to |g|
      invariant best in g && forall j :: 0 <= j < i ==> GapAtMost(g[j], best)
    {
      if !GapAtMost(g[i], best) { best := g[i]; }
    }
  }

  /** Every free run below the last used address lies inside one of the gaps. */
  lemma RunInsideGap(a: Area, m: seq<Span>, g: seq<Gap>, cov: set<int>, q: int, n: int) returns (i: nat)
    requires Separated(m) && AreGaps(a.start, m, g) && forall x :: x in cov <==> InSpans(m, x)
    requires n > 0 && FreeRun(a, cov, q, n) && q + n <= m[|m| - 1].hi
    ensures i < |g| && GapAtMost(Gap(n, q), g[i])
  {
    i := 0;
    while m[i].hi < q
      invariant i < |m| && (i > 0 ==> m[i - 1].hi < q)
      decreases |m| - i
    {
      i := i + 1;
    }
    assert q !in cov && !InSpans(m, q);
    assert q < m[i].lo;
    assert InSpans(m, m[i].lo) && m[i].lo in cov;
    assert q + n <= m[i].lo;
  }

  lemma GapIsFree(a: Area, m: seq<Span>, g: seq<Gap>, cov: set<int>, i: nat)
    requires Separated(m) && AreGaps(a.start, m, g) && forall x :: x in cov <==> InSpans(m, x)
    requires i < |g| && a.start <= m[0].lo
    ensures FreeRun(a, cov, g[i].at, g[i].length) && g[i].length >= 0
    ensures g[i].at + g[i].length <= m[|m| - 1].hi
  {
    forall x | g[i].at <= x < g[i].at + g[i].length
      ensures x !in cov
    {
      forall j | 0 <= j < |m|
        ensures !(m[j].lo <= x <= m[j].hi)
      {
        if j < i {
          assert m[j].hi <= m[i - 1].hi < x;
        } else {
          assert x < m[i].lo <= m[j].lo;
        }
      }
    }
    if i > 0 { assert m[0].lo <= m[i - 1].hi; }
  }

  /** The gaps of separated spans are the interior free space. */
  lemma GapsAreInterior(a: Area, m: seq<Span>, g: seq<Gap>, cov: set<int>)
    requires Separated(m) && AreGaps(a.start, m, g) && forall x :: x in cov <==> InSpans(m, x)
    requires a.start <= m[0].lo
    ensures InteriorGaps(a, cov, m[|m| - 1].hi, g)
  {
    var last := m[|m| - 1].hi;
    forall i | 0 <= i < |g|
      ensures g[i].length >= 0 && FreeRun(a, cov, g[i].at, g[i].length) && g[i].at + g[i].length <= last
    {
      GapIsFree(a, m, g, cov, i);
    }
    forall i, j | 0 <= i < j < |g|
      ensures g[i].at + g[i].length <= g[j].at
    {
      GapsAscend(a.start, m, g, i, j);
    }
    forall x | a.start <= x <= last && x !in cov
      ensures InGaps(g, x)
    {
      FreeIsInGap(a.start, m, g, x);
    }
  }

  lemma GapsAscend(start: int, m: seq<Span>, g: seq<Gap>, i: nat, j: nat)
    requires Separated(m) && AreGaps(start, m, g) && i < j < |g|
    ensures g[i].at + g[i].length <= g[j].at
  {
    assert Proper(m);
    assert i > 0 ==> g[i] == Gap(m[i].lo - m[i - 1].hi - 1, m[i - 1].hi + 1);
    assert g[j] == Gap(m[j].lo - m[j - 1].hi - 1, m[j - 1].hi + 1);
    assert i < j - 1 ==> m[i].hi + 1 < m[j - 1].lo <= m[j - 1].hi;
  }

  lemma FreeIsInGap(start: int, m: seq<Span>, g: seq<Gap>, x: int)
    requires Separated(m) && AreGaps(start, m, g) && start <= x <= m[|m| - 1].hi && !InSpans(m, x)
    ensures InGaps(g, x)
  {
    var i := 0;
    while m[i].hi < x
      invariant 0 <= i < |m| && (i > 0 ==> m[i - 1].hi < x)
      decreases |m| - i
    {
      i := i + 1;
    }
    assert x < m[i].lo;
    assert g[i].at <= x < g[i].at + g[i].length;
  }

  /** Disjoint ascending gaps count each of their addresses once. */
  lemma {:induction false} GapsCount(g: seq<Gap>, free: set<int>)
    requires Disjoint(g) && forall x :: x in free <==> InGaps(g, x)
    ensures TotalGap(g) == |free|
  {
    hide InGaps;
    if g == [] {
      forall x
        ensures x !in free
      {
        NoGaps(x);
      }
      assert free == {};
    } else {
      var k := |g| - 1;
      var top := Interval(g[k].at, g[k].at + g[k].length - 1);
      forall x
        ensures x in free - top <==> InGaps(g[..k], x)
        ensures x in top ==> x in free
      {
        LastGap(g, x);
      }
      GapsCount(g[..k], free - top);
      assert free == (free - top) + top;
    }
  }

  lemma NoGaps(x: int)
    ensures !InGaps([], x)
  {
  }

  lemma LastGap(g: seq<Gap>, x: int)
    requires g != [] && Disjoint(g)
    ensures var last := g[|g| - 1];
      && (InGaps(g, x) <==> InGaps(g[..|g| - 1], x) || last.at <= x < last.at + last.length)
      && !(InGaps(g[..|g| - 1], x) && last.at <= x)
  {
    var k := |g| - 1;
    if i :| 0 <= i < k && g[..k][i].at <= x < g[..k][i].at + g[..k][i].length {
      assert g[i] == g[..k][i] && g[i].at + g[i].length <= g[k].at;
    }
    if i :| 0 <= i < |g| && g[i].at <= x < g[i].at + g[i].length {
      assert i == k || g[..k][i] == g[i];
    }
  }

  /** The conservation law, for every list that describes the interior gaps: it
      follows from what a row says, however the row was computed. */
  lemma GapsBalance(a: Area, cov: set<int>, row: Row, g: seq<Gap>)
    requires Measures(a, cov, row) && !row.empty && forall x :: x in cov ==> a.start <= x <= a.End()
    requires InteriorGaps(a, cov, row.lastUsed.value, g)
    ensures Balances(a, cov, row, g)
  {
    var last := row.lastUsed.value;
    var whole := Interval(a.start, last);
    var free := whole - cov;
    forall x
      ensures x in free <==> InGaps(g, x)
    {
      if i :| 0 <= i < |g| && g[i].at <= x < g[i].at + g[i].length {
        assert FreeRun(a, cov, g[i].at, g[i].length);
      }
    }
    GapsCount(g, free);
    assert whole == free + cov && free !! cov;
  }

  method Overflow(a: Area, segs: seq<Segment>) returns (v: int)
    ensures IsOverflow(a, segs, v)
  {
    v := 0;
    for i := 0 to |segs|
      invariant v >= 0 && (forall j :: 0 <= j < i && Overflows(a, segs[j]) ==> segs[j].end - a.End() <= v)
      invariant v > 0 ==> exists j :: 0 <= j < i && Overflows(a, segs[j]) && segs[j].end - a.End() == v
    {
      var s := segs[i];
      if s.size != 0 && a.start <= s.start <= a.End() && s.end > a.End() {
        v := Max(v, s.end - a.End());
      }
    }
  }

  /** One row of the report, and all the interior gaps of which it shows the
      largest. */
  method MeasureArea(a: Area, segs: seq<Segment>) returns (row: Row, gaps: seq<Gap>)
    requires a.size > 0 && Parsed(segs)
    ensures RowFor(a, segs, row)
    ensures !row.empty ==> Balances(a, Covered(a, segs), row, gaps)
  {
    hide Parsed, Sort, Covers, InSpans, Separated, Measures, InteriorGaps, TotalGap, IsOverflow;
    var over := Overflow(a, segs);
    var clipped := Clip(a, segs);
    SortOrders(clipped);
    var spans := Sort(clipped);
    SortKeepsSpans(clipped);
    row := Row(a.name, a.start, a.End(), a.size, over, true, 0, None, None, None, None);
    ghost var cov := Covered(a, segs);
    if spans == [] {
      NothingCovered(a, clipped, cov, row);
      return row, [];
    }
    var merged := Merge(spans);
    row, gaps := Report(a, merged, over, cov);
    assert Balances(a, cov, row, gaps);
  }

  lemma NothingCovered(a: Area, spans: seq<Span>, cov: set<int>, row: Row)
    requires spans == [] && forall x :: x in cov <==> InSpans(spans, x)
    requires row.region == a.name && row.start == a.start && row.end == a.End() && row.size == a.size
    requires row.empty && row.used == 0 && row.lastUsed.None? && row.tail.None? && row.hole.None? && row.holeAt.None?
    ensures Measures(a, cov, row)
  {
    forall x
      ensures x !in cov
    {
      assert !InSpans(spans, x);
    }
    assert cov == {};
  }

  /** The row of an area whose covered addresses are those of `merged`. */
  method Report(a: Area, merged: seq<Span>, over: int, ghost cov: set<int>) returns (row: Row, gaps: seq<Gap>)
    requires merged != [] && Separated(merged) && forall x :: x in cov <==> InSpans(merged, x)
    requires forall x :: x in cov ==> a.start <= x <= a.End()
    ensures !row.empty && row.overflow == over && Measures(a, cov, row) && Balances(a, cov, row, gaps)
  {
    hide InSpans, Separated, IsHole, InteriorGaps, TotalGap, AreGaps, Used;
    gaps := GapList(a.start, merged);
    var hole := LargestGap(gaps);
    var last := merged[|merged| - 1].hi;
    row := Row(a.name, a.start, a.End(), a.size, over, false, Used(merged), Some(last), Some(a.End() - last),
               Some(hole.length), if hole.length != 0 then Some(hole.at) else None);
    UsedCounts(merged, cov);
    ReportsLast(a, merged, cov);
    FirstCovered(merged, cov);
    ReportsHole(a, merged, gaps, cov, hole);
    GapsAreInterior(a, merged, gaps, cov);
    GapsBalance(a, cov, row, gaps);
  }

  lemma FirstCovered(m: seq<Span>, cov: set<int>)
    requires m != [] && Separated(m) && forall x :: x in cov <==> InSpans(m, x)
    ensures m[0].lo in cov
  {
    assert InSpans(m, m[0].lo);
  }

  lemma SortMembers(s: seq<Span>, p: Span)
    ensures p in Sort(s) <==> p in s
    ensures |Sort(s)| == |s|
  {
    SortOrders(s);
    var t := Sort(s);
    assert |multiset(t)| == |t| && |multiset(s)| == |s|;
    assert p in t <==> p in multiset(t);
    assert p in s <==> p in multiset(s);
  }

  lemma SortKeepsSpans(s: seq<Span>)
    ensures (Sort(s) == [] <==> s == []) && (Proper(s) ==> Proper(Sort(s)))
    ensures forall x :: InSpans(Sort(s), x) <==> InSpans(s, x)
  {
    hide Sort;
    var t := Sort(s);
    forall p
      ensures p in t <==> p in s
      ensures |t| == |s|
    {
      SortMembers(s, p);
    }
    forall x
      ensures InSpans(t, x) <==> InSpans(s, x)
    {
      InSpansMembers(t, s, x);
      InSpansMembers(s, t, x);
    }
    SortMembers(s, Span(0, 0));
    assert forall i :: 0 <= i < |t| ==> t[i] in t;
  }

  lemma InSpansMembers(s: seq<Span>, t: seq<Span>, x: int)
    requires forall p :: p in s ==> p in t
    ensures InSpans(s, x) ==> InSpans(t, x)
  {
    if InSpans(s, x) {
      var i :| 0 <= i < |s| && s[i].lo <= x <= s[i].hi;
      assert s[i] in t;
    }
  }

  lemma ReportsLast(a: Area, m: seq<Span>, cov: set<int>)
    requires m != [] && Separated(m) && forall x :: x in cov <==> InSpans(m, x)
    ensures var last := m[|m| - 1].hi; last in cov && forall x :: x in cov ==> x <= last
  {
    var last := m[|m| - 1].hi;
    assert InSpans(m, last);
    forall x | x in cov
      ensures x <= last
    {
      var i :| 0 <= i < |m| && m[i].lo <= x <= m[i].hi;
    }
  }

  lemma ReportsHole(a: Area, m: seq<Span>, g: seq<Gap>, cov: set<int>, hole: Gap)
    requires Separated(m) && AreGaps(a.start, m, g) && forall x :: x in cov <==> InSpans(m, x)
    requires forall x :: x in cov ==> a.start <= x
    requires hole in g && forall i :: 0 <= i < |g| ==> GapAtMost(g[i], hole)
    ensures IsHole(a, cov, m[|m| - 1].hi, hole.length, if hole.length != 0 then Some(hole.at) else None)
  {
    var i :| 0 <= i < |g| && g[i] == hole;
    assert InSpans(m, m[0].lo);
    GapIsFree(a, m, g, cov, i);
    forall q, n | n > 0 && FreeRun(a, cov, q, n) && q + n <= m[|m| - 1].hi
      ensures GapAtMost(Gap(n, q), hole)
    {
      var j := RunInsideGap(a, m, g, cov, q, n);
      assert GapAtMost(g[j], hole);
    }
  }

  // -------------------------------------------------------- whole link maps --

  /** A segment whose load area differs from its run area. */
  datatype Split = Split(name: string, load: string, run: string, align: nat)

  function LastNamed(segs: seq<Segment>, name: string): Option<Segment> {
    if segs == [] then None
    else if segs[|segs| - 1].name == name then Some(segs[|segs| - 1])
    else LastNamed(segs[..|segs| - 1], name)
  }

  function FindArea(areas: seq<Area>, load: string): Option<Area> {
    if areas == [] then None
    else if areas[0].name == load || areas[0].alias == Some(load) then Some(areas[0])
    else FindArea(areas[1..], load)
  }

  function AlignUp(n: nat, al: nat): (r: nat)
    requires al > 0
    ensures n <= r < n + al && r % al == 0
  {
    AlignUpIs(n, al);
    (n + al - 1) / al * al
  }

  lemma AlignUpIs(n: nat, al: nat)
    requires al > 0
    ensures var r := (n + al - 1) / al * al; n <= r < n + al && r % al == 0
  {
    var q := (n + al - 1) / al;
    assert n + al - 1 == q * al + (n + al - 1) % al;
    MultipleMod(q, al);
  }

  lemma MultipleMod(q: int, al: int)
    requires al > 0
    ensures q * al % al == 0
  {
    var d, m := q * al / al, q * al % al;
    assert q * al == d * al + m;
    assert (q - d) * al == m;
    assert q - d >= 1 ==> (q - d) * al >= al;
    assert q - d <= -1 ==> (q - d) * al <= -al;
  }

  predicate Aligned(split: seq<Split>) {
    forall i :: 0 <= i < |split| ==> split[i].align > 0
  }

  /** Where a split segment's load bytes go: the area, and the bytes there. */
  datatype Home = Home(area: string, seg: Segment)

  function PlaceOne(areas: seq<Area>, segs: seq<Segment>, sp: Split, cursor: map<string, nat>): Option<Home>
    requires sp.align > 0
  {
    var seg, area := LastNamed(segs, sp.name), FindArea(areas, sp.load);
    if seg.None? || seg.value.size == 0 || area.None? then None
    else
      var from := if area.value.name in cursor then cursor[area.value.name] else area.value.start;
      var lo := AlignUp(from, sp.align);
      Some(Home(area.value.name, Segment(sp.name, lo, lo + seg.value.size - 1, seg.value.size)))
  }

  /** The last segment of a name is the one that counts. */
  lemma {:induction false} LastNamedIsLast(segs: seq<Segment>, name: string, i: nat)
    requires i < |segs| && segs[i].name == name && forall j :: i < j < |segs| ==> segs[j].name != name
    ensures LastNamed(segs, name) == Some(segs[i])
  {
    if i < |segs| - 1 {
      LastNamedIsLast(segs[..|segs| - 1], name, i);
    }
  }

  /** The first area of a name or alias is the one that is loaded into. */
  lemma {:induction false} FindAreaIsFirst(areas: seq<Area>, load: string, i: nat)
    requires i < |areas| && (areas[i].name == load || areas[i].alias == Some(load))
    requires forall j :: 0 <= j < i ==> areas[j].name != load && areas[j].alias != Some(load)
    ensures FindArea(areas, load) == Some(areas[i])
  {
    if i > 0 {
      FindAreaIsFirst(areas[1..], load, i - 1);
    }
  }

  lemma {:induction false} FindAreaNone(areas: seq<Area>, load: string)
    ensures FindArea(areas, load).None? <==>
      forall i :: 0 <= i < |areas| ==> areas[i].name != load && areas[i].alias != Some(load)
  {
    if areas != [] {
      FindAreaNone(areas[1..], load);
      assert forall i :: 1 <= i < |areas| ==> areas[i] == areas[1..][i - 1];
    }
  }

  /** A split segment's bytes go to the lowest aligned address at or above the end of
      what was placed in its area before, or the start of the area. */
  lemma PlacedLowest(areas: seq<Area>, segs: seq<Segment>, sp: Split, cursor: map<string, nat>)
    requires sp.align > 0
    ensures var home := PlaceOne(areas, segs, sp, cursor);
      var seg, area := LastNamed(segs, sp.name), FindArea(areas, sp.load);
      && (home.Some? <==> seg.Some? && seg.value.size > 0 && area.Some?)
      && (home.Some? ==>
        var from := if area.value.name in cursor then cursor[area.value.name] else area.value.start;
        var at := home.value.seg;
        && home.value.area == area.value.name && at.name == sp.name && at.size == seg.value.size
        && from <= at.start < from + sp.align && at.start % sp.align == 0 && at.end == at.start + at.size - 1)
  {
    hide LastNamed, FindArea;
  }

  function PlaceFrom(areas: seq<Area>, segs: seq<Segment>, split: seq<Split>, cursor: map<string, nat>): seq<Home>
    requires Aligned(split)
    decreases |split|
  {
    if split == [] then []
    else
      match PlaceOne(areas, segs, split[0], cursor)
      case None => PlaceFrom(areas, segs, split[1..], cursor)
      case Some(home) =>
        [home] + PlaceFrom(areas, segs, split[1..], cursor[home.area := home.seg.start + home.seg.size])
  }

  function SegmentsOf(homes: seq<Home>): (s: seq<Segment>)
    ensures |s| == |homes|
  {
    seq(|homes|, i requires 0 <= i < |homes| => homes[i].seg)
  }

  /** Load bytes are packed in cfg order: within an area each placed segment
      starts above the one before it and above everything placed earlier. */
  lemma {:induction false} PlacedPacks(areas: seq<Area>, segs: seq<Segment>, split: seq<Split>,
                                       cursor: map<string, nat>)
    requires Aligned(split)
    ensures var hs := PlaceFrom(areas, segs, split, cursor);
      && Parsed(SegmentsOf(hs))
      && (forall i :: 0 <= i < |hs| && hs[i].area in cursor ==> cursor[hs[i].area] <= hs[i].seg.start)
      && (forall i, j :: 0 <= i < j < |hs| && hs[i].area == hs[j].area ==> hs[i].seg.end < hs[j].seg.start)
    decreases |split|
  {
    if split != [] {
      match PlaceOne(areas, segs, split[0], cursor) {
        case None => PlacedPacks(areas, segs, split[1..], cursor);
        case Some(home) =>
          var next := cursor[home.area := home.seg.start + home.seg.size];
          PlacedPacks(areas, segs, split[1..], next);
          var rest := PlaceFrom(areas, segs, split[1..], next);
          assert [home] + rest == PlaceFrom(areas, segs, split, cursor);
          hide PlaceFrom;
          OneMoreParsed(home, rest);
      }
    }
  }

  lemma OneMoreParsed(home: Home, rest: seq<Home>)
    requires home.seg.end == home.seg.start + home.seg.size - 1 && Parsed(SegmentsOf(rest))
    ensures Parsed(SegmentsOf([home] + rest))
  {
    var all := [home] + rest;
    assert SegmentsOf(all)[0] == home.seg;
    assert forall i :: 1 <= i < |all| ==> SegmentsOf(all)[i] == SegmentsOf(rest)[i - 1];
  }

  method PlaceSplit(areas: seq<Area>, segs: seq<Segment>, split: seq<Split>) returns (placed: seq<Segment>)
    requires Aligned(split)
    ensures placed == SegmentsOf(PlaceFrom(areas, segs, split, map[]))
    ensures Parsed(placed)
  {
    var cursor: map<string, nat> := map[];
    placed := [];
    ghost var homes := PlaceFrom(areas, segs, split, map[]);
    for i := 0 to |split|
      invariant SegmentsOf(homes) == placed + SegmentsOf(PlaceFrom(areas, segs, split[i..], cursor))
    {
      assert split[i..][1..] == split[i + 1..];
      var home := PlaceOne(areas, segs, split[i], cursor);
      if home.Some? {
        ghost var next := cursor[home.value.area := home.value.seg.start + home.value.seg.size];
        ghost var rest := PlaceFrom(areas, segs, split[i + 1..], next);
        assert SegmentsOf([home.value] + rest) == [home.value.seg] + SegmentsOf(rest);
        placed := placed + [home.value.seg];
        cursor := cursor[home.value.area := home.value.seg.start + home.value.seg.size];
      }
    }
    assert split[|split|..] == [];
    PlacedPacks(areas, segs, split, map[]);
  }

  function RunsIn(segs: seq<Segment>, split: seq<Split>, area: string): seq<Segment> {
    if split == [] then []
    else
      var seg := LastNamed(segs, split[0].name);
      (if split[0].run == area && seg.Some? then [seg.value] else []) + RunsIn(segs, split[1..], area)
  }

  predicate Reported(a: Area, split: seq<Split>) {
    && a.size > 0 && a.name != "LOADADDR"
    && (a.file || exists i :: 0 <= i < |split| && split[i].run == a.name)
  }

  /** Exactly the listed segments that run in the area, by their last definitions. */
  lemma {:induction false} RunsInHas(segs: seq<Segment>, split: seq<Split>, area: string, x: Segment)
    ensures x in RunsIn(segs, split, area) <==>
      exists i :: 0 <= i < |split| && split[i].run == area && LastNamed(segs, split[i].name) == Some(x)
  {
    hide LastNamed;
    if split != [] {
      RunsInHas(segs, split[1..], area, x);
      if i :| 0 <= i < |split| - 1 && split[1..][i].run == area && LastNamed(segs, split[1..][i].name) == Some(x) {
        assert split[i + 1] == split[1..][i];
      }
      if i :| 0 <= i < |split| && split[i].run == area && LastNamed(segs, split[i].name) == Some(x) {
        assert i == 0 || split[1..][i - 1] == split[i];
      }
    }
  }

  /** Which areas are reported: the non-empty ones other than the load address that
      are in the file or that some split segment runs in. */
  lemma {:induction false} ReportedHas(areas: seq<Area>, split: seq<Split>, a: Area)
    ensures a in ReportedAreas(areas, split) <==>
      && a in areas && a.size > 0 && a.name != "LOADADDR"
      && (a.file || exists i :: 0 <= i < |split| && split[i].run == a.name)
  {
    if areas != [] {
      ReportedHas(areas[1..], split, a);
      assert areas == [areas[0]] + areas[1..];
    }
  }

  function ReportedAreas(areas: seq<Area>, split: seq<Split>): seq<Area> {
    if areas == [] then []
    else (if Reported(areas[0], split) then [areas[0]] else []) + ReportedAreas(areas[1..], split)
  }

  /** The segments an area is measured against. */
  function Mine(a: Area, areas: seq<Area>, segs: seq<Segment>, split: seq<Split>): seq<Segment>
    requires Aligned(split)
  {
    if a.file then segs + SegmentsOf(PlaceFrom(areas, segs, split, map[])) else RunsIn(segs, split, a.name)
  }

  ghost predicate IsReport(areas: seq<Area>, segs: seq<Segment>, split: seq<Split>, rows: seq<Row>)
    requires Aligned(split)
  {
    var shown := ReportedAreas(areas, split);
    |rows| == |shown| && forall i :: 0 <= i < |rows| ==> RowFor(shown[i], Mine(shown[i], areas, segs, split), rows[i])
  }

  lemma {:induction false} LastNamedParsed(segs: seq<Segment>, name: string)
    requires Parsed(segs)
    ensures var s := LastNamed(segs, name); s.Some? ==> Parsed([s.value]) && s.value in segs
  {
    if segs != [] && segs[|segs| - 1].name != name {
      LastNamedParsed(segs[..|segs| - 1], name);
    }
  }

  lemma {:induction false} RunsInParsed(segs: seq<Segment>, split: seq<Split>, area: string)
    requires Parsed(segs)
    ensures Parsed(RunsIn(segs, split, area))
  {
    if split != [] {
      RunsInParsed(segs, split[1..], area);
      LastNamedParsed(segs, split[0].name);
      var one, rest := LastNamed(segs, split[0].name), RunsIn(segs, split[1..], area);
      assert one.Some? ==> Parsed([one.value]) && [one.value][0] == one.value;
    }
  }

  method Measure(areas: seq<Area>, segs: seq<Segment>, split: seq<Split>) returns (rows: seq<Row>)
    requires Parsed(segs) && Aligned(split)
    ensures IsReport(areas, segs, split, rows)
  {
    hide RowFor, RunsIn, PlaceFrom, SegmentsOf, Reported, Mine, ReportedAreas;
    var placed := PlaceSplit(areas, segs, split);
    rows := [];
    ghost var shown := ReportedAreas(areas, split);
    NoneShown(areas, split);
    for i := 0 to |areas|
      invariant |rows| <= |shown| && shown[|rows|..] == ReportedAreas(areas[i..], split)
      invariant forall k :: 0 <= k < |rows| ==> RowFor(shown[k], Mine(shown[k], areas, segs, split), rows[k])
    {
      var a := areas[i];
      ShownStep(areas, split, i, shown, |rows|);
      if Reported(a, split) {
        var row := MeasureOne(a, areas, segs, split, placed);
        rows := rows + [row];
      }
    }
    NoneShown(areas, split);
  }

  lemma NoneShown(areas: seq<Area>, split: seq<Split>)
    ensures ReportedAreas(areas[|areas|..], split) == []
    ensures areas[0..] == areas
  {
    assert areas[|areas|..] == [];
  }

  lemma ShownStep(areas: seq<Area>, split: seq<Split>, i: nat, shown: seq<Area>, n: nat)
    requires i < |areas| && n <= |shown| && shown[n..] == ReportedAreas(areas[i..], split)
    ensures if Reported(areas[i], split)
      then n < |shown| && shown[n] == areas[i] && shown[n + 1..] == ReportedAreas(areas[i + 1..], split)
      else shown[n..] == ReportedAreas(areas[i + 1..], split)
  {
    hide Reported;
    assert areas[i..][0] == areas[i] && areas[i..][1..] == areas[i + 1..];
    if Reported(areas[i], split) {
      assert shown[n] == shown[n..][0];
      assert shown[n + 1..] == shown[n..][1..];
    } else {
      assert [] + ReportedAreas(areas[i + 1..], split) == ReportedAreas(areas[i + 1..], split);
    }
  }

  method MeasureOne(a: Area, areas: seq<Area>, segs: seq<Segment>, split: seq<Split>, placed: seq<Segment>)
    returns (row: Row)
    requires Parsed(segs) && Aligned(split) && Reported(a, split)
    requires placed == SegmentsOf(PlaceFrom(areas, segs, split, map[])) && Parsed(placed)
    ensures RowFor(a, Mine(a, areas, segs, split), row)
  {
    hide RowFor, RunsIn, PlaceFrom, SegmentsOf;
    RunsInParsed(segs, split, a.name);
    var all := segs + placed;
    assert Parsed(all);
    var gaps;
    row, gaps := MeasureArea(a, if a.file then all else RunsIn(segs, split, a.name));
  }

  predicate SameNames(s1: seq<Segment>, s2: seq<Segment>, split: seq<Split>) {
    forall i :: 0 <= i < |split| ==> LastNamed(s1, split[i].name) == LastNamed(s2, split[i].name)
  }

  lemma {:induction false} SameLookups(areas: seq<Area>, s1: seq<Segment>, s2: seq<Segment>,
                                       split: seq<Split>, cursor: map<string, nat>, area: string)
    requires Aligned(split) && SameNames(s1, s2, split)
    ensures PlaceFrom(areas, s1, split, cursor) == PlaceFrom(areas, s2, split, cursor)
    ensures RunsIn(s1, split, area) == RunsIn(s2, split, area)
    decreases |split|
  {
    if split != [] {
      assert LastNamed(s1, split[0].name) == LastNamed(s2, split[0].name);
      var home := PlaceOne(areas, s1, split[0], cursor);
      assert home == PlaceOne(areas, s2, split[0], cursor);
      var next := if home.None? then cursor else cursor[home.value.area := home.value.seg.start + home.value.seg.size];
      SameLookups(areas, s1, s2, split[1..], next, area);
    }
  }

  lemma SameMine(a: Area, areas: seq<Area>, s1: seq<Segment>, s2: seq<Segment>, split: seq<Split>)
    requires Aligned(split) && SameSegments(s1, s2) && SameNames(s1, s2, split)
    ensures SameSegments(Mine(a, areas, s1, split), Mine(a, areas, s2, split))
  {
    hide PlaceFrom, RunsIn, SegmentsOf, SameNames, Aligned;
    SameLookups(areas, s1, s2, split, map[], a.name);
  }

  /** The whole report is independent of the order of the map's segment list. */
  lemma ReportOrderFree(areas: seq<Area>, s1: seq<Segment>, s2: seq<Segment>, split: seq<Split>,
                        r1: seq<Row>, r2: seq<Row>)
    requires Aligned(split) && SameSegments(s1, s2) && SameNames(s1, s2, split)
    requires IsReport(areas, s1, split, r1) && IsReport(areas, s2, split, r2)
    ensures r1 == r2
  {
    hide RowFor, Mine, ReportedAreas, SameSegments, SameNames, Aligned;
    var shown := ReportedAreas(areas, split);
    forall i | 0 <= i < |shown|
      ensures r1[i] == r2[i]
    {
      var a := shown[i];
      SameMine(a, areas, s1, s2, split);
      RowOrderFree(a, Mine(a, areas, s1, split), Mine(a, areas, s2, split), r1[i], r2[i]);
    }
  }

  predicate DistinctNames(segs: seq<Segment>) {
    forall i, j :: 0 <= i < j < |segs| ==> segs[i].name != segs[j].name
  }

  lemma {:induction false} LastNamedIs(segs: seq<Segment>, k: nat)
    requires DistinctNames(segs) && k < |segs|
    ensures LastNamed(segs, segs[k].name) == Some(segs[k])
  {
    if k < |segs| - 1 {
      LastNamedIs(segs[..|segs| - 1], k);
    }
  }

  lemma {:induction false} LastNamedNone(segs: seq<Segment>, name: string)
    ensures var s := LastNamed(segs, name);
      if s.Some? then s.value in segs && s.value.name == name
      else forall i :: 0 <= i < |segs| ==> segs[i].name != name
  {
    if segs != [] && segs[|segs| - 1].name != name {
      LastNamedNone(segs[..|segs| - 1], name);
    }
  }

  /** Distinct segment names make the by-name lookups order-free as well. */
  lemma DistinctNamesAgree(s1: seq<Segment>, s2: seq<Segment>, split: seq<Split>)
    requires SameSegments(s1, s2) && DistinctNames(s1) && DistinctNames(s2)
    ensures SameNames(s1, s2, split)
  {
    forall i | 0 <= i < |split|
      ensures LastNamed(s1, split[i].name) == LastNamed(s2, split[i].name)
    {
      var name := split[i].name;
      LastNamedNone(s1, name);
      LastNamedNone(s2, name);
      if LastNamed(s1, name).Some? {
        var s := LastNamed(s1, name).value;
        var k :| 0 <= k < |s2| && s2[k] == s;
        LastNamedIs(s2, k);
      }
    }
  }
}
