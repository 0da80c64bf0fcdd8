/** The experimental jank region: it keeps the united rectangles as they
    come and computes the area of their union with a sweep line over
    compressed x-coordinates. Between two consecutive distinct edge
    coordinates every column is covered by the same rectangles, so each such
    vertical strip contributes its width times the length of the union of
    the rows those rectangles span, found by merging intervals. */
module JankRegion {
  import opened Geometry

  // ---------------------------------------------------------------------
  // Compressed x-coordinates

  predicate StrictlyIncreasing(xs: seq<int>) {
    forall i, j :: 0 <= i < j < |xs| ==> xs[i] < xs[j]
  }

  /** Inserts `v` into an increasing sequence unless it is already there. */
  function InsertEdge(v: int, xs: seq<int>): (r: seq<int>)
    requires StrictlyIncreasing(xs)
    ensures StrictlyIncreasing(r)
    ensures forall w :: w in r <==> w == v || w in xs
  {
    if |xs| == 0 then [v]
    else if v < xs[0] then [v] + xs
    else if v == xs[0] then xs
    else
      var rest := InsertEdge(v, xs[1..]);
      assert forall j :: 0 <= j < |rest| ==> rest[j] in rest;
      assert forall j :: 0 <= j < |xs| - 1 ==> xs[1..][j] == xs[j + 1];
      assert forall w :: w in xs[1..] ==> xs[0] < w;
      [xs[0]] + rest
  }

  /** The distinct x-coordinates of the edges of the non-empty rectangles of
      `rs`, in increasing order. */
  function Edges(rs: seq<Rect>): (xs: seq<int>)
    ensures StrictlyIncreasing(xs)
    ensures forall i :: 0 <= i < |rs| && !IsEmpty(rs[i]) ==> rs[i].left in xs && rs[i].right in xs
  {
    if |rs| == 0 then []
    else
      var xs := Edges(rs[..|rs| - 1]);
      var r := rs[|rs| - 1];
      if IsEmpty(r) then xs else InsertEdge(r.right, InsertEdge(r.left, xs))
  }

  /** No edge coordinate lies strictly between two consecutive ones. */
  lemma NothingBetween(xs: seq<int>, i: int, v: int)
    requires StrictlyIncreasing(xs) && 0 <= i < |xs| - 1 && v in xs
    ensures v <= xs[i] || xs[i + 1] <= v
  {
    var j :| 0 <= j < |xs| && xs[j] == v;
    if j > i + 1 {
      assert xs[i + 1] < xs[j];
    } else if j < i {
      assert xs[j] < xs[i];
    }
  }

  // ---------------------------------------------------------------------
  // Intervals of rows

  /** A half-open interval of rows [lo, hi). */
  type Span = (int, int)

  /** The rows covered by at least one span. */
  ghost function SpanCover(ss: seq<Span>): set<int> {
    if |ss| == 0 then {} else SpanCover(ss[..|ss| - 1]) + Range(ss[|ss| - 1].0, ss[|ss| - 1].1)
  }

  lemma InSpanCover(ss: seq<Span>, y: int)
    ensures y in SpanCover(ss) <==> exists i :: 0 <= i < |ss| && ss[i].0 <= y < ss[i].1
  {
    if |ss| > 0 {
      var init := ss[..|ss| - 1];
      var last := ss[|ss| - 1];
      InSpanCover(init, y);
      InRange(last.0, last.1, y);
      if exists i :: 0 <= i < |init| && init[i].0 <= y < init[i].1 {
        var i :| 0 <= i < |init| && init[i].0 <= y < init[i].1;
        assert ss[i] == init[i];
      }
      if exists i :: 0 <= i < |ss| && ss[i].0 <= y < ss[i].1 {
        var i :| 0 <= i < |ss| && ss[i].0 <= y < ss[i].1;
        if i < |ss| - 1 { assert init[i] == ss[i]; }
      }
    }
  }

  lemma SpanCoverSameElements(a: seq<Span>, b: seq<Span>)
    requires forall t :: t in a && t.0 < t.1 ==> t in b
    requires forall t :: t in b ==> t in a
    ensures SpanCover(a) == SpanCover(b)
  {
    forall y ensures y in SpanCover(a) <==> y in SpanCover(b) {
      InSpanCover(a, y);
      InSpanCover(b, y);
      if y in SpanCover(a) {
        var i :| 0 <= i < |a| && a[i].0 <= y < a[i].1;
        assert a[i] in b;
      }
      if y in SpanCover(b) {
        var i :| 0 <= i < |b| && b[i].0 <= y < b[i].1;
        assert b[i] in a;
      }
    }
  }

  predicate SortedByStart(ss: seq<Span>) {
    forall i, j :: 0 <= i < j < |ss| ==> ss[i].0 <= ss[j].0
  }

  predicate AllProper(ss: seq<Span>) {
    forall i :: 0 <= i < |ss| ==> ss[i].0 < ss[i].1
  }

  function InsertSpan(t: Span, ss: seq<Span>): (r: seq<Span>)
    requires SortedByStart(ss)
    ensures SortedByStart(r)
    ensures forall u :: u in r <==> u == t || u in ss
  {
    if |ss| == 0 then [t]
    else if t.0 <= ss[0].0 then [t] + ss
    else
      var rest := InsertSpan(t, ss[1..]);
      assert forall j :: 0 <= j < |rest| ==> rest[j] in rest;
      assert forall u :: u in ss[1..] ==> ss[0].0 <= u.0;
      [ss[0]] + rest
  }

  /** The non-empty spans of `ss`, sorted by their first row. */
  function SortSpans(ss: seq<Span>): (r: seq<Span>)
    ensures SortedByStart(r) && AllProper(r)
    ensures forall t :: t in r <==> t in ss && t.0 < t.1
  {
    if |ss| == 0 then []
    else
      var rest := SortSpans(ss[..|ss| - 1]);
      var t := ss[|ss| - 1];
      assert forall u :: u in ss <==> u in ss[..|ss| - 1] || u == t;
      if t.0 < t.1 then InsertSpan(t, rest) else rest
  }

  lemma RangesMerge(lo: int, hi: int, l: int, h: int)
    requires lo <= l <= hi
    ensures Range(lo, hi) + Range(l, h) == Range(lo, Max(hi, h))
  {
    forall y ensures y in Range(lo, hi) + Range(l, h) <==> y in Range(lo, Max(hi, h)) {
      InRange(lo, hi, y);
      InRange(l, h, y);
      InRange(lo, Max(hi, h), y);
    }
  }

  /** The number of rows covered by the spans: sort them by start, then
      merge overlapping or touching ones into runs and add up the runs. */
  method CoveredLength(spans: seq<Span>) returns (len: nat)
    ensures len == |SpanCover(spans)|
  {
    var sorted := SortSpans(spans);
    SpanCoverSameElements(spans, sorted);
    len := 0;
    if |sorted| == 0 {
      return;
    }
    var lo, hi := sorted[0].0, sorted[0].1;
    ghost var done: set<int> := {};
    assert sorted[..1] == [sorted[0]];
    assert SpanCover(sorted[..1]) == Range(lo, hi) by {
      assert sorted[..1][..0] == [];
    }
    var k := 1;
    while k < |sorted|
      invariant 1 <= k <= |sorted|
      invariant lo < hi && lo <= sorted[k - 1].0
      invariant SpanCover(sorted[..k]) == done + Range(lo, hi)
      invariant |done| == len
      invariant forall y :: y in done ==> y < lo
    {
      var (l, h) := sorted[k];
      assert lo <= l < h by {
        assert sorted[k - 1].0 <= sorted[k].0;
      }
      SpanCoverPrefix(sorted, k);
      if l > hi {
        CloseRun(done, lo, hi, l);
        done := done + Range(lo, hi);
        len := len + (hi - lo);
        lo, hi := l, h;
      } else {
        MergeRun(SpanCover(sorted[..k]), done, lo, hi, l, h);
        hi := Max(hi, h);
      }
      k := k + 1;
    }
    assert sorted[..k] == sorted;
    CloseRun(done, lo, hi, hi);
    len := len + (hi - lo);
  }

  lemma SpanCoverPrefix(ss: seq<Span>, k: int)
    requires 0 <= k < |ss|
    ensures SpanCover(ss[..k + 1]) == SpanCover(ss[..k]) + Range(ss[k].0, ss[k].1)
  {
    assert ss[..k + 1][..k] == ss[..k];
  }

  /** A span starting inside the current run [lo, hi) extends it. */
  lemma MergeRun(cover: set<int>, done: set<int>, lo: int, hi: int, l: int, h: int)
    requires cover == done + Range(lo, hi) && lo <= l <= hi
    ensures cover + Range(l, h) == done + Range(lo, Max(hi, h))
  {
    RangesMerge(lo, hi, l, h);
  }

  /** Closing the run [lo, hi): its rows are new, and all lie below `next`. */
  lemma CloseRun(done: set<int>, lo: int, hi: int, next: int)
    requires lo < hi <= next
    requires forall y :: y in done ==> y < lo
    ensures |done + Range(lo, hi)| == |done| + (hi - lo)
    ensures forall y :: y in done + Range(lo, hi) ==> y < next
  {
    forall y | y in Range(lo, hi) ensures lo <= y < hi { InRange(lo, hi, y); }
    assert done !! Range(lo, hi);
    RangeSize(lo, hi);
  }

  // ---------------------------------------------------------------------
  // Vertical strips

  /** The cells of `cells` in the columns a <= x < b. */
  ghost function StripCells(cells: set<(int, int)>, a: int, b: int): set<(int, int)> {
    set p | p in cells && a <= p.0 < b
  }

  /** The row spans of the non-empty rectangles that cover the whole strip
      of columns [a, b). */
  function ActiveSpans(rs: seq<Rect>, a: int, b: int): (ss: seq<Span>) {
    if |rs| == 0 then []
    else
      var r := rs[|rs| - 1];
      ActiveSpans(rs[..|rs| - 1], a, b)
      + (if !IsEmpty(r) && r.left <= a && b <= r.right then [(r.top, r.bottom)] else [])
  }

  /** Each non-empty rectangle of `rs` either covers the whole strip [a, b)
      or none of it. */
  ghost predicate StripAligned(rs: seq<Rect>, a: int, b: int) {
    forall i :: 0 <= i < |rs| && !IsEmpty(rs[i]) ==>
      rs[i].right <= a || b <= rs[i].left || (rs[i].left <= a && b <= rs[i].right)
  }

  lemma ProductUnion(xs: set<int>, ys: set<int>, zs: set<int>)
    ensures Product(xs, ys + zs) == Product(xs, ys) + Product(xs, zs)
  {
    forall p ensures p in Product(xs, ys + zs) <==> p in Product(xs, ys) + Product(xs, zs) {
      InProduct(xs, ys + zs, p);
      InProduct(xs, ys, p);
      InProduct(xs, zs, p);
    }
  }

  lemma StripOfRect(r: Rect, a: int, b: int)
    requires a <= b
    requires IsEmpty(r) || r.right <= a || b <= r.left || (r.left <= a && b <= r.right)
    ensures StripCells(Cells(r), a, b)
         == if !IsEmpty(r) && r.left <= a && b <= r.right
            then Product(Range(a, b), Range(r.top, r.bottom)) else {}
  {
    forall p ensures p in StripCells(Cells(r), a, b) <==>
                     (!IsEmpty(r) && r.left <= a && b <= r.right && p in Product(Range(a, b), Range(r.top, r.bottom)))
    {
      InCells(r, p);
      InProduct(Range(a, b), Range(r.top, r.bottom), p);
      InRange(a, b, p.0);
      InRange(r.top, r.bottom, p.1);
    }
  }

  /** Inside an aligned strip the union is a full product: the strip's
      columns times the rows covered by the active spans. */
  lemma {:induction false} StripOfUnion(rs: seq<Rect>, a: int, b: int)
    requires a <= b && StripAligned(rs, a, b)
    ensures StripCells(UnionCells(rs), a, b) == Product(Range(a, b), SpanCover(ActiveSpans(rs, a, b)))
  {
    if |rs| == 0 {
      assert StripCells(UnionCells(rs), a, b) == {};
      forall p | p in Product(Range(a, b), {}) ensures false { InProduct(Range(a, b), {}, p); }
    } else {
      var init := rs[..|rs| - 1];
      var r := rs[|rs| - 1];
      assert StripAligned(init, a, b) by {
        forall i | 0 <= i < |init| ensures init[i] == rs[i] { }
      }
      StripOfUnion(init, a, b);
      StripOfRect(r, a, b);
      var tail: seq<Span> := if !IsEmpty(r) && r.left <= a && b <= r.right then [(r.top, r.bottom)] else [];
      assert ActiveSpans(rs, a, b) == ActiveSpans(init, a, b) + tail;
      assert UnionCells(rs) == UnionCells(init) + Cells(r);
      StripOfSum(UnionCells(init), Cells(r), a, b);
      SpanCoverAppend(ActiveSpans(init, a, b), tail);
      ProductUnion(Range(a, b), SpanCover(ActiveSpans(init, a, b)), SpanCover(tail));
      if tail == [] {
        assert SpanCover(tail) == {};
        forall p | p in Product(Range(a, b), {}) ensures false { InProduct(Range(a, b), {}, p); }
      } else {
        assert tail[..0] == [];
      }
    }
  }

  lemma StripOfSum(c: set<(int, int)>, d: set<(int, int)>, a: int, b: int)
    ensures StripCells(c + d, a, b) == StripCells(c, a, b) + StripCells(d, a, b)
  {
  }

  lemma SpanCoverAppend(a: seq<Span>, b: seq<Span>)
    ensures SpanCover(a + b) == SpanCover(a) + SpanCover(b)
  {
    forall y ensures y in SpanCover(a + b) <==> y in SpanCover(a) + SpanCover(b) {
      InSpanCover(a + b, y);
      InSpanCover(a, y);
      InSpanCover(b, y);
      if y in SpanCover(a) {
        var i :| 0 <= i < |a| && a[i].0 <= y < a[i].1;
        assert (a + b)[i] == a[i];
      }
      if y in SpanCover(b) {
        var i :| 0 <= i < |b| && b[i].0 <= y < b[i].1;
        assert (a + b)[|a| + i] == b[i];
      }
      if y in SpanCover(a + b) {
        var i :| 0 <= i < |a + b| && (a + b)[i].0 <= y < (a + b)[i].1;
        if i >= |a| { assert (a + b)[i] == b[i - |a|]; }
      }
    }
  }

  /** Between consecutive edges every rectangle is aligned with the strip. */
  lemma EdgesAlign(rs: seq<Rect>, xs: seq<int>, i: int)
    requires xs == Edges(rs) && 0 <= i < |xs| - 1
    ensures xs[i] < xs[i + 1] && StripAligned(rs, xs[i], xs[i + 1])
  {
    forall k | 0 <= k < |rs| && !IsEmpty(rs[k])
      ensures rs[k].right <= xs[i] || xs[i + 1] <= rs[k].left
           || (rs[k].left <= xs[i] && xs[i + 1] <= rs[k].right)
    {
      NothingBetween(xs, i, rs[k].left);
      NothingBetween(xs, i, rs[k].right);
    }
  }

  /** An aligned strip holds its width times the rows its spans cover. */
  lemma StripArea(rs: seq<Rect>, a: int, b: int)
    requires a <= b && StripAligned(rs, a, b)
    ensures |StripCells(UnionCells(rs), a, b)| == (b - a) * |SpanCover(ActiveSpans(rs, a, b))|
  {
    StripOfUnion(rs, a, b);
    ProductSize(Range(a, b), SpanCover(ActiveSpans(rs, a, b)));
    RangeSize(a, b);
  }

  lemma StripSplit(cells: set<(int, int)>, a: int, b: int, c: int)
    requires a <= b <= c
    ensures |StripCells(cells, a, c)| == |StripCells(cells, a, b)| + |StripCells(cells, b, c)|
  {
    assert StripCells(cells, a, c) == StripCells(cells, a, b) + StripCells(cells, b, c);
    assert StripCells(cells, a, b) !! StripCells(cells, b, c);
  }

  /** Every covered cell lies between the first and the last edge. */
  lemma AllCellsBetweenEdges(rs: seq<Rect>, xs: seq<int>)
    requires xs == Edges(rs) && |xs| > 0
    ensures StripCells(UnionCells(rs), xs[0], xs[|xs| - 1]) == UnionCells(rs)
  {
    forall p | p in UnionCells(rs) ensures xs[0] <= p.0 < xs[|xs| - 1] {
      InUnionCells(rs, p);
      var k :| 0 <= k < |rs| && p in Cells(rs[k]);
      InCells(rs[k], p);
      EdgeBounds(xs, rs[k].left);
      EdgeBounds(xs, rs[k].right);
    }
  }

  lemma EdgeBounds(xs: seq<int>, v: int)
    requires StrictlyIncreasing(xs) && v in xs
    ensures xs[0] <= v <= xs[|xs| - 1]
  {
    var l :| 0 <= l < |xs| && xs[l] == v;
  }

  lemma NoEdgesNoCells(rs: seq<Rect>)
    requires Edges(rs) == []
    ensures UnionCells(rs) == {}
  {
    forall k | 0 <= k < |rs| ensures Cells(rs[k]) == {} {
      assert IsEmpty(rs[k]);
      EmptyHasNoCells(rs[k]);
    }
    forall p | p in UnionCells(rs) ensures false {
      InUnionCells(rs, p);
    }
  }

  /** JankRegion::Area: the sweep over vertical strips between consecutive
      distinct edge coordinates. */
  method SweepArea(rects: seq<Rect>) returns (area: nat)
    ensures area == UnionArea(rects)
  {
    var xs := Edges(rects);
    area := 0;
    if |xs| == 0 {
      NoEdgesNoCells(rects);
      return;
    }
    ghost var cells := UnionCells(rects);
    assert StripCells(cells, xs[0], xs[0]) == {};
    var i := 0;
    while i < |xs| - 1
      invariant 0 <= i <= |xs| - 1
      invariant area == |StripCells(cells, xs[0], xs[i])|
    {
      var a, b := xs[i], xs[i + 1];
      var spans := ActiveSpans(rects, a, b);
      var covered := CoveredLength(spans);
      EdgesAlign(rects, xs, i);
      StripArea(rects, a, b);
      StripSplit(cells, xs[0], a, b);
      ghost var strip := |StripCells(cells, a, b)|;
      assert strip == (b - a) * covered;
      area := area + (b - a) * covered;
      i := i + 1;
    }
    AllCellsBetweenEdges(rects, xs);
  }
}
