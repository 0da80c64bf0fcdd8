/** Axis-aligned integer rectangles and the exact meaning of "area of a union".

    A rectangle covers the unit cells (x, y) with left <= x < right and
    top <= y < bottom. The area of a union of rectangles is the number of
    distinct cells covered by at least one of them, so overlaps are counted
    once by construction. Both region implementations are proved against
    this definition. */
module Geometry {

  /** An IntRect given by its edges. A rectangle with right <= left or
      bottom <= top is empty: it covers no cell and has area zero. */
  datatype Rect = Rect(left: int, top: int, right: int, bottom: int)

  predicate IsEmpty(r: Rect) {
    r.right <= r.left || r.bottom <= r.top
  }

  function Area(r: Rect): (a: nat)
    ensures a == 0 <==> IsEmpty(r)
  {
    if IsEmpty(r) then 0 else (r.right - r.left) * (r.bottom - r.top)
  }

  /** The common part of two rectangles (empty when they do not overlap). */
  function Intersect(a: Rect, b: Rect): Rect {
    Rect(Max(a.left, b.left), Max(a.top, b.top), Min(a.right, b.right), Min(a.bottom, b.bottom))
  }

  predicate Overlaps(a: Rect, b: Rect) {
    !IsEmpty(Intersect(a, b))
  }

  /** Every cell of `a` is a cell of `b`. */
  predicate Within(a: Rect, b: Rect) {
    IsEmpty(a) || (b.left <= a.left && a.right <= b.right && b.top <= a.top && a.bottom <= b.bottom)
  }

  predicate Contains(r: Rect, x: int, y: int) {
    r.left <= x < r.right && r.top <= y < r.bottom
  }

  function Max(a: int, b: int): int { if a < b then b else a }
  function Min(a: int, b: int): int { if a < b then a else b }

  // ---------------------------------------------------------------------
  // Cell sets

  /** The half-open integer interval [lo, hi). */
  ghost function Range(lo: int, hi: int): set<int>
    decreases hi - lo
  {
    if hi <= lo then {} else Range(lo, hi - 1) + {hi - 1}
  }

  ghost function Product(xs: set<int>, ys: set<int>): set<(int, int)> {
    set x, y | x in xs && y in ys :: (x, y)
  }

  ghost function Cells(r: Rect): set<(int, int)> {
    Product(Range(r.left, r.right), Range(r.top, r.bottom))
  }

  /** The cells covered by at least one rectangle of `rs`. */
  ghost function UnionCells(rs: seq<Rect>): set<(int, int)> {
    if |rs| == 0 then {} else UnionCells(rs[..|rs| - 1]) + Cells(rs[|rs| - 1])
  }

  /** The true area of the union of `rs`, with no double counting. */
  ghost function UnionArea(rs: seq<Rect>): nat {
    |UnionCells(rs)|
  }

  lemma InProduct(xs: set<int>, ys: set<int>, p: (int, int))
    ensures p in Product(xs, ys) <==> p.0 in xs && p.1 in ys
  {
    if p.0 in xs && p.1 in ys {
      var x, y := p.0, p.1;
      assert (x, y) == p;
      assert (x, y) in Product(xs, ys);
    }
  }

  lemma InCells(r: Rect, p: (int, int))
    ensures p in Cells(r) <==> Contains(r, p.0, p.1)
  {
    InProduct(Range(r.left, r.right), Range(r.top, r.bottom), p);
    InRange(r.left, r.right, p.0);
    InRange(r.top, r.bottom, p.1);
  }

  /** Some element of a non-empty set. */
  lemma Pick<T>(s: set<T>) returns (x: T)
    requires s != {}
    ensures x in s
  {
    if !(exists y :: y in s) {
      assert false;
    }
    x :| x in s;
  }

  lemma {:induction false} InRange(lo: int, hi: int, v: int)
    ensures v in Range(lo, hi) <==> lo <= v < hi
    decreases hi - lo
  {
    if lo < hi {
      InRange(lo, hi - 1, v);
    }
  }

  lemma {:induction false} RangeSize(lo: int, hi: int)
    ensures |Range(lo, hi)| == if lo < hi then hi - lo else 0
    decreases hi - lo
  {
    if lo < hi {
      InRange(lo, hi - 1, hi - 1);
      RangeSize(lo, hi - 1);
    }
  }

  /** The cells of column `x` over the rows `ys`. */
  ghost function Column(x: int, ys: set<int>): set<(int, int)> {
    set y | y in ys :: (x, y)
  }

  lemma {:induction false} ColumnSize(x: int, ys: set<int>)
    ensures |Column(x, ys)| == |ys|
    decreases |ys|
  {
    if ys != {} {
      var y := Pick(ys);
      assert Column(x, ys) == Column(x, ys - {y}) + {(x, y)};
      ColumnSize(x, ys - {y});
    } else {
      assert Column(x, ys) == {};
    }
  }

  lemma {:induction false} ProductSize(xs: set<int>, ys: set<int>)
    ensures |Product(xs, ys)| == |xs| * |ys|
    decreases |xs|
  {
    if xs != {} {
      var x := Pick(xs);
      var rest := xs - {x};
      ProductSplit(xs, ys, x);
      ProductSize(rest, ys);
      ColumnSize(x, ys);
      var n, m := |rest|, |ys|;
      assert |Product(xs, ys)| == n * m + m;
      assert |xs| == n + 1;
      MulSucc(n, m);
    } else {
      assert Product(xs, ys) == {};
    }
  }

  lemma MulSucc(n: int, m: int)
    ensures (n + 1) * m == n * m + m
  {
  }

  /** Taking column `x` off a product leaves a disjoint product. */
  lemma ProductSplit(xs: set<int>, ys: set<int>, x: int)
    requires x in xs
    ensures Product(xs, ys) == Product(xs - {x}, ys) + Column(x, ys)
    ensures Product(xs - {x}, ys) !! Column(x, ys)
  {
    var rest := xs - {x};
    forall p | p in Product(xs, ys)
      ensures p in Product(rest, ys) + Column(x, ys)
    {
      InProduct(xs, ys, p);
      InProduct(rest, ys, p);
      if p.0 == x { assert p == (x, p.1); }
    }
    forall p | p in Product(rest, ys) + Column(x, ys)
      ensures p in Product(xs, ys)
    {
      InProduct(xs, ys, p);
      InProduct(rest, ys, p);
    }
    forall p | p in Product(rest, ys) ensures p !in Column(x, ys) {
      InProduct(rest, ys, p);
    }
  }

  lemma CellsSize(r: Rect)
    ensures |Cells(r)| == Area(r)
  {
    RangeSize(r.left, r.right);
    RangeSize(r.top, r.bottom);
    ProductSize(Range(r.left, r.right), Range(r.top, r.bottom));
  }

  lemma EmptyHasNoCells(r: Rect)
    requires IsEmpty(r)
    ensures Cells(r) == {}
  {
    forall p | p in Cells(r) ensures false { InCells(r, p); }
  }

  lemma IntersectCells(a: Rect, b: Rect)
    ensures Cells(Intersect(a, b)) == Cells(a) * Cells(b)
  {
    forall p ensures p in Cells(Intersect(a, b)) <==> p in Cells(a) * Cells(b) {
      InCells(a, p);
      InCells(b, p);
      InCells(Intersect(a, b), p);
    }
  }

  lemma NonEmptyHasCell(r: Rect)
    requires !IsEmpty(r)
    ensures (r.left, r.top) in Cells(r)
  {
    InCells(r, (r.left, r.top));
  }

  /** Two rectangles overlap exactly when they share a cell. */
  lemma OverlapsIffSharedCell(a: Rect, b: Rect)
    ensures Overlaps(a, b) <==> Cells(a) * Cells(b) != {}
  {
    IntersectCells(a, b);
    var c := Intersect(a, b);
    if IsEmpty(c) {
      EmptyHasNoCells(c);
    } else {
      NonEmptyHasCell(c);
    }
  }

  /** Rectangles that do not overlap share no cell. */
  lemma DisjointCells(a: Rect, b: Rect)
    requires !Overlaps(a, b)
    ensures Cells(a) !! Cells(b)
  {
    IntersectCells(a, b);
    EmptyHasNoCells(Intersect(a, b));
    forall p | p in Cells(a) ensures p !in Cells(b) {
      assert p in Cells(a) * Cells(b) ==> false;
    }
  }

  lemma WithinCells(a: Rect, b: Rect)
    requires Within(a, b)
    ensures Cells(a) <= Cells(b)
  {
    if IsEmpty(a) {
      EmptyHasNoCells(a);
    } else {
      forall p | p in Cells(a) ensures p in Cells(b) {
        InCells(a, p);
        InCells(b, p);
      }
    }
  }

  /** A rectangle inside another has no larger area. */
  lemma AreaWithin(a: Rect, b: Rect)
    requires Within(a, b)
    ensures Area(a) <= Area(b)
  {
    WithinCells(a, b);
    CellsSize(a);
    CellsSize(b);
    assert Cells(b) == Cells(a) + (Cells(b) - Cells(a));
  }

  // ---------------------------------------------------------------------
  // Unions of sequences of rectangles

  lemma InUnionCells(rs: seq<Rect>, p: (int, int))
    ensures p in UnionCells(rs) <==> exists i :: 0 <= i < |rs| && p in Cells(rs[i])
  {
    if |rs| > 0 {
      var init := rs[..|rs| - 1];
      InUnionCells(init, p);
      if p in UnionCells(init) {
        var i :| 0 <= i < |init| && p in Cells(init[i]);
        assert rs[i] == init[i];
      }
      if exists i :: 0 <= i < |rs| && p in Cells(rs[i]) {
        var i :| 0 <= i < |rs| && p in Cells(rs[i]);
        if i < |rs| - 1 { assert init[i] == rs[i]; }
      }
    }
  }

  lemma UnionCellsAppend(a: seq<Rect>, b: seq<Rect>)
    ensures UnionCells(a + b) == UnionCells(a) + UnionCells(b)
  {
    forall p ensures p in UnionCells(a + b) <==> p in UnionCells(a) + UnionCells(b) {
      InUnionCells(a + b, p);
      InUnionCells(a, p);
      InUnionCells(b, p);
      if p in UnionCells(a) {
        var i :| 0 <= i < |a| && p in Cells(a[i]);
        assert (a + b)[i] == a[i];
      }
      if p in UnionCells(b) {
        var i :| 0 <= i < |b| && p in Cells(b[i]);
        assert (a + b)[|a| + i] == b[i];
      }
      if p in UnionCells(a + b) {
        var i :| 0 <= i < |a + b| && p in Cells((a + b)[i]);
        if i >= |a| { assert (a + b)[i] == b[i - |a|]; }
      }
    }
  }

  /** The union of two rectangles. */
  lemma UnionCellsPair(a: Rect, b: Rect)
    ensures UnionCells([a, b]) == Cells(a) + Cells(b)
  {
    assert [a, b][..1] == [a];
    assert [a][..0] == [];
    assert UnionCells([a]) == Cells(a);
  }

  /** The union depends only on which rectangles were united, not on their
      order or on repetitions. */
  lemma UnionCellsSameElements(a: seq<Rect>, b: seq<Rect>)
    requires forall r :: r in a <==> r in b
    ensures UnionCells(a) == UnionCells(b)
  {
    forall p ensures p in UnionCells(a) ==> p in UnionCells(b) {
      InUnionCells(a, p);
      InUnionCells(b, p);
      if p in UnionCells(a) {
        var i :| 0 <= i < |a| && p in Cells(a[i]);
        assert a[i] in b;
      }
    }
    forall p ensures p in UnionCells(b) ==> p in UnionCells(a) {
      InUnionCells(a, p);
      InUnionCells(b, p);
      if p in UnionCells(b) {
        var i :| 0 <= i < |b| && p in Cells(b[i]);
        assert b[i] in a;
      }
    }
  }

  lemma CellsInUnion(rs: seq<Rect>, i: int)
    requires 0 <= i < |rs|
    ensures Cells(rs[i]) <= UnionCells(rs)
  {
    forall p | p in Cells(rs[i]) ensures p in UnionCells(rs) {
      InUnionCells(rs, p);
    }
  }

  /** A rectangle that overlaps none of `rs` shares no cell with their union. */
  lemma ApartFromUnion(rs: seq<Rect>, r: Rect)
    requires forall i :: 0 <= i < |rs| ==> !Overlaps(rs[i], r)
    ensures UnionCells(rs) !! Cells(r)
  {
    forall p | p in UnionCells(rs) ensures p !in Cells(r) {
      InUnionCells(rs, p);
      var i :| 0 <= i < |rs| && p in Cells(rs[i]);
      DisjointCells(rs[i], r);
    }
  }

  /** A union of rectangles inside `v` is no larger than `v`. */
  lemma UnionAreaWithin(rs: seq<Rect>, v: Rect)
    requires forall i :: 0 <= i < |rs| ==> Within(rs[i], v)
    ensures UnionArea(rs) <= Area(v)
  {
    forall p | p in UnionCells(rs) ensures p in Cells(v) {
      InUnionCells(rs, p);
      var i :| 0 <= i < |rs| && p in Cells(rs[i]);
      WithinCells(rs[i], v);
    }
    assert Cells(v) == UnionCells(rs) + (Cells(v) - UnionCells(rs));
    CellsSize(v);
  }
}
