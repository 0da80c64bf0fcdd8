/** The baseline jank region: the rectangles united so far, kept as a
    sequence of pairwise non-overlapping pieces. Uniting a rectangle adds
    only the parts of it that no piece covers yet, so the area of the
    region is the plain sum of the pieces' areas. */
module Region {
  import opened Geometry

  /** No two pieces share a cell. */
  predicate PairwiseDisjoint(ps: seq<Rect>) {
    forall i, j :: 0 <= i < j < |ps| ==> !Overlaps(ps[i], ps[j])
  }

  predicate AllNonEmpty(ps: seq<Rect>) {
    forall i :: 0 <= i < |ps| ==> !IsEmpty(ps[i])
  }

  /** `r` as a list of pieces: empty rectangles are dropped. */
  function Keep(r: Rect): (ps: seq<Rect>)
    ensures AllNonEmpty(ps) && UnionCells(ps) == Cells(r)
  {
    if IsEmpty(r) then
      EmptyHasNoCells(r);
      []
    else
      [r]
  }

  /** The parts of `r` outside `s`: the band of `r` above `s`, the band below
      it, and the parts left and right of `s` within the rows `s` spans. */
  function Subtract(r: Rect, s: Rect): (ps: seq<Rect>)
    ensures UnionCells(ps) == Cells(r) - Cells(s)
    ensures PairwiseDisjoint(ps) && AllNonEmpty(ps)
  {
    if !Overlaps(r, s) then
      DisjointCells(r, s);
      Keep(r)
    else
      var midTop := Max(r.top, s.top);
      var midBottom := Min(r.bottom, s.bottom);
      var above := Rect(r.left, r.top, r.right, s.top);
      var below := Rect(r.left, s.bottom, r.right, r.bottom);
      var left := Rect(r.left, midTop, s.left, midBottom);
      var right := Rect(s.right, midTop, r.right, midBottom);
      SubtractPieces(r, s, above, below, left, right);
      Keep(above) + Keep(below) + Keep(left) + Keep(right)
  }

  lemma SubtractPieces(r: Rect, s: Rect, above: Rect, below: Rect, left: Rect, right: Rect)
    requires Overlaps(r, s)
    requires above == Rect(r.left, r.top, r.right, s.top)
    requires below == Rect(r.left, s.bottom, r.right, r.bottom)
    requires left == Rect(r.left, Max(r.top, s.top), s.left, Min(r.bottom, s.bottom))
    requires right == Rect(s.right, Max(r.top, s.top), r.right, Min(r.bottom, s.bottom))
    ensures UnionCells(Keep(above) + Keep(below) + Keep(left) + Keep(right)) == Cells(r) - Cells(s)
    ensures PairwiseDisjoint(Keep(above) + Keep(below) + Keep(left) + Keep(right))
  {
    var ab := Keep(above) + Keep(below);
    var abl := ab + Keep(left);
    UnionCellsAppend(Keep(above), Keep(below));
    UnionCellsAppend(ab, Keep(left));
    UnionCellsAppend(abl, Keep(right));
    SubtractPiecesCells(r, s, above, below, left, right);
    PiecesApart(r, s, above, below, left, right);
    DisjointCells(above, below);
    DisjointCells(above, left);
    DisjointCells(below, left);
    DisjointCells(above, right);
    DisjointCells(below, right);
    DisjointCells(left, right);
    KeepDisjoint(above, below, left, right);
  }

  /** The four bands of a subtraction lie in different rows or columns. */
  lemma PiecesApart(r: Rect, s: Rect, above: Rect, below: Rect, left: Rect, right: Rect)
    requires Overlaps(r, s)
    requires above == Rect(r.left, r.top, r.right, s.top)
    requires below == Rect(r.left, s.bottom, r.right, r.bottom)
    requires left == Rect(r.left, Max(r.top, s.top), s.left, Min(r.bottom, s.bottom))
    requires right == Rect(s.right, Max(r.top, s.top), r.right, Min(r.bottom, s.bottom))
    ensures !Overlaps(above, below) && !Overlaps(above, left) && !Overlaps(below, left)
    ensures !Overlaps(above, right) && !Overlaps(below, right) && !Overlaps(left, right)
  {
  }

  lemma KeepDisjoint(a: Rect, b: Rect, c: Rect, d: Rect)
    requires Cells(a) !! Cells(b) && Cells(a) !! Cells(c) && Cells(b) !! Cells(c)
    requires Cells(a) !! Cells(d) && Cells(b) !! Cells(d) && Cells(c) !! Cells(d)
    ensures PairwiseDisjoint(Keep(a) + Keep(b) + Keep(c) + Keep(d))
  {
    var ab := Keep(a) + Keep(b);
    var abc := ab + Keep(c);
    UnionCellsAppend(Keep(a), Keep(b));
    UnionCellsAppend(ab, Keep(c));
    DisjointAppend(Keep(a), Keep(b));
    DisjointAppend(ab, Keep(c));
    DisjointAppend(abc, Keep(d));
  }

  lemma SubtractPiecesCells(r: Rect, s: Rect, above: Rect, below: Rect, left: Rect, right: Rect)
    requires Overlaps(r, s)
    requires above == Rect(r.left, r.top, r.right, s.top)
    requires below == Rect(r.left, s.bottom, r.right, r.bottom)
    requires left == Rect(r.left, Max(r.top, s.top), s.left, Min(r.bottom, s.bottom))
    requires right == Rect(s.right, Max(r.top, s.top), r.right, Min(r.bottom, s.bottom))
    ensures Cells(above) + Cells(below) + Cells(left) + Cells(right) == Cells(r) - Cells(s)
  {
    forall p ensures p in Cells(above) + Cells(below) + Cells(left) + Cells(right) <==> p in Cells(r) - Cells(s) {
      InCells(r, p);
      InCells(s, p);
      InCells(above, p);
      InCells(below, p);
      InCells(left, p);
      InCells(right, p);
    }
  }

  /** Every piece of `ps` with the cells of `s` removed. */
  function SubtractAll(ps: seq<Rect>, s: Rect): (qs: seq<Rect>)
    requires PairwiseDisjoint(ps)
    ensures UnionCells(qs) == UnionCells(ps) - Cells(s)
    ensures PairwiseDisjoint(qs) && AllNonEmpty(qs)
  {
    if |ps| == 0 then
      []
    else
      var init := ps[..|ps| - 1];
      var last := ps[|ps| - 1];
      var front := SubtractAll(init, s);
      var back := Subtract(last, s);
      SubtractAllStep(ps, s, front, back);
      front + back
  }

  lemma SubtractAllStep(ps: seq<Rect>, s: Rect, front: seq<Rect>, back: seq<Rect>)
    requires |ps| > 0 && PairwiseDisjoint(ps)
    requires UnionCells(front) == UnionCells(ps[..|ps| - 1]) - Cells(s)
    requires UnionCells(back) == Cells(ps[|ps| - 1]) - Cells(s)
    requires PairwiseDisjoint(front) && PairwiseDisjoint(back)
    requires AllNonEmpty(front) && AllNonEmpty(back)
    ensures UnionCells(front + back) == UnionCells(ps) - Cells(s)
    ensures PairwiseDisjoint(front + back) && AllNonEmpty(front + back)
  {
    var init := ps[..|ps| - 1];
    assert ps == init + [ps[|ps| - 1]];
    ApartFromUnion(init, ps[|ps| - 1]);
    UnionCellsAppend(front, back);
    DisjointAppend(front, back);
  }

  /** Two disjoint lists of pieces whose unions are apart stay disjoint
      when concatenated. */
  lemma DisjointAppend(a: seq<Rect>, b: seq<Rect>)
    requires PairwiseDisjoint(a) && PairwiseDisjoint(b)
    requires UnionCells(a) !! UnionCells(b)
    ensures PairwiseDisjoint(a + b)
  {
    forall i, j | 0 <= i < |a| <= j < |a + b|
      ensures !Overlaps((a + b)[i], (a + b)[j])
    {
      CellsInUnion(a, i);
      CellsInUnion(b, j - |a|);
      OverlapsIffSharedCell(a[i], b[j - |a|]);
    }
  }

  /** The parts of `r` that no piece of `region` covers. */
  function Remainder(r: Rect, region: seq<Rect>): (qs: seq<Rect>)
    ensures UnionCells(qs) == Cells(r) - UnionCells(region)
    ensures PairwiseDisjoint(qs) && AllNonEmpty(qs)
  {
    if |region| == 0 then
      Keep(r)
    else
      SubtractAll(Remainder(r, region[..|region| - 1]), region[|region| - 1])
  }

  /** Region::Unite: add the uncovered parts of `r` as new pieces. What
      the result covers is stated by UniteCells. */
  function Unite(region: seq<Rect>, r: Rect): (result: seq<Rect>)
    requires PairwiseDisjoint(region)
    ensures PairwiseDisjoint(result)
  {
    var rest := Remainder(r, region);
    DisjointAppend(region, rest);
    region + rest
  }

  /** Uniting covers exactly the old cells plus those of `r`. */
  lemma UniteCells(region: seq<Rect>, r: Rect)
    requires PairwiseDisjoint(region)
    ensures UnionCells(Unite(region, r)) == UnionCells(region) + Cells(r)
  {
    UnionCellsAppend(region, Remainder(r, region));
  }

  /** Uniting never splits or drops an existing piece: the new pieces go
      after the old ones. */
  lemma UniteKeepsPieces(region: seq<Rect>, r: Rect)
    requires PairwiseDisjoint(region)
    ensures region <= Unite(region, r)
    ensures forall k :: 0 <= k < |region| ==> Unite(region, r)[k] == region[k]
  {
  }

  /** Uniting a non-empty rectangle into the empty region gives that
      rectangle as the only piece. */
  lemma UniteIntoEmpty(r: Rect)
    requires !IsEmpty(r)
    ensures Unite([], r) == [r]
  {
  }

  /** The region built by uniting `rs` in order into an empty region. */
  function RegionOf(rs: seq<Rect>): (region: seq<Rect>)
    ensures PairwiseDisjoint(region)
    ensures UnionCells(region) == UnionCells(rs)
  {
    if |rs| == 0 then []
    else
      var prev := RegionOf(rs[..|rs| - 1]);
      UniteCells(prev, rs[|rs| - 1]);
      Unite(prev, rs[|rs| - 1])
  }

  /** Region::Area: the sum of the pieces' areas. */
  function RegionArea(region: seq<Rect>): nat {
    if |region| == 0 then 0 else RegionArea(region[..|region| - 1]) + Area(region[|region| - 1])
  }

  /** For disjoint pieces the summed area is the area of their union: no
      cell is counted twice. */
  lemma {:induction false} RegionAreaIsUnionArea(region: seq<Rect>)
    requires PairwiseDisjoint(region)
    ensures RegionArea(region) == UnionArea(region)
  {
    if |region| > 0 {
      var init := region[..|region| - 1];
      var last := region[|region| - 1];
      RegionAreaIsUnionArea(init);
      ApartFromUnion(init, last);
      CellsSize(last);
    }
  }

  /** The area of the region built from `rs` is the area of the union of
      `rs`. */
  lemma RegionOfArea(rs: seq<Rect>)
    ensures RegionArea(RegionOf(rs)) == UnionArea(rs)
  {
    RegionAreaIsUnionArea(RegionOf(rs));
  }

  /** Uniting in any order, with any repetitions, gives the same area. */
  lemma RegionAreaOrderIndependent(a: seq<Rect>, b: seq<Rect>)
    requires forall r :: r in a <==> r in b
    ensures RegionArea(RegionOf(a)) == RegionArea(RegionOf(b))
  {
    RegionOfArea(a);
    RegionOfArea(b);
    UnionCellsSameElements(a, b);
  }

  /** Non-empty pieces with no cells at all: there are none. */
  lemma NoCellsNoPieces(ps: seq<Rect>)
    requires AllNonEmpty(ps) && UnionCells(ps) == {}
    ensures ps == []
  {
    if |ps| > 0 {
      NonEmptyHasCell(ps[0]);
      CellsInUnion(ps, 0);
      assert false;
    }
  }

  /** Uniting a rectangle the region already covers changes nothing. */
  lemma UniteCoveredIsNoOp(region: seq<Rect>, r: Rect)
    requires PairwiseDisjoint(region)
    requires Cells(r) <= UnionCells(region)
    ensures Unite(region, r) == region
  {
    NoCellsNoPieces(Remainder(r, region));
  }

  /** Uniting an empty (or malformed) rectangle changes nothing. */
  lemma UniteEmptyIsNoOp(region: seq<Rect>, r: Rect)
    requires PairwiseDisjoint(region)
    requires IsEmpty(r)
    ensures Unite(region, r) == region
  {
    EmptyHasNoCells(r);
    UniteCoveredIsNoOp(region, r);
  }

  /** Uniting the same rectangle twice is the same as uniting it once. */
  lemma UniteIdempotent(region: seq<Rect>, r: Rect)
    requires PairwiseDisjoint(region)
    ensures Unite(Unite(region, r), r) == Unite(region, r)
  {
    UniteCells(region, r);
    UniteCoveredIsNoOp(Unite(region, r), r);
  }
}
