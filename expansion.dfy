/**
 * The shift-based expansion of a distributed field along one partitioned dimension: the
 * interior slices are inserted at `depth + x`, the high slices of the field shifted by
 * `+depth` above the interior and the low slices of the field shifted by `-depth` below it.
 * Every rank does the same insertions, so a field is handled as the sequence of its ranks.
 */
module Expansion {
  import opened Lexicographic
  import opened Geometry
  import opened Marshal
  import opened Coordinates
  import opened Region
  import opened Decomposition
  import opened Transport
  import opened FaceExchange

  /** `Lattice<vobj> f(grid)` on every rank: a distributed field of the grid's shape, contents unspecified. */
  method NewField<T(0)>(g: Grid) returns (fs: seq<seq<seq<T>>>)
    requires g.WellFormed()
    ensures Distributed(fs, g)
  {
    var f := NewLattice<T>(g);
    fs := seq(NRanks(g), _ => f);
  }

  /** `InsertSliceLocal(from, to, x, y, dim)` on every rank. */
  function InsertAll<T>(from: seq<seq<seq<T>>>, g: Grid, to: seq<seq<seq<T>>>, ng: Grid, x: nat, y: nat, dim: nat)
    : (out: seq<seq<seq<T>>>)
    requires SameFace(g, ng, dim) && Distributed(from, g) && Distributed(to, ng)
    requires x < g.ldims[dim] && y < ng.ldims[dim]
    ensures Distributed(out, ng)
  {
    seq(|to|, q requires 0 <= q < |to| => InsertSliceLocal(from[q], g, to[q], ng, x, y, dim))
  }

  /** Slice insertion sets the target slice of every rank and keeps the others. */
  lemma InsertAllSlice<T>(from: seq<seq<seq<T>>>, g: Grid, to: seq<seq<seq<T>>>, ng: Grid, x: nat, y: nat, dim: nat, q: nat, p: nat)
    requires SameFace(g, ng, dim) && Distributed(from, g) && Distributed(to, ng)
    requires x < g.ldims[dim] && y < ng.ldims[dim] && q < |to| && p < ng.ldims[dim]
    ensures p == y ==> SliceOf(InsertAll(from, g, to, ng, x, y, dim)[q], ng, dim, p) == SliceOf(from[q], g, dim, x)
    ensures p != y ==> SliceOf(InsertAll(from, g, to, ng, x, y, dim)[q], ng, dim, p) == SliceOf(to[q], ng, dim, p)
  {
    FaceAgree(g, ng, dim);
    ScatterSets(to[q], SliceOf(from[q], g, dim, x), ng, dim, y, p);
  }

  /** Slices `src .. src+n-1` of `from` inserted one after the other at slices `dst .. dst+n-1` of `to`. */
  function InsertedRange<T>(from: seq<seq<seq<T>>>, g: Grid, to: seq<seq<seq<T>>>, ng: Grid, dim: nat, src: nat, dst: nat, n: nat)
    : (out: seq<seq<seq<T>>>)
    requires SameFace(g, ng, dim) && Distributed(from, g) && Distributed(to, ng)
    requires src + n <= g.ldims[dim] && dst + n <= ng.ldims[dim]
    ensures Distributed(out, ng)
  {
    if n == 0 then to
    else InsertAll(from, g, InsertedRange(from, g, to, ng, dim, src, dst, n - 1), ng, src + n - 1, dst + n - 1, dim)
  }

  /** After the insertion, slices `dst .. dst+n-1` of every rank are slices `src .. src+n-1` of `from`. */
  lemma {:induction false} InsertedRangeInside<T>(from: seq<seq<seq<T>>>, g: Grid, to: seq<seq<seq<T>>>, ng: Grid, dim: nat, src: nat, dst: nat, n: nat, q: nat, p: nat, x: nat)
    requires SameFace(g, ng, dim) && Distributed(from, g) && Distributed(to, ng)
    requires src + n <= g.ldims[dim] && dst + n <= ng.ldims[dim] && q < |to| && dst <= p < dst + n && x == src + (p - dst)
    ensures SliceOf(InsertedRange(from, g, to, ng, dim, src, dst, n)[q], ng, dim, p) == SliceOf(from[q], g, dim, x)
  {
    InsertedRangeLast(from, g, to, ng, dim, src, dst, n, q, p);
    if p != dst + n - 1 {
      InsertedRangeInside(from, g, to, ng, dim, src, dst, n - 1, q, p, x);
    }
  }

  /** The last insertion of a range sets slice `dst + n - 1` and keeps the others. */
  lemma InsertedRangeLast<T>(from: seq<seq<seq<T>>>, g: Grid, to: seq<seq<seq<T>>>, ng: Grid, dim: nat, src: nat, dst: nat, n: nat, q: nat, p: nat)
    requires SameFace(g, ng, dim) && Distributed(from, g) && Distributed(to, ng)
    requires src + n <= g.ldims[dim] && dst + n <= ng.ldims[dim] && q < |to| && p < ng.ldims[dim] && n > 0
    ensures p == dst + n - 1 ==>
      SliceOf(InsertedRange(from, g, to, ng, dim, src, dst, n)[q], ng, dim, p) == SliceOf(from[q], g, dim, src + n - 1)
    ensures p != dst + n - 1 ==>
      SliceOf(InsertedRange(from, g, to, ng, dim, src, dst, n)[q], ng, dim, p)
        == SliceOf(InsertedRange(from, g, to, ng, dim, src, dst, n - 1)[q], ng, dim, p)
  {
    var prev := InsertedRange(from, g, to, ng, dim, src, dst, n - 1);
    InsertAllSlice(from, g, prev, ng, src + n - 1, dst + n - 1, dim, q, p);
  }

  /** Slices outside `dst .. dst+n-1` keep the slices of `to`. */
  lemma {:induction false} InsertedRangeOutside<T>(from: seq<seq<seq<T>>>, g: Grid, to: seq<seq<seq<T>>>, ng: Grid, dim: nat, src: nat, dst: nat, n: nat, q: nat, p: nat)
    requires SameFace(g, ng, dim) && Distributed(from, g) && Distributed(to, ng)
    requires src + n <= g.ldims[dim] && dst + n <= ng.ldims[dim] && q < |to| && p < ng.ldims[dim] && !(dst <= p < dst + n)
    ensures SliceOf(InsertedRange(from, g, to, ng, dim, src, dst, n)[q], ng, dim, p) == SliceOf(to[q], ng, dim, p)
  {
    if n > 0 {
      InsertedRangeLast(from, g, to, ng, dim, src, dst, n, q, p);
      InsertedRangeOutside(from, g, to, ng, dim, src, dst, n - 1, q, p);
    }
  }

  /** Insert slices `src .. src+n-1` of `from` at slices `dst .. dst+n-1` of `to` on every rank, one slice at a time. */
  method InsertRange<T>(from: seq<seq<seq<T>>>, g: Grid, to: seq<seq<seq<T>>>, ng: Grid, dim: nat, src: nat, dst: nat, n: nat)
    returns (out: seq<seq<seq<T>>>)
    requires SameFace(g, ng, dim) && Distributed(from, g) && Distributed(to, ng)
    requires src + n <= g.ldims[dim] && dst + n <= ng.ldims[dim]
    ensures out == InsertedRange(from, g, to, ng, dim, src, dst, n)
  {
    out := to;
    for x := 0 to n
      invariant out == InsertedRange(from, g, to, ng, dim, src, dst, x)
    {
      out := InsertAll(from, g, out, ng, src + x, dst + x, dim);
    }
  }

  // ---------------------------------------------------------------------------------------
  // Slices of a shifted field.
  // ---------------------------------------------------------------------------------------

  lemma CshiftSliceElem<T>(fs: seq<seq<seq<T>>>, g: Grid, dim: nat, s: int, r: nat, x: nat, j: nat)
    requires Distributed(fs, g) && dim < g.Nd() && r < NRanks(g) && x < g.ldims[dim] && j < SliceWords(g, dim)
    ensures SliceOf(Cshift(fs, g, dim, s)[r], g, dim, x)[j]
      == SliceOf(fs[RowRank(g, r, dim, Position(g, r, dim, x) + s)], g, dim, RowLocal(g, dim, Position(g, r, dim, x) + s))[j]
  {
    var t := Position(g, r, dim, x) + s;
    var out, src, y := Cshift(fs, g, dim, s)[r], fs[RowRank(g, r, dim, t)], RowLocal(g, dim, t);
    SliceElemValue(out, g, dim, x, j);
    var c := FaceCoorAt(g, dim, j)[dim := x];
    CshiftLocal(fs, g, dim, s, r, c);
    SliceElemValue(src, g, dim, y, j);
    assert c[dim := y] == FaceCoorAt(g, dim, j)[dim := y];
  }

  /** Slice `x` of rank `r` of the shifted field is the input slice at row position `Position(r, x) + s`, cyclically. */
  lemma CshiftSlice<T>(fs: seq<seq<seq<T>>>, g: Grid, dim: nat, s: int, r: nat, x: nat)
    requires Distributed(fs, g) && dim < g.Nd() && r < NRanks(g) && x < g.ldims[dim]
    ensures SliceOf(Cshift(fs, g, dim, s)[r], g, dim, x)
      == SliceOf(fs[RowRank(g, r, dim, Position(g, r, dim, x) + s)], g, dim, RowLocal(g, dim, Position(g, r, dim, x) + s))
  {
    var t := Position(g, r, dim, x) + s;
    forall j | 0 <= j < SliceWords(g, dim)
      ensures SliceOf(Cshift(fs, g, dim, s)[r], g, dim, x)[j] == SliceOf(fs[RowRank(g, r, dim, t)], g, dim, RowLocal(g, dim, t))[j]
    {
      CshiftSliceElem(fs, g, dim, s, r, x, j);
    }
  }

  /** Shifted by `+depth`, high slice `ld - depth + x` of rank `r` is low slice `x` of the upper neighbour. */
  lemma CshiftHigh<T>(fs: seq<seq<seq<T>>>, g: Grid, dim: nat, depth: nat, r: nat, x: nat)
    requires Distributed(fs, g) && dim < g.Nd() && r < NRanks(g) && x < depth <= g.ldims[dim]
    ensures SliceOf(Cshift(fs, g, dim, depth)[r], g, dim, g.ldims[dim] - depth + x)
      == SliceOf(fs[ShiftedRanks(g, r, dim, 1).1], g, dim, x)
  {
    var ld := g.ldims[dim];
    var t := Position(g, r, dim, ld - depth + x) + depth;
    CshiftSlice(fs, g, dim, depth, r, ld - depth + x);
    FetchNeighbour(g, r, dim, x, 1, t);
    assert RowRank(g, r, dim, t) == ShiftedRanks(g, r, dim, 1).1;
  }

  /** Shifted by `-depth`, low slice `x` of rank `r` is high slice `ld - depth + x` of the lower neighbour. */
  lemma CshiftLow<T>(fs: seq<seq<seq<T>>>, g: Grid, dim: nat, depth: nat, r: nat, x: nat)
    requires Distributed(fs, g) && dim < g.Nd() && r < NRanks(g) && x < depth <= g.ldims[dim]
    ensures SliceOf(Cshift(fs, g, dim, -(depth as int))[r], g, dim, x)
      == SliceOf(fs[ShiftedRanks(g, r, dim, 1).0], g, dim, g.ldims[dim] - depth + x)
  {
    var ld := g.ldims[dim];
    var t := Position(g, r, dim, x) - depth;
    CshiftSlice(fs, g, dim, -(depth as int), r, x);
    FetchNeighbour(g, r, dim, ld - depth + x, -1, t);
    assert RowRank(g, r, dim, t) == ShiftedRanks(g, r, dim, 1).0;
  }

  /**
   * The slice the shift path inserts at padded slice `p` of rank `q`: the `-depth`-shifted
   * field below `depth`, the input in the middle, the `+depth`-shifted field above.
   */
  function InsertedSlice<T>(fs: seq<seq<seq<T>>>, g: Grid, dim: nat, depth: nat, q: nat, p: nat): seq<T>
    requires Distributed(fs, g) && dim < g.Nd() && depth <= g.ldims[dim] && q < |fs| && p < g.ldims[dim] + 2 * depth
  {
    if p < depth then SliceOf(Cshift(fs, g, dim, -(depth as int))[q], g, dim, p)
    else if p < depth + g.ldims[dim] then SliceOf(fs[q], g, dim, p - depth)
    else SliceOf(Cshift(fs, g, dim, depth)[q], g, dim, p - 2 * depth)
  }

  /** Below `depth`, the inserted slice is the lower neighbour's high slice. */
  lemma InsertedLow<T>(fs: seq<seq<seq<T>>>, g: Grid, dim: nat, depth: nat, q: nat, p: nat)
    requires Distributed(fs, g) && dim < g.Nd() && depth <= g.ldims[dim] && q < |fs| && p < depth
    ensures InsertedSlice(fs, g, dim, depth, q, p) == NeighbourSlice(fs, g, dim, depth, q, p)
  {
    var ld := g.ldims[dim];
    var ranks := ShiftedRanks(g, q, dim, 1);
    assert InsertedSlice(fs, g, dim, depth, q, p) == SliceOf(Cshift(fs, g, dim, -(depth as int))[q], g, dim, p);
    assert NeighbourSlice(fs, g, dim, depth, q, p) == SliceOf(fs[ranks.0], g, dim, ld - depth + p);
    CshiftLow(fs, g, dim, depth, q, p);
  }

  /** Above the interior, the inserted slice is the upper neighbour's low slice. */
  lemma InsertedHigh<T>(fs: seq<seq<seq<T>>>, g: Grid, dim: nat, depth: nat, q: nat, p: nat)
    requires Distributed(fs, g) && dim < g.Nd() && depth <= g.ldims[dim] && q < |fs|
    requires depth + g.ldims[dim] <= p < g.ldims[dim] + 2 * depth
    ensures InsertedSlice(fs, g, dim, depth, q, p) == NeighbourSlice(fs, g, dim, depth, q, p)
  {
    var ld := g.ldims[dim];
    var ranks := ShiftedRanks(g, q, dim, 1);
    var x := p - depth - ld;
    assert ld - depth + x == p - 2 * depth;
    assert InsertedSlice(fs, g, dim, depth, q, p) == SliceOf(Cshift(fs, g, dim, depth)[q], g, dim, ld - depth + x);
    assert NeighbourSlice(fs, g, dim, depth, q, p) == SliceOf(fs[ranks.1], g, dim, x);
    CshiftHigh(fs, g, dim, depth, q, x);
  }

  /** Every inserted slice is the slice the neighbours (or the rank itself) hold there. */
  lemma InsertedIsNeighbour<T>(fs: seq<seq<seq<T>>>, g: Grid, dim: nat, depth: nat, q: nat, p: nat)
    requires Distributed(fs, g) && dim < g.Nd() && depth <= g.ldims[dim] && q < |fs| && p < g.ldims[dim] + 2 * depth
    ensures InsertedSlice(fs, g, dim, depth, q, p) == NeighbourSlice(fs, g, dim, depth, q, p)
  {
    if p < depth {
      InsertedLow(fs, g, dim, depth, q, p);
    } else if p >= depth + g.ldims[dim] {
      InsertedHigh(fs, g, dim, depth, q, p);
    }
  }

  /** A field whose every slice is the inserted slice is the padded field. */
  lemma InsertedIsPadded<T>(fs: seq<seq<seq<T>>>, g: Grid, ng: Grid, dim: nat, depth: nat, out: seq<seq<seq<T>>>)
    requires Distributed(fs, g) && PaddedAlong(g, ng, dim, depth) && depth <= g.ldims[dim] && Distributed(out, ng)
    requires forall q, p :: 0 <= q < |out| && 0 <= p < ng.ldims[dim] ==>
      SliceOf(out[q], ng, dim, p) == InsertedSlice(fs, g, dim, depth, q, p)
    ensures out == Padded(fs, g, ng, dim, depth)
  {
    var padded := Padded(fs, g, ng, dim, depth);
    forall q | 0 <= q < |out| ensures out[q] == padded[q] {
      forall p | 0 <= p < ng.ldims[dim] ensures SliceOf(out[q], ng, dim, p) == NeighbourSlice(fs, g, dim, depth, q, p) {
        InsertedIsNeighbour(fs, g, dim, depth, q, p);
      }
      RankPadded(fs, g, ng, dim, depth, q, out[q]);
    }
  }

  // ---------------------------------------------------------------------------------------
  // The shift path of Expand.
  // ---------------------------------------------------------------------------------------

  /** The first insertion of the shift path: the interior at slices `depth .. depth+ld-1` of `init`. */
  function MiddleInserted<T>(fs: seq<seq<seq<T>>>, g: Grid, ng: Grid, dim: nat, depth: nat, init: seq<seq<seq<T>>>): (out: seq<seq<seq<T>>>)
    requires Distributed(fs, g) && PaddedAlong(g, ng, dim, depth) && depth <= g.ldims[dim] && Distributed(init, ng)
    ensures Distributed(out, ng)
  {
    InsertedRange(fs, g, init, ng, dim, 0, depth, g.ldims[dim])
  }

  /** The second insertion: the high slices of the `+depth` shift above the interior. */
  function HighInserted<T>(fs: seq<seq<seq<T>>>, g: Grid, ng: Grid, dim: nat, depth: nat, init: seq<seq<seq<T>>>): (out: seq<seq<seq<T>>>)
    requires Distributed(fs, g) && PaddedAlong(g, ng, dim, depth) && depth <= g.ldims[dim] && Distributed(init, ng)
    ensures Distributed(out, ng)
  {
    var ld := g.ldims[dim];
    InsertedRange(Cshift(fs, g, dim, depth), g, MiddleInserted(fs, g, ng, dim, depth, init), ng, dim, ld - depth, depth + ld, depth)
  }

  /**
   * The three insertions of the shift path, made into `init`: the interior at `depth .. depth+ld-1`,
   * the high slices of the `+depth` shift at `depth+ld ..`, the low slices of the `-depth` shift at `0 ..`.
   */
  function ShiftExpanded<T>(fs: seq<seq<seq<T>>>, g: Grid, ng: Grid, dim: nat, depth: nat, init: seq<seq<seq<T>>>): (out: seq<seq<seq<T>>>)
    requires Distributed(fs, g) && PaddedAlong(g, ng, dim, depth) && depth <= g.ldims[dim] && Distributed(init, ng)
    ensures Distributed(out, ng)
  {
    InsertedRange(Cshift(fs, g, dim, -(depth as int)), g, HighInserted(fs, g, ng, dim, depth, init), ng, dim, 0, 0, depth)
  }

  lemma MiddleLayer<T>(fs: seq<seq<seq<T>>>, g: Grid, ng: Grid, dim: nat, depth: nat, init: seq<seq<seq<T>>>, q: nat, p: nat)
    requires Distributed(fs, g) && PaddedAlong(g, ng, dim, depth) && depth <= g.ldims[dim] && Distributed(init, ng)
    requires q < |init| && depth <= p < depth + g.ldims[dim]
    ensures SliceOf(MiddleInserted(fs, g, ng, dim, depth, init)[q], ng, dim, p) == SliceOf(fs[q], g, dim, p - depth)
  {
    InsertedRangeInside(fs, g, init, ng, dim, 0, depth, g.ldims[dim], q, p, p - depth);
  }

  lemma HighLayerAbove<T>(fs: seq<seq<seq<T>>>, g: Grid, ng: Grid, dim: nat, depth: nat, init: seq<seq<seq<T>>>, q: nat, p: nat)
    requires Distributed(fs, g) && PaddedAlong(g, ng, dim, depth) && depth <= g.ldims[dim] && Distributed(init, ng)
    requires q < |init| && depth + g.ldims[dim] <= p < ng.ldims[dim]
    ensures SliceOf(HighInserted(fs, g, ng, dim, depth, init)[q], ng, dim, p) == SliceOf(Cshift(fs, g, dim, depth)[q], g, dim, p - 2 * depth)
  {
    InsertedAbove(Cshift(fs, g, dim, depth), g, MiddleInserted(fs, g, ng, dim, depth, init), ng, dim, depth, q, p);
  }

  /** Slices above the interior come from the high slices of `up`, whatever `up` holds. */
  lemma InsertedAbove<T>(up: seq<seq<seq<T>>>, g: Grid, middle: seq<seq<seq<T>>>, ng: Grid, dim: nat, depth: nat, q: nat, p: nat)
    requires Distributed(up, g) && PaddedAlong(g, ng, dim, depth) && depth <= g.ldims[dim] && Distributed(middle, ng)
    requires q < |middle| && depth + g.ldims[dim] <= p < ng.ldims[dim]
    ensures SliceOf(InsertedRange(up, g, middle, ng, dim, g.ldims[dim] - depth, depth + g.ldims[dim], depth)[q], ng, dim, p)
      == SliceOf(up[q], g, dim, p - 2 * depth)
  {
    var ld := g.ldims[dim];
    InsertedRangeInside(up, g, middle, ng, dim, ld - depth, depth + ld, depth, q, p, p - 2 * depth);
  }

  lemma HighLayerBelow<T>(fs: seq<seq<seq<T>>>, g: Grid, ng: Grid, dim: nat, depth: nat, init: seq<seq<seq<T>>>, q: nat, p: nat)
    requires Distributed(fs, g) && PaddedAlong(g, ng, dim, depth) && depth <= g.ldims[dim] && Distributed(init, ng)
    requires q < |init| && p < depth + g.ldims[dim]
    ensures SliceOf(HighInserted(fs, g, ng, dim, depth, init)[q], ng, dim, p) == SliceOf(MiddleInserted(fs, g, ng, dim, depth, init)[q], ng, dim, p)
  {
    var ld := g.ldims[dim];
    InsertedRangeOutside(Cshift(fs, g, dim, depth), g, MiddleInserted(fs, g, ng, dim, depth, init), ng, dim, ld - depth, depth + ld, depth, q, p);
  }

  lemma LowLayer<T>(fs: seq<seq<seq<T>>>, g: Grid, ng: Grid, dim: nat, depth: nat, init: seq<seq<seq<T>>>, q: nat, p: nat)
    requires Distributed(fs, g) && PaddedAlong(g, ng, dim, depth) && depth <= g.ldims[dim] && Distributed(init, ng)
    requires q < |init| && p < ng.ldims[dim]
    ensures p < depth ==>
      SliceOf(ShiftExpanded(fs, g, ng, dim, depth, init)[q], ng, dim, p) == SliceOf(Cshift(fs, g, dim, -(depth as int))[q], g, dim, p)
    ensures depth <= p ==>
      SliceOf(ShiftExpanded(fs, g, ng, dim, depth, init)[q], ng, dim, p) == SliceOf(HighInserted(fs, g, ng, dim, depth, init)[q], ng, dim, p)
  {
    var high := HighInserted(fs, g, ng, dim, depth, init);
    if p < depth {
      InsertedRangeInside(Cshift(fs, g, dim, -(depth as int)), g, high, ng, dim, 0, 0, depth, q, p, p);
    } else {
      InsertedRangeOutside(Cshift(fs, g, dim, -(depth as int)), g, high, ng, dim, 0, 0, depth, q, p);
    }
  }

  /** Every slice the shift path leaves is the inserted slice. */
  lemma ShiftExpandedSlice<T>(fs: seq<seq<seq<T>>>, g: Grid, ng: Grid, dim: nat, depth: nat, init: seq<seq<seq<T>>>, q: nat, p: nat)
    requires Distributed(fs, g) && PaddedAlong(g, ng, dim, depth) && depth <= g.ldims[dim] && Distributed(init, ng)
    requires q < |init| && p < ng.ldims[dim]
    ensures SliceOf(ShiftExpanded(fs, g, ng, dim, depth, init)[q], ng, dim, p) == InsertedSlice(fs, g, dim, depth, q, p)
  {
    LowLayer(fs, g, ng, dim, depth, init, q, p);
    if depth + g.ldims[dim] <= p {
      HighLayerAbove(fs, g, ng, dim, depth, init, q, p);
    } else if depth <= p {
      HighLayerBelow(fs, g, ng, dim, depth, init, q, p);
      MiddleLayer(fs, g, ng, dim, depth, init, q, p);
    }
  }

  /**
   * The shift path computes the padded field, whatever the field it inserts into held:
   * padded local position `q` of the rank at process coordinate `k` holds the input at global
   * position `k*ld + q - depth`, cyclically.
   */
  lemma ShiftExpandedIsPadded<T>(fs: seq<seq<seq<T>>>, g: Grid, ng: Grid, dim: nat, depth: nat, init: seq<seq<seq<T>>>)
    requires Distributed(fs, g) && PaddedAlong(g, ng, dim, depth) && depth <= g.ldims[dim] && Distributed(init, ng)
    ensures ShiftExpanded(fs, g, ng, dim, depth, init) == Padded(fs, g, ng, dim, depth)
  {
    var out := ShiftExpanded(fs, g, ng, dim, depth, init);
    forall q, p | 0 <= q < |out| && 0 <= p < ng.ldims[dim]
      ensures SliceOf(out[q], ng, dim, p) == InsertedSlice(fs, g, dim, depth, q, p)
    {
      ShiftExpandedSlice(fs, g, ng, dim, depth, init, q, p);
    }
    InsertedIsPadded(fs, g, ng, dim, depth, out);
  }
}
