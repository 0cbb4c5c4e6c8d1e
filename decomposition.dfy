/**
 * A field distributed over the processes of a periodic Cartesian process grid. Rank `r`
 * sits at process coordinate `CoorFromIndex(r, processors)` and holds the block of global
 * sites whose coordinate along `k` is `pc[k]*ldims[k] + c[k]` for local coordinates `c`.
 * This module defines the global view of such a field, the periodic shift (Grid's Cshift,
 * the operation behind CshiftImplDefault) and the padded field that halo expansion along
 * one dimension is meant to produce.
 */
module Decomposition {
  import opened Arith
  import opened Lexicographic
  import opened Geometry
  import opened Marshal
  import opened Coordinates

  /** Number of processes. */
  function NRanks(g: Grid): nat { Volume(g.processors) }

  /** The process coordinate of rank `r`. */
  function RankCoor(g: Grid, r: nat): (pc: seq<nat>)
    requires g.WellFormed()
    ensures |pc| == g.Nd()
  {
    CoorFromIndex(r, g.processors)
  }

  /** The rank of process coordinate `pc`. */
  function RankOf(g: Grid, pc: seq<nat>): (r: nat)
    requires g.WellFormed() && InRange(pc, g.processors)
    ensures r < NRanks(g)
  {
    IndexInRange(pc, g.processors);
    IndexFromCoor(pc, g.processors)
  }

  /** Rank numbering and process coordinates are inverse to each other. */
  lemma RankCoorInverse(g: Grid, r: nat)
    requires g.WellFormed() && r < NRanks(g)
    ensures InRange(RankCoor(g, r), g.processors) && RankOf(g, RankCoor(g, r)) == r
  {
    CoorInRange(r, g.processors);
    IndexOfCoor(r, g.processors);
  }

  lemma RankOfInverse(g: Grid, pc: seq<nat>)
    requires g.WellFormed() && InRange(pc, g.processors)
    ensures RankCoor(g, RankOf(g, pc)) == pc
  {
    CoorOfIndex(pc, g.processors);
  }

  /** The rank in the same row along `dim` as rank `r`, at position `q` of the row. */
  function MoveRank(g: Grid, r: nat, dim: nat, q: nat): (r': nat)
    requires g.WellFormed() && dim < g.Nd() && r < NRanks(g) && q < g.processors[dim]
    ensures r' < NRanks(g)
  {
    RankCoorInverse(g, r);
    RankOf(g, RankCoor(g, r)[dim := q])
  }

  /** The rank `MoveRank` reaches sits at the coordinate of `r` with `q` along `dim`. */
  lemma MoveRankCoor(g: Grid, r: nat, dim: nat, q: nat)
    requires g.WellFormed() && dim < g.Nd() && r < NRanks(g) && q < g.processors[dim]
    ensures RankCoor(g, MoveRank(g, r, dim, q)) == RankCoor(g, r)[dim := q]
  {
    RankCoorInverse(g, r);
    RankOfInverse(g, RankCoor(g, r)[dim := q]);
  }

  /** A field distributed over all ranks of `g`, each holding a field stored on `g`. */
  predicate Distributed<T>(fs: seq<seq<seq<T>>>, g: Grid)
  {
    g.WellFormed() && |fs| == NRanks(g) && forall r :: 0 <= r < |fs| ==> Conforms(fs[r], g)
  }

  /** A coordinate that is local to `g` in every dimension except possibly `dim`. */
  predicate OffDim(c: seq<nat>, g: Grid, dim: nat)
  {
    |c| == g.Nd() && forall k :: 0 <= k < |c| && k != dim ==> c[k] < g.ldims[k]
  }

  /** Position `t` along `dim`, taken cyclically over the global extent `P*ld`. */
  function Wrap(g: Grid, dim: nat, t: int): (w: nat)
    requires g.WellFormed() && dim < g.Nd()
    ensures w < g.processors[dim] * g.ldims[dim]
    ensures w / g.ldims[dim] < g.processors[dim]
  {
    var P, ld := g.processors[dim], g.ldims[dim];
    MulPositive(P, ld);
    DivBound(t % (P * ld), ld, P);
    t % (P * ld)
  }

  /** The rank of the row through `r` that holds position `t` along `dim`. */
  function RowRank(g: Grid, r: nat, dim: nat, t: int): (r': nat)
    requires g.WellFormed() && dim < g.Nd() && r < NRanks(g)
    ensures r' < NRanks(g)
  {
    MoveRank(g, r, dim, Wrap(g, dim, t) / g.ldims[dim])
  }

  /** The local position, on its rank, of position `t` along `dim`. */
  function RowLocal(g: Grid, dim: nat, t: int): (x: nat)
    requires g.WellFormed() && dim < g.Nd()
    ensures x < g.ldims[dim]
  {
    Wrap(g, dim, t) % g.ldims[dim]
  }

  /**
   * The site at position `t` (taken cyclically) along `dim` of the row of ranks through `r`,
   * with the coordinates of `c` in the other dimensions.
   */
  function Fetch<T>(fs: seq<seq<seq<T>>>, g: Grid, dim: nat, r: nat, c: seq<nat>, t: int): T
    requires Distributed(fs, g) && dim < g.Nd() && r < NRanks(g) && OffDim(c, g, dim)
  {
    Value(fs[RowRank(g, r, dim, t)], g, c[dim := RowLocal(g, dim, t)])
  }

  /** Global position along `dim` of local position `x` of rank `r`. */
  function Position(g: Grid, r: nat, dim: nat, x: nat): nat
    requires g.WellFormed() && dim < g.Nd()
  {
    RankCoor(g, r)[dim] * g.ldims[dim] + x
  }

  /** Position `t = Position(r, x)` lies in the row segment of rank `r` itself, at `x`. */
  lemma RowOwn(g: Grid, r: nat, dim: nat, x: nat, t: int)
    requires g.WellFormed() && dim < g.Nd() && r < NRanks(g) && x < g.ldims[dim] && t == Position(g, r, dim, x)
    ensures RowRank(g, r, dim, t) == r && RowLocal(g, dim, t) == x
  {
    var P, ld := g.processors[dim], g.ldims[dim];
    RankCoorInverse(g, r);
    var q := RankCoor(g, r)[dim];
    MixedBound(x, ld, q, P);
    MulPositive(P, ld);
    assert t < P * ld by { assert ld * P == P * ld && q * ld == ld * q; }
    DivModUnique(t, P * ld, 0, t);
    DivModUnique(t, ld, q, x);
    assert RankCoor(g, r)[dim := q] == RankCoor(g, r);
  }

  /** Inside the row segment of rank `r`, fetching is reading rank `r`'s own field. */
  lemma FetchOwn<T>(fs: seq<seq<seq<T>>>, g: Grid, dim: nat, r: nat, c: seq<nat>, x: nat)
    requires Distributed(fs, g) && dim < g.Nd() && r < NRanks(g) && OffDim(c, g, dim) && x < g.ldims[dim]
    ensures InRange(c[dim := x], g.ldims)
    ensures RowRank(g, r, dim, Position(g, r, dim, x)) == r && RowLocal(g, dim, Position(g, r, dim, x)) == x
    ensures Fetch(fs, g, dim, r, c, Position(g, r, dim, x)) == Value(fs[r], g, c[dim := x])
  {
    RowOwn(g, r, dim, x, Position(g, r, dim, x));
  }

  /**
   * Fetching from a neighbouring segment: position `Position(r, x) + s*ld` lies in the
   * segment of the rank `s` steps along the row (cyclically), at the same local position.
   */
  lemma FetchNeighbour(g: Grid, r: nat, dim: nat, x: nat, s: int, t: int)
    requires g.WellFormed() && dim < g.Nd() && r < NRanks(g) && x < g.ldims[dim]
    requires t == Position(g, r, dim, x) + s * g.ldims[dim]
    ensures RankCoor(g, r)[dim] < g.processors[dim]
    ensures RowRank(g, r, dim, t) == MoveRank(g, r, dim, (RankCoor(g, r)[dim] + s) % g.processors[dim])
    ensures RowLocal(g, dim, t) == x
  {
    var P, ld := g.processors[dim], g.ldims[dim];
    RankCoorInverse(g, r);
    var q := RankCoor(g, r)[dim];
    assert t == (q + s) * ld + x;
    DivModUnique(t, ld, q + s, x);
    WrapSplit(P, ld, t);
  }

  // ---------------------------------------------------------------------------------------
  // The global view.
  // ---------------------------------------------------------------------------------------

  /** The rank holding global coordinate `G`. */
  function RankOfGlobal(g: Grid, G: seq<nat>): (r: nat)
    requires g.WellFormed() && InRange(G, g.Global())
    ensures r < NRanks(g)
  {
    var pc := seq(|G|, k requires 0 <= k < |G| => G[k] / g.ldims[k]);
    forall k | 0 <= k < |G| ensures pc[k] < g.processors[k] {
      DivBound(G[k], g.ldims[k], g.processors[k]);
    }
    RankOf(g, pc)
  }

  /** The local coordinate, on its rank, of global coordinate `G`. */
  function LocalOfGlobal(g: Grid, G: seq<nat>): (c: seq<nat>)
    requires g.WellFormed() && InRange(G, g.Global())
    ensures InRange(c, g.ldims)
  {
    seq(|G|, k requires 0 <= k < |G| => G[k] % g.ldims[k])
  }

  /** The value of a distributed field at global coordinate `G`. */
  function GlobalValue<T>(fs: seq<seq<seq<T>>>, g: Grid, G: seq<nat>): T
    requires Distributed(fs, g) && InRange(G, g.Global())
  {
    Value(fs[RankOfGlobal(g, G)], g, LocalOfGlobal(g, G))
  }

  /** The global coordinate of local coordinate `c` of rank `r`. */
  function GlobalOf(g: Grid, r: nat, c: seq<nat>): (G: seq<nat>)
    requires g.WellFormed() && |c| == g.Nd()
    ensures |G| == g.Nd()
  {
    seq(|c|, k requires 0 <= k < |c| => RankCoor(g, r)[k] * g.ldims[k] + c[k])
  }

  /** Global and (rank, local) coordinates are inverse to each other. */
  lemma GlobalOfInverse(g: Grid, r: nat, c: seq<nat>)
    requires g.WellFormed() && r < NRanks(g) && InRange(c, g.ldims)
    ensures InRange(GlobalOf(g, r, c), g.Global())
    ensures RankOfGlobal(g, GlobalOf(g, r, c)) == r && LocalOfGlobal(g, GlobalOf(g, r, c)) == c
  {
    RankCoorInverse(g, r);
    var pc := RankCoor(g, r);
    var G := GlobalOf(g, r, c);
    forall k | 0 <= k < g.Nd() ensures G[k] < g.Global()[k] && G[k] / g.ldims[k] == pc[k] && G[k] % g.ldims[k] == c[k] {
      BlockSplit(pc[k], g.ldims[k], c[k], g.processors[k]);
    }
    assert seq(|G|, k requires 0 <= k < |G| => G[k] / g.ldims[k]) == pc;
  }

  lemma GlobalInverse(g: Grid, G: seq<nat>)
    requires g.WellFormed() && InRange(G, g.Global())
    ensures GlobalOf(g, RankOfGlobal(g, G), LocalOfGlobal(g, G)) == G
  {
    var pc := seq(|G|, k requires 0 <= k < |G| => G[k] / g.ldims[k]);
    forall k | 0 <= k < |G| ensures pc[k] < g.processors[k] {
      DivBound(G[k], g.ldims[k], g.processors[k]);
    }
    RankOfInverse(g, pc);
    var G' := GlobalOf(g, RankOfGlobal(g, G), LocalOfGlobal(g, G));
    forall k | 0 <= k < |G| ensures G'[k] == G[k] {
      Recompose(G[k], g.ldims[k]);
    }
  }

  /** The cyclic position is the position modulo the global extent. */
  lemma WrapGlobal(g: Grid, dim: nat, t: int)
    requires g.WellFormed() && dim < g.Nd()
    ensures g.Global()[dim] > 0 && Wrap(g, dim, t) == t % g.Global()[dim]
  {
    assert g.Global()[dim] == g.processors[dim] * g.ldims[dim] by {
      assert g.ldims[dim] * g.processors[dim] == g.processors[dim] * g.ldims[dim];
    }
  }

  /** Moving rank `r`'s global coordinate to position `t` along `dim` lands on rank `RowRank`, local `RowLocal`. */
  lemma GlobalOfRow(g: Grid, r: nat, dim: nat, c: seq<nat>, t: int)
    requires g.WellFormed() && dim < g.Nd() && r < NRanks(g) && |c| == g.Nd()
    ensures GlobalOf(g, r, c)[dim := Wrap(g, dim, t)] == GlobalOf(g, RowRank(g, r, dim, t), c[dim := RowLocal(g, dim, t)])
  {
    var ld, w := g.ldims[dim], Wrap(g, dim, t);
    RankCoorInverse(g, r);
    RankOfInverse(g, RankCoor(g, r)[dim := w / ld]);
    Recompose(w, ld);
    assert w == (w / ld) * ld + w % ld;
  }

  /** Fetching at position `t` is reading the global field at the global coordinate with `t mod global[dim]` at `dim`. */
  lemma FetchGlobal<T>(fs: seq<seq<seq<T>>>, g: Grid, dim: nat, r: nat, c: seq<nat>, t: int)
    requires Distributed(fs, g) && dim < g.Nd() && r < NRanks(g) && InRange(c, g.ldims)
    ensures g.Global()[dim] > 0
    ensures InRange(GlobalOf(g, r, c)[dim := t % g.Global()[dim]], g.Global())
    ensures Fetch(fs, g, dim, r, c, t) == GlobalValue(fs, g, GlobalOf(g, r, c)[dim := t % g.Global()[dim]])
  {
    WrapGlobal(g, dim, t);
    GlobalOfRow(g, r, dim, c, t);
    GlobalOfInverse(g, RowRank(g, r, dim, t), c[dim := RowLocal(g, dim, t)]);
  }

  // ---------------------------------------------------------------------------------------
  // The periodic shift.
  // ---------------------------------------------------------------------------------------

  /** Lane `l` of site `o` of rank `r` after shifting by `s` along `dim`. */
  function ShiftLane<T>(fs: seq<seq<seq<T>>>, g: Grid, dim: nat, s: int, r: nat, o: nat, l: nat): T
    requires Distributed(fs, g) && dim < g.Nd() && r < NRanks(g) && o < g.OSites() && l < g.Nsimd()
  {
    LocalCoorInverse(g, o, l);
    var c := LocalCoor(g, o, l);
    Fetch(fs, g, dim, r, c, Position(g, r, dim, c[dim]) + s)
  }

  /** `Cshift(in, dim, s)`: the field whose site at global position `x` along `dim` is the input's at `x + s`. */
  function Cshift<T>(fs: seq<seq<seq<T>>>, g: Grid, dim: nat, s: int): (out: seq<seq<seq<T>>>)
    requires Distributed(fs, g) && dim < g.Nd()
    ensures Distributed(out, g)
  {
    seq(|fs|, r requires 0 <= r < |fs| =>
      seq(g.OSites(), o requires 0 <= o < g.OSites() =>
        seq(g.Nsimd(), l requires 0 <= l < g.Nsimd() => ShiftLane(fs, g, dim, s, r, o, l))))
  }

  /** The shift on one rank: local site `c` holds the site `s` further along the row of ranks. */
  lemma CshiftLocal<T>(fs: seq<seq<seq<T>>>, g: Grid, dim: nat, s: int, r: nat, c: seq<nat>)
    requires Distributed(fs, g) && dim < g.Nd() && r < NRanks(g) && InRange(c, g.ldims)
    ensures Value(Cshift(fs, g, dim, s)[r], g, c) == Fetch(fs, g, dim, r, c, Position(g, r, dim, c[dim]) + s)
  {
    CoorInverse(g, c);
  }

  /** The shift in global coordinates: `out[G] == in[G + s*e_dim]`, periodically. */
  lemma CshiftGlobal<T>(fs: seq<seq<seq<T>>>, g: Grid, dim: nat, s: int, G: seq<nat>)
    requires Distributed(fs, g) && dim < g.Nd() && InRange(G, g.Global())
    ensures InRange(G[dim := (G[dim] + s) % g.Global()[dim]], g.Global())
    ensures GlobalValue(Cshift(fs, g, dim, s), g, G) == GlobalValue(fs, g, G[dim := (G[dim] + s) % g.Global()[dim]])
  {
    var r, c := RankOfGlobal(g, G), LocalOfGlobal(g, G);
    GlobalInverse(g, G);
    CshiftLocal(fs, g, dim, s, r, c);
    FetchGlobal(fs, g, dim, r, c, Position(g, r, dim, c[dim]) + s);
  }

  // ---------------------------------------------------------------------------------------
  // The padded field.
  // ---------------------------------------------------------------------------------------

  /** `ng` is `g` with the local extent of `dim` grown by `2*depth`. */
  predicate PaddedAlong(g: Grid, ng: Grid, dim: nat, depth: nat)
  {
    SameFace(g, ng, dim) && ng.ldims[dim] == g.ldims[dim] + 2 * depth
  }

  /** Lane `l` of site `o` of rank `r` of the field padded along `dim`. */
  function PadLane<T>(fs: seq<seq<seq<T>>>, g: Grid, ng: Grid, dim: nat, depth: nat, r: nat, o: nat, l: nat): T
    requires Distributed(fs, g) && PaddedAlong(g, ng, dim, depth)
    requires r < NRanks(g) && o < ng.OSites() && l < ng.Nsimd()
  {
    LocalCoorInverse(ng, o, l);
    var c := LocalCoor(ng, o, l);
    Fetch(fs, g, dim, r, c, Position(g, r, dim, c[dim]) - depth)
  }

  /**
   * The field padded by `depth` along `dim`: padded local position `p` of rank `r` holds
   * the site at global position `Position(r, p) - depth` of the input, cyclically.
   */
  function Padded<T>(fs: seq<seq<seq<T>>>, g: Grid, ng: Grid, dim: nat, depth: nat): (out: seq<seq<seq<T>>>)
    requires Distributed(fs, g) && PaddedAlong(g, ng, dim, depth)
    ensures Distributed(out, ng)
  {
    seq(|fs|, r requires 0 <= r < |fs| =>
      seq(ng.OSites(), o requires 0 <= o < ng.OSites() =>
        seq(ng.Nsimd(), l requires 0 <= l < ng.Nsimd() => PadLane(fs, g, ng, dim, depth, r, o, l))))
  }

  /** The padded field on one rank: local site `c` holds the input `depth` sites back along the row. */
  lemma PaddedLocal<T>(fs: seq<seq<seq<T>>>, g: Grid, ng: Grid, dim: nat, depth: nat, r: nat, c: seq<nat>)
    requires Distributed(fs, g) && PaddedAlong(g, ng, dim, depth) && r < NRanks(g) && InRange(c, ng.ldims)
    ensures OffDim(c, g, dim)
    ensures Value(Padded(fs, g, ng, dim, depth)[r], ng, c) == Fetch(fs, g, dim, r, c, Position(g, r, dim, c[dim]) - depth)
  {
    CoorInverse(ng, c);
  }

  /**
   * The padded field in global coordinates: at padded global coordinate `G'`, with rank
   * position `G'[dim] / nld` and local position `p = G'[dim] % nld`, it holds the input at
   * global position `(G'[dim] / nld)*ld + p - depth` along `dim`, modulo the global extent.
   */
  lemma PaddedGlobal<T>(fs: seq<seq<seq<T>>>, g: Grid, ng: Grid, dim: nat, depth: nat, G': seq<nat>)
    requires Distributed(fs, g) && PaddedAlong(g, ng, dim, depth) && InRange(G', ng.Global())
    ensures g.Global()[dim] > 0
    ensures InRange(G'[dim := ((G'[dim] / ng.ldims[dim]) * g.ldims[dim] + G'[dim] % ng.ldims[dim] - depth) % g.Global()[dim]], g.Global())
    ensures GlobalValue(Padded(fs, g, ng, dim, depth), ng, G')
      == GlobalValue(fs, g, G'[dim := ((G'[dim] / ng.ldims[dim]) * g.ldims[dim] + G'[dim] % ng.ldims[dim] - depth) % g.Global()[dim]])
  {
    var r, c := RankOfGlobal(ng, G'), LocalOfGlobal(ng, G');
    PaddedCoordinates(g, ng, dim, depth, G');
    var c0 := c[dim := 0];
    var t := Position(g, r, dim, c[dim]) - depth;
    PaddedLocal(fs, g, ng, dim, depth, r, c);
    assert c0[dim := RowLocal(g, dim, t)] == c[dim := RowLocal(g, dim, t)];
    FetchGlobal(fs, g, dim, r, c0, t);
    assert GlobalOf(g, r, c0)[dim := t % g.Global()[dim]] == G'[dim := t % g.Global()[dim]];
  }

  /** Where padded global coordinate `G'` sits: its rank, and the input's global coordinates through that rank. */
  lemma PaddedCoordinates(g: Grid, ng: Grid, dim: nat, depth: nat, G': seq<nat>)
    requires PaddedAlong(g, ng, dim, depth) && InRange(G', ng.Global())
    ensures NRanks(ng) == NRanks(g) && RankOfGlobal(ng, G') < NRanks(g)
    ensures InRange(LocalOfGlobal(ng, G')[dim := 0], g.ldims)
    ensures Position(g, RankOfGlobal(ng, G'), dim, LocalOfGlobal(ng, G')[dim])
      == (G'[dim] / ng.ldims[dim]) * g.ldims[dim] + G'[dim] % ng.ldims[dim]
    ensures forall k :: 0 <= k < g.Nd() && k != dim ==> GlobalOf(g, RankOfGlobal(ng, G'), LocalOfGlobal(ng, G')[dim := 0])[k] == G'[k]
  {
    var r, c := RankOfGlobal(ng, G'), LocalOfGlobal(ng, G');
    GlobalInverse(ng, G');
    assert RankCoor(g, r) == RankCoor(ng, r);
    var G := GlobalOf(ng, r, c);
    assert G[dim] == RankCoor(ng, r)[dim] * ng.ldims[dim] + c[dim];
    SplitMixed(c[dim], ng.ldims[dim], RankCoor(ng, r)[dim]);
    assert ng.ldims[dim] * RankCoor(ng, r)[dim] == RankCoor(ng, r)[dim] * ng.ldims[dim];
  }

  /**
   * The padded field slice by slice: padded slice `p` of rank `r` is the input slice at
   * row position `Position(r, p) - depth`, taken cyclically.
   */
  lemma SliceOfPadded<T>(fs: seq<seq<seq<T>>>, g: Grid, ng: Grid, dim: nat, depth: nat, r: nat, p: nat)
    requires Distributed(fs, g) && PaddedAlong(g, ng, dim, depth) && r < NRanks(g) && p < ng.ldims[dim]
    ensures SliceOf(Padded(fs, g, ng, dim, depth)[r], ng, dim, p)
      == SliceOf(fs[RowRank(g, r, dim, Position(g, r, dim, p) - depth)], g, dim, RowLocal(g, dim, Position(g, r, dim, p) - depth))
  {
    FaceAgree(g, ng, dim);
    var t := Position(g, r, dim, p) - depth;
    var out, src, x := Padded(fs, g, ng, dim, depth)[r], fs[RowRank(g, r, dim, t)], RowLocal(g, dim, t);
    forall j | 0 <= j < SliceWords(g, dim) ensures SliceOf(out, ng, dim, p)[j] == SliceOf(src, g, dim, x)[j] {
      PaddedSliceElem(fs, g, ng, dim, depth, r, p, j);
    }
  }

  lemma PaddedSliceElem<T>(fs: seq<seq<seq<T>>>, g: Grid, ng: Grid, dim: nat, depth: nat, r: nat, p: nat, j: nat)
    requires Distributed(fs, g) && PaddedAlong(g, ng, dim, depth) && r < NRanks(g) && p < ng.ldims[dim]
    requires j < SliceWords(g, dim)
    ensures SliceWords(ng, dim) == SliceWords(g, dim)
    ensures SliceOf(Padded(fs, g, ng, dim, depth)[r], ng, dim, p)[j]
      == SliceOf(fs[RowRank(g, r, dim, Position(g, r, dim, p) - depth)], g, dim, RowLocal(g, dim, Position(g, r, dim, p) - depth))[j]
  {
    FaceAgree(g, ng, dim);
    var t := Position(g, r, dim, p) - depth;
    var out, src, x := Padded(fs, g, ng, dim, depth)[r], fs[RowRank(g, r, dim, t)], RowLocal(g, dim, t);
    SliceElemValue(out, ng, dim, p, j);
    var c := FaceCoorAt(ng, dim, j)[dim := p];
    PaddedLocal(fs, g, ng, dim, depth, r, c);
    SliceElemValue(src, g, dim, x, j);
    assert c[dim := x] == FaceCoorAt(g, dim, j)[dim := x];
  }
}
