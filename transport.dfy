/**
 * The communication the halo exchange needs, on a periodic process grid: the pair of
 * neighbours `ShiftedRanks` returns (as MPI_Cart_shift does), and `SendToRecvFrom` as a
 * direct memory copy between the buffers the ranks have posted for one exchange.
 */
module Transport {
  import opened Arith
  import opened Geometry
  import opened Decomposition

  /**
   * `ShiftedRanks(dim, shift, source, dest)`: the ranks `shift` steps down and up the row
   * of rank `r` along `dim`, periodically. The halo code names them `xmit_to_rank` and
   * `recv_from_rank`.
   */
  function ShiftedRanks(g: Grid, r: nat, dim: nat, shift: int): (ranks: (nat, nat))
    requires g.WellFormed() && dim < g.Nd() && r < NRanks(g)
    ensures ranks.0 < NRanks(g) && ranks.1 < NRanks(g)
  {
    var P, q := g.processors[dim], RankCoor(g, r)[dim];
    (MoveRank(g, r, dim, (q - shift) % P), MoveRank(g, r, dim, (q + shift) % P))
  }

  /** The neighbours are the ranks whose process coordinate differs by `-shift` and `+shift` along `dim`. */
  lemma ShiftedRanksCoor(g: Grid, r: nat, dim: nat, shift: int)
    requires g.WellFormed() && dim < g.Nd() && r < NRanks(g)
    ensures RankCoor(g, ShiftedRanks(g, r, dim, shift).0)
      == RankCoor(g, r)[dim := (RankCoor(g, r)[dim] - shift) % g.processors[dim]]
    ensures RankCoor(g, ShiftedRanks(g, r, dim, shift).1)
      == RankCoor(g, r)[dim := (RankCoor(g, r)[dim] + shift) % g.processors[dim]]
  {
    var P, q := g.processors[dim], RankCoor(g, r)[dim];
    var down, up := (q - shift) % P, (q + shift) % P;
    MoveRankCoor(g, r, dim, down);
    MoveRankCoor(g, r, dim, up);
  }

  /**
   * The neighbour relation pairs up: the rank `r` receives from (its `dest`) sends, in
   * the same exchange, to `r`, and the rank `r` sends to (its `source`) receives from `r`.
   */
  lemma ShiftedRanksPair(g: Grid, r: nat, dim: nat, shift: int)
    requires g.WellFormed() && dim < g.Nd() && r < NRanks(g)
    ensures ShiftedRanks(g, ShiftedRanks(g, r, dim, shift).1, dim, shift).0 == r
    ensures ShiftedRanks(g, ShiftedRanks(g, r, dim, shift).0, dim, shift).1 == r
  {
    DestSendsBack(g, r, dim, shift);
    SourceReceivesBack(g, r, dim, shift);
  }

  /** The rank `r` receives from sends to `r`. */
  lemma DestSendsBack(g: Grid, r: nat, dim: nat, shift: int)
    requires g.WellFormed() && dim < g.Nd() && r < NRanks(g)
    ensures ShiftedRanks(g, ShiftedRanks(g, r, dim, shift).1, dim, shift).0 == r
  {
    var P, pc := g.processors[dim], RankCoor(g, r);
    RankCoorInverse(g, r);
    RingShiftBack(P, pc[dim], shift);
    var dst := ShiftedRanks(g, r, dim, shift).1;
    var up := (pc[dim] + shift) % P;
    ShiftedRanksCoor(g, r, dim, shift);
    ShiftedRanksCoor(g, dst, dim, shift);
    assert RankCoor(g, dst)[dim] == up && (up - shift) % P == pc[dim];
    assert pc[dim := up][dim := pc[dim]] == pc;
    SameCoorSameRank(g, ShiftedRanks(g, dst, dim, shift).0, r);
  }

  /** The rank `r` sends to receives from `r`. */
  lemma SourceReceivesBack(g: Grid, r: nat, dim: nat, shift: int)
    requires g.WellFormed() && dim < g.Nd() && r < NRanks(g)
    ensures ShiftedRanks(g, ShiftedRanks(g, r, dim, shift).0, dim, shift).1 == r
  {
    var P, pc := g.processors[dim], RankCoor(g, r);
    RankCoorInverse(g, r);
    RingShiftBack(P, pc[dim], shift);
    var src := ShiftedRanks(g, r, dim, shift).0;
    var down := (pc[dim] - shift) % P;
    ShiftedRanksCoor(g, r, dim, shift);
    ShiftedRanksCoor(g, src, dim, shift);
    assert RankCoor(g, src)[dim] == down && (down + shift) % P == pc[dim];
    assert pc[dim := down][dim := pc[dim]] == pc;
    SameCoorSameRank(g, ShiftedRanks(g, src, dim, shift).1, r);
  }

  /** Ranks with the same process coordinate are the same rank. */
  lemma SameCoorSameRank(g: Grid, a: nat, b: nat)
    requires g.WellFormed() && a < NRanks(g) && b < NRanks(g) && RankCoor(g, a) == RankCoor(g, b)
    ensures a == b
  {
    RankCoorInverse(g, a);
    RankCoorInverse(g, b);
  }

  /**
   * `SendToRecvFrom(send, to, recv, from, bytes)` as a direct copy: `words` words of the buffer
   * rank `from` posted, read from the offset this call sends from, land in `recv` at
   * `recvOffset`; nothing else of `recv` changes. The words this rank sends are read in the
   * same way by the rank it sends to, within that rank's own call.
   */
  method SendToRecvFrom<T>(posted: seq<seq<T>>, sendOffset: nat, recv: array<T>, recvOffset: nat, from: nat, words: nat)
    requires from < |posted| && sendOffset + words <= |posted[from]| && recvOffset + words <= recv.Length
    modifies recv
    ensures recv[recvOffset..recvOffset + words] == posted[from][sendOffset..sendOffset + words]
    ensures forall i :: 0 <= i < recv.Length && !(recvOffset <= i < recvOffset + words) ==> recv[i] == old(recv[i])
  {
    var i := 0;
    while i < words
      invariant 0 <= i <= words
      invariant forall k :: 0 <= k < recv.Length ==>
        recv[k] == if recvOffset <= k < recvOffset + i then posted[from][sendOffset + k - recvOffset] else old(recv[k])
    {
      recv[recvOffset + i] := posted[from][sendOffset + i];
      i := i + 1;
    }
  }
}
