/** Small facts about Euclidean division used by the index arithmetic. */
module Arith {

  /** Division and remainder are determined by any decomposition `a == q*m + r` with `0 <= r < m`. */
  lemma DivModUnique(a: int, m: int, q: int, r: int)
    requires m > 0 && 0 <= r < m && a == q * m + r
    ensures a / m == q && a % m == r
  {
    SmallMultipleIsZero(a / m - q, m, r - a % m);
  }

  /** A multiple of `m` strictly between `-m` and `m` is zero. */
  lemma SmallMultipleIsZero(k: int, m: int, d: int)
    requires m > 0 && k * m == d && -m < d < m
    ensures k == 0
  {
  }

  /** `b + m*k` splits back into `b` and `k` when `b < m`. */
  lemma SplitMixed(b: nat, m: nat, k: nat)
    requires b < m
    ensures (b + m * k) % m == b && (b + m * k) / m == k
  {
    DivModUnique(b + m * k, m, k, b);
  }

  /** `q*ld + x` with `x < ld` and `q < P` lies below `ld*P` and splits back into `q` and `x`. */
  lemma BlockSplit(q: nat, ld: nat, x: nat, P: nat)
    requires x < ld && q < P
    ensures q * ld + x < ld * P && (q * ld + x) / ld == q && (q * ld + x) % ld == x
  {
    MulCommute(q, ld);
    MixedBound(x, ld, q, P);
    SplitMixed(x, ld, q);
  }

  /** The mixed value `b + m*k` stays below `m*n` when `b < m` and `k < n`. */
  lemma MixedBound(b: nat, m: nat, k: nat, n: nat)
    requires b < m && k < n
    ensures b + m * k < m * n
  {
    assert m * k <= m * (n - 1) by { MulMonotone(m, k, n - 1); }
    assert m * (n - 1) == m * n - m;
  }

  lemma MulMonotone(m: nat, a: nat, b: nat)
    requires a <= b
    ensures m * a <= m * b
  {
  }

  /** Quotient of a number below `m*n` by `m` is below `n`. */
  lemma DivBound(a: nat, m: nat, n: nat)
    requires m > 0 && a < m * n
    ensures a / m < n
  {
    MulCancelStrict(a / m, n, m);
  }

  lemma MulCancelStrict(x: int, y: int, m: int)
    requires m > 0 && x * m < y * m
    ensures x < y
  {
  }
  /** `b + n*stride + ox*block` with `b = ss % block` and `n = ss / block`. */
  function SiteOf(block: nat, stride: nat, ss: nat, ox: nat): nat
    requires block > 0
  {
    ss % block + (ss / block) * stride + ox * block
  }

  /** The site of face index `ss` and outer coordinate `ox` lies below `block*rd*nblock`. */
  lemma SiteBound(block: nat, rd: nat, nblock: nat, ss: nat, ox: nat)
    requires block > 0 && rd > 0 && ss < block * nblock && ox < rd
    ensures SiteOf(block, block * rd, ss, ox) < block * (rd * nblock)
  {
    var b, n := ss % block, ss / block;
    DivBound(ss, block, nblock);
    MixedBound(ox, rd, n, nblock);
    MixedBound(b, block, ox + rd * n, rd * nblock);
    SiteMixed(block, rd, ss, ox);
  }

  /** The face index `b + n*block` read back from a site. */
  function FaceIndexOf(block: nat, rd: nat, o: nat): nat
    requires block > 0 && rd > 0
  {
    var n: nat := (o / block) / rd;
    MulNonNegative(n, block);
    o % block + n * block
  }

  lemma MulNonNegative(a: nat, b: nat)
    ensures a * b >= 0
  {
  }

  /** The outer coordinate read back from a site. */
  function OuterOf(block: nat, rd: nat, o: nat): nat
    requires block > 0 && rd > 0
  {
    (o / block) % rd
  }

  /** From the site of `(ss, ox)` the face index and the outer coordinate can be read back. */
  lemma SiteInverse(block: nat, rd: nat, ss: nat, ox: nat)
    requires block > 0 && rd > 0 && ox < rd
    ensures FaceIndexOf(block, rd, SiteOf(block, block * rd, ss, ox)) == ss
    ensures OuterOf(block, rd, SiteOf(block, block * rd, ss, ox)) == ox
  {
    var b, n := ss % block, ss / block;
    var o := SiteOf(block, block * rd, ss, ox);
    Distribute(block, ox, rd, n);
    assert o == b + block * (ox + rd * n);
    SplitMixed(b, block, ox + rd * n);
    SplitMixed(ox, rd, n);
    assert ss == b + n * block;
  }

  /** Every site below `block*rd*nblock` is the site of the face index and outer coordinate read from it. */
  lemma SiteCover(block: nat, rd: nat, nblock: nat, o: nat)
    requires block > 0 && rd > 0 && o < block * (rd * nblock)
    ensures FaceIndexOf(block, rd, o) < block * nblock && OuterOf(block, rd, o) < rd
    ensures SiteOf(block, block * rd, FaceIndexOf(block, rd, o), OuterOf(block, rd, o)) == o
  {
    var b: nat, q: nat := o % block, o / block;
    DivBound(o, block, rd * nblock);
    var ox: nat, n: nat := q % rd, q / rd;
    DivBound(q, rd, nblock);
    assert q == ox + rd * n;
    assert o == b + block * q;
    var ss: nat := b + n * block;
    assert ss == FaceIndexOf(block, rd, o);
    assert ss == b + block * n;
    SplitMixed(b, block, n);
    MixedBound(b, block, n, nblock);
    Distribute(block, ox, rd, n);
    assert SiteOf(block, block * rd, ss, ox) == b + n * (block * rd) + ox * block;
  }

  lemma Distribute(block: nat, ox: nat, rd: nat, n: nat)
    ensures block * (ox + rd * n) == ox * block + n * (block * rd)
  {
  }

  /** Splitting `x` into `x % rd` and `x / rd` and mixing them again gives `x`, inside `rd*s`. */
  lemma OuterInner(x: nat, rd: nat, s: nat)
    requires rd > 0 && x < rd * s
    ensures x / rd < s && x % rd + rd * (x / rd) == x
  {
    DivBound(x, rd, s);
  }

  /** A position below `face*lanes` splits into a word of a plane and a plane. */
  lemma PlaneSplit(j: nat, face: nat, lanes: nat)
    requires face > 0 && j < face * lanes
    ensures j % face < face && j / face < lanes && j == j % face + (j / face) * face
  {
    DivBound(j, face, lanes);
  }

  lemma MulAssoc(a: int, b: int, c: int)
    ensures a * b * c == a * (b * c)
  {
  }

  lemma MulRotate(a: int, b: int, c: int)
    ensures a * b * c == c * b * a
  {
  }

  lemma MulDistribute(a: int, b: int, c: int)
    ensures a * (b + c) == a * b + a * c
  {
  }

  /** Two products of two factors, multiplied, regroup factor by factor. */
  lemma MulInterchange(a: int, b: int, c: int, d: int)
    ensures (a * b) * (c * d) == (a * c) * (b * d)
  {
    MulAssoc(a, b, c * d);
    MulAssoc(b, c, d);
    assert b * c == c * b;
    MulAssoc(c, b, d);
    MulAssoc(a, c, b * d);
  }

  lemma MulPositive(a: nat, b: nat)
    requires a > 0 && b > 0
    ensures a * b > 0
  {
  }

  /** Position `ss + olane*face` of a buffer that holds `lanes` planes of `face` words. */
  lemma PlaneIndex(ss: nat, olane: nat, face: nat, lanes: nat)
    requires ss < face && olane < lanes
    ensures ss + olane * face < face * lanes
    ensures (ss + olane * face) % face == ss && (ss + olane * face) / face == olane
  {
    MixedBound(ss, face, olane, lanes);
    SplitMixed(ss, face, olane);
    assert olane * face == face * olane;
  }

  /**
   * Cyclic wrap of a position `t` on a ring of `procs` blocks of `len`: the block of the
   * wrapped position is the wrapped block of `t`, and the offset inside the block is kept.
   */
  lemma WrapSplit(procs: nat, len: nat, t: int)
    requires procs > 0 && len > 0
    ensures procs * len > 0
    ensures (t % (procs * len)) / len == (t / len) % procs
    ensures (t % (procs * len)) % len == t % len
  {
    MulPositive(procs, len);
    var q, w := t / len, t % len;
    var a, b := q / procs, q % procs;
    assert t == len * q + w;
    assert q == procs * a + b;
    MulDistribute(len, procs * a, b);
    MulAssoc(len, procs, a);
    MulCommute(len, procs);
    MixedBound(w, len, b, procs);
    var m, rest := procs * len, w + len * b;
    assert t == a * m + rest;
    DivModUnique(t, m, a, rest);
    MulCommute(len, b);
    DivModUnique(rest, len, b, w);
  }

  lemma MulSucc(a: int, b: int)
    ensures (a + 1) * b == a * b + b
  {
  }

  lemma MulCommute(a: int, b: int)
    ensures a * b == b * a
  {
  }

  /** Shifting a position on a ring of `procs` forth and back returns it. */
  lemma RingShiftBack(procs: nat, rank: nat, shift: int)
    requires procs > 0 && rank < procs
    ensures ((rank + shift) % procs - shift) % procs == rank
    ensures ((rank - shift) % procs + shift) % procs == rank
  {
    var q1 := (rank + shift) / procs;
    assert (rank + shift) % procs - shift == rank - q1 * procs;
    DivModUnique(rank - q1 * procs, procs, -q1, rank);
    var q2 := (rank - shift) / procs;
    assert (rank - shift) % procs + shift == rank - q2 * procs;
    DivModUnique(rank - q2 * procs, procs, -q2, rank);
  }

  /** A number is its remainder plus `m` times its quotient. */
  lemma Recompose(a: nat, m: nat)
    requires m > 0
    ensures a % m + m * (a / m) == a
  {
  }

  /** The site of `(ss, ox)` as a mixed value: `b + block*(ox + rd*n)` with `b = ss % block`, `n = ss / block`. */
  lemma SiteMixed(block: nat, rd: nat, ss: nat, ox: nat)
    requires block > 0
    ensures SiteOf(block, block * rd, ss, ox) == ss % block + block * (ox + rd * (ss / block))
  {
    Distribute(block, ox, rd, ss / block);
  }
}
