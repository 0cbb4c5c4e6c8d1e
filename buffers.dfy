/**
 * Halo buffers: flat buffers made of planes of `words` words each. Plane offsets are
 * counted by `Span` rather than by a product, so that reasoning about planes stays linear.
 */
module Buffers {

  /** The number of words taken by `n` planes of `words` words. */
  function Span(n: nat, words: nat): (w: nat)
  {
    if n == 0 then 0 else Span(n - 1, words) + words
  }

  lemma {:induction false} SpanIsProduct(n: nat, words: nat)
    ensures Span(n, words) == n * words
  {
    if n > 0 {
      SpanIsProduct(n - 1, words);
      assert (n - 1) * words + words == n * words;
    }
  }

  lemma {:induction false} SpanAdd(a: nat, b: nat, words: nat)
    ensures Span(a + b, words) == Span(a, words) + Span(b, words)
  {
    if b > 0 {
      SpanAdd(a, b - 1, words);
      assert a + b - 1 == a + (b - 1);
    }
  }

  /** A buffer of `2*depth` planes of `words` words, as allocated, spans `2*depth` planes. */
  lemma BufferLength(words: nat, depth: nat)
    ensures words * 2 * depth == Span(2 * depth, words)
  {
    SpanIsProduct(2 * depth, words);
  }

  /** Plane `k` of `n` planes ends inside the `n` planes. */
  lemma PlaneWithin(k: nat, n: nat, words: nat)
    requires k < n
    ensures Span(k, words) + words <= Span(n, words)
  {
    SpanAdd(k + 1, n - k - 1, words);
  }

  /** Plane `k` of a buffer of planes of `words` words; empty when the buffer is too short to hold it. */
  function Plane<T>(buf: seq<T>, words: nat, k: nat): (s: seq<T>)
    ensures Span(k, words) + words <= |buf| ==> |s| == words
  {
    if Span(k, words) + words <= |buf| then buf[Span(k, words)..Span(k, words) + words] else []
  }

  /** `after` is `before` with `words` words of `src` from `o` copied in at `at`. */
  ghost predicate Copied<T>(before: seq<T>, after: seq<T>, at: nat, src: seq<T>, o: nat, words: nat)
  {
    && |after| == |before| && at + words <= |after| && o + words <= |src|
    && after[at..at + words] == src[o..o + words]
    && forall i :: 0 <= i < |after| && !(at <= i < at + words) ==> after[i] == before[i]
  }

  /** Writing `words` words at `at` leaves a plane that ends at or before `at` as it was. */
  lemma PlaneKept<T>(before: seq<T>, after: seq<T>, words: nat, k: nat, at: nat)
    requires |after| == |before| && Span(k, words) + words <= at
    requires forall i :: 0 <= i < |after| && !(at <= i < at + words) ==> after[i] == before[i]
    ensures Plane(after, words, k) == Plane(before, words, k)
  {
    if Span(k, words) + words <= |before| {
      assert after[Span(k, words)..Span(k, words) + words] == before[Span(k, words)..Span(k, words) + words];
    }
  }

  /** Plane `k < depth` of the upper half of a buffer of `2*depth` planes is its plane `depth + k`. */
  lemma UpperPlane<T>(buf: seq<T>, words: nat, depth: nat, k: nat)
    requires |buf| == Span(2 * depth, words) && k < depth
    ensures Span(depth, words) <= |buf| && Span(k + depth, words) + words <= |buf|
    ensures Span(k, words) + words <= |buf[Span(depth, words)..]|
    ensures Plane(buf[Span(depth, words)..], words, k) == Plane(buf, words, k + depth)
  {
    SpanAdd(depth, depth, words);
    SpanAdd(k, depth, words);
    PlaneWithin(k + depth, 2 * depth, words);
  }

  /** Plane `k < depth` of the lower half of a buffer of `2*depth` planes is its plane `k`. */
  lemma LowerPlane<T>(buf: seq<T>, words: nat, depth: nat, k: nat)
    requires |buf| == Span(2 * depth, words) && k < depth
    ensures Span(depth, words) <= |buf| && Span(k, words) + words <= Span(depth, words)
    ensures Plane(buf[..Span(depth, words)], words, k) == Plane(buf, words, k)
  {
    SpanAdd(depth, depth, words);
    PlaneWithin(k, depth, words);
  }

  /** The first `o` words of each half of `recv`: from the upper half of `lower`, and from the lower half of `upper`. */
  ghost predicate HalvesFilled<T>(recv: seq<T>, lower: seq<T>, upper: seq<T>, half: nat, o: nat)
  {
    && |recv| == |lower| == |upper| == 2 * half && o <= half
    && recv[..o] == lower[half..half + o] && recv[half..half + o] == upper[..o]
  }

  /** Once both halves are filled, the lower half is the upper half of `lower` and the upper half the lower half of `upper`. */
  lemma HalvesFilledAll<T>(recv: seq<T>, lower: seq<T>, upper: seq<T>, half: nat)
    requires HalvesFilled(recv, lower, upper, half, half)
    ensures recv[..half] == lower[half..] && recv[half..] == upper[..half]
  {
    assert recv[half..half + half] == recv[half..];
    assert lower[half..half + half] == lower[half..];
  }

  /**
   * One exchange step at offset `o`: words of the upper half of `lower` land in the lower
   * half of the buffer and words of the lower half of `upper` land in its upper half.
   */
  lemma ExchangeStep<T>(before: seq<T>, middle: seq<T>, after: seq<T>, lower: seq<T>, upper: seq<T>, half: nat, words: nat, o: nat)
    requires HalvesFilled(before, lower, upper, half, o) && o + words <= half
    requires Copied(before, middle, half + o, upper, o, words)
    requires Copied(middle, after, o, lower, half + o, words)
    ensures HalvesFilled(after, lower, upper, half, o + words)
  {
    forall i | 0 <= i < o + words ensures after[i] == lower[half + i] {
      if i < o {
        assert before[..o][i] == lower[half..half + o][i];
      } else {
        assert after[o..o + words][i - o] == lower[half + o..half + o + words][i - o];
      }
    }
    forall i | 0 <= i < o + words ensures after[half + i] == upper[i] {
      if i < o {
        assert before[half..half + o][i] == upper[..o][i];
      } else {
        assert middle[half + o..half + o + words][i - o] == upper[o..o + words][i - o];
      }
    }
  }
}
