/** The frame partition of split_audio: the slices visited by
    `for start in range(0, total, d)` with `end = min(start + d, total)`,
    all in integer milliseconds. */
module Framing {

  /** One slice [start, end) of the audio, in milliseconds. */
  datatype Frame = Frame(start: nat, end: nat)

  function Min(a: nat, b: nat): nat {
    if a <= b then a else b
  }

  /** The slices visited by range(start, total, d): one per start value
      start, start + d, ... strictly below total. */
  function FramesFrom(start: nat, total: nat, d: nat): seq<Frame>
    requires d > 0
    decreases total - start
  {
    if start >= total then []
    else [Frame(start, Min(start + d, total))] + FramesFrom(start + d, total, d)
  }

  /** The slices split_audio cuts from audio of length total. */
  function Frames(total: nat, d: nat): seq<Frame>
    requires d > 0
  {
    FramesFrom(0, total, d)
  }

  /** The k-th slice visited from start begins k steps later, below total. */
  lemma {:induction false} FramesFromAt(start: nat, total: nat, d: nat, k: nat)
    requires d > 0 && k < |FramesFrom(start, total, d)|
    ensures start + k * d < total
    ensures FramesFrom(start, total, d)[k] == Frame(start + k * d, Min(start + k * d + d, total))
    decreases k
  {
    if k > 0 {
      FramesFromAt(start + d, total, d, k - 1);
      assert start + d + (k - 1) * d == start + k * d;
    }
  }

  /** Every step start + k * d below total is visited. */
  lemma {:induction false} FramesFromReaches(start: nat, total: nat, d: nat, k: nat)
    requires d > 0 && start + k * d < total
    ensures k < |FramesFrom(start, total, d)|
    decreases k
  {
    if k > 0 {
      assert start + d + (k - 1) * d == start + k * d;
      FramesFromReaches(start + d, total, d, k - 1);
    }
  }

  /** Frame starts are exactly the multiples of d strictly below total, in
      increasing order, and each end is min(start + d, total). */
  lemma FrameStarts(total: nat, d: nat)
    requires d > 0
    ensures forall k: nat :: k < |Frames(total, d)| <==> k * d < total
    ensures forall k :: 0 <= k < |Frames(total, d)| ==>
              Frames(total, d)[k] == Frame(k * d, Min(k * d + d, total))
  {
    forall k: nat | k < |Frames(total, d)| {
      FramesFromAt(0, total, d, k);
    }
    forall k: nat | k * d < total {
      FramesFromReaches(0, total, d, k);
    }
  }

  /** Multiplying by a natural number is monotone. */
  lemma MulMonotone(x: nat, y: nat, d: nat)
    ensures x <= y ==> x * d <= y * d
  {
  }

  /** a / d == q whenever q * d <= a < q * d + d. */
  lemma DivUnique(a: nat, d: nat, q: nat)
    requires d > 0 && q * d <= a < q * d + d
    ensures a / d == q
  {
    var r: nat := a / d;
    assert r * d <= a < r * d + d;
    assert (q + 1) * d == q * d + d;
    assert (r + 1) * d == r * d + d;
    MulMonotone(q + 1, r, d);
    MulMonotone(r + 1, q, d);
  }

  /** The number of frames is ceil(total / d): the least n with n * d >= total. */
  lemma FrameCount(total: nat, d: nat)
    requires d > 0
    ensures total <= |Frames(total, d)| * d
    ensures |Frames(total, d)| > 0 ==> (|Frames(total, d)| - 1) * d < total
    ensures |Frames(total, d)| == (total + d - 1) / d
  {
    var n := |Frames(total, d)|;
    FrameStarts(total, d);
    assert !(n * d < total);
    if n > 0 {
      assert (n - 1) * d < total;
      assert (n - 1) * d + d == n * d;
    }
    DivUnique(total + d - 1, d, n);
  }

  /** The frames tile [0, total): the first starts at 0, each ends where the
      next starts, the last ends at total, none is empty or longer than d,
      and only the last may be shorter than d. */
  lemma FramesTile(total: nat, d: nat)
    requires d > 0
    ensures Frames(total, d) == [] <==> total == 0
    ensures Frames(total, d) != [] ==> Frames(total, d)[0].start == 0
    ensures Frames(total, d) != [] ==> Frames(total, d)[|Frames(total, d)| - 1].end == total
    ensures forall k :: 0 <= k < |Frames(total, d)| - 1 ==>
              Frames(total, d)[k].end == Frames(total, d)[k + 1].start &&
              Frames(total, d)[k].end - Frames(total, d)[k].start == d
    ensures forall k :: 0 <= k < |Frames(total, d)| ==>
              Frames(total, d)[k].start < Frames(total, d)[k].end <= total &&
              Frames(total, d)[k].end - Frames(total, d)[k].start <= d
  {
    var fs := Frames(total, d);
    var n := |fs|;
    FrameStarts(total, d);
    FrameCount(total, d);
    if total > 0 {
      assert 0 * d < total;
    }
    if n > 0 {
      assert (n - 1) * d + d == n * d;
    }
    forall k | 0 <= k < n - 1
      ensures fs[k].end == fs[k + 1].start && fs[k].end - fs[k].start == d
    {
      assert k * d + d == (k + 1) * d;
    }
  }

  predicate Covers(f: Frame, t: nat) {
    f.start <= t < f.end
  }

  /** Every millisecond of the audio lies in exactly one frame, frame t / d. */
  lemma CoveredOnce(total: nat, d: nat, t: nat)
    requires d > 0 && t < total
    ensures t / d < |Frames(total, d)| && Covers(Frames(total, d)[t / d], t)
    ensures forall k :: 0 <= k < |Frames(total, d)| && Covers(Frames(total, d)[k], t) ==> k == t / d
  {
    var fs := Frames(total, d);
    var q := t / d;
    assert q * d <= t < q * d + d;
    FrameStarts(total, d);
    assert q * d < total;
    forall k | 0 <= k < |fs| && Covers(fs[k], t) ensures k == q {
      assert k * d <= t < k * d + d;
      DivUnique(t, d, k);
    }
  }
}
