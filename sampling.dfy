/** How many of a colour's positions the encoder keeps, and which ones:
    the number of vectors asked for, the stride derived from it, and the
    every-k-th-element slice taken from the row-major position list. */
module Sampling {
  import opened Raster

  /** The number of vectors asked for, max(1, int(count * (1 - margin))),
      with the margin written as an integer percentage: 0 keeps everything,
      100 keeps the minimum. */
  function NumVectors(count: nat, margin: int): (n: nat)
    ensures n >= 1
    ensures count >= 1 && margin >= 0 ==> n <= count
    ensures margin <= 0 ==> n >= count
  {
    var scaled := count * (100 - margin) / 100;
    ScaledBound(count, margin);
    if scaled < 1 then 1 else scaled
  }

  /** The slice step max(1, count // numVectors). */
  function Stride(count: nat, numVectors: nat): (k: nat)
    requires numVectors >= 1
    ensures k >= 1
    ensures numVectors <= count ==> k * numVectors <= count
    ensures numVectors >= count ==> k == 1
    ensures count >= 1 ==> k <= count
  {
    var q := count / numVectors;
    DivBounds(count, numVectors);
    if q < 1 then 1 else q
  }

  /** s[::k]: the elements at indices 0, k, 2k, ... of `s`; there are
      ceil(|s| / k) of them. */
  function StrideSample<T>(s: seq<T>, k: nat): (r: seq<T>)
    requires k >= 1
    ensures |r| == (|s| + k - 1) / k
    decreases |s|
  {
    if |s| == 0 then []
    else if |s| <= k then
      DivOne(|s| + k - 1, k);
      [s[0]]
    else
      DivShift(|s| - 1, k);
      [s[0]] + StrideSample(s[k..], k)
  }

  /** The positions the encoder keeps out of a colour's row-major position
      list, for a margin given in percent. */
  function Sample(mask: seq<Coord>, margin: int): (r: seq<Coord>)
    ensures |r| == SampleSize(|mask|, margin)
  {
    StrideSample(mask, Stride(|mask|, NumVectors(|mask|, margin)))
  }

  // ---------------------------------------------------------------------
  // Arithmetic helpers: each isolates one non-linear step.

  lemma MulMono(x: int, y: int, k: nat)
    ensures x <= y ==> x * k <= y * k
  {
    assert y * k - x * k == (y - x) * k;
  }

  lemma MulSucc(x: int, k: int)
    ensures (x + 1) * k == x * k + k
  {
  }

  lemma DivFacts(a: nat, b: nat)
    requires b >= 1
    ensures a == (a / b) * b + a % b && 0 <= a % b < b && a / b >= 0
  {
  }

  lemma DivBounds(a: nat, b: nat)
    requires b >= 1
    ensures (a / b) * b <= a
    ensures a / b <= a
    ensures b <= a ==> a / b >= 1
    ensures a < b ==> a / b == 0
    ensures a == b ==> a / b == 1
  {
    DivFacts(a, b);
    MulMono(1, b, a / b);
    MulMono(1, a / b, b);
    MulMono(a / b, 0, b);
    MulMono(2, a / b, b);
  }

  lemma DivOne(a: nat, k: nat)
    requires 1 <= k <= a < 2 * k
    ensures a / k == 1
  {
    DivFacts(a, k);
    MulMono(2, a / k, k);
    MulMono(a / k, 0, k);
  }

  lemma DivShift(a: nat, k: nat)
    requires k >= 1
    ensures (a + k) / k == a / k + 1
  {
    var q, q' := a / k, (a + k) / k;
    DivFacts(a, k);
    DivFacts(a + k, k);
    MulSucc(q, k);
    MulSucc(q + 1, k);
    MulMono(q + 2, q', k);
    MulMono(q', q, k);
  }

  lemma ScaledBound(count: nat, margin: int)
    ensures margin >= 0 ==> count * (100 - margin) <= count * 100
    ensures margin <= 0 ==> count * (100 - margin) >= count * 100
    ensures margin >= 100 ==> count * (100 - margin) <= 0
  {
    MulMono(100 - margin, 100, count);
    MulMono(100, 100 - margin, count);
    MulMono(100 - margin, 0, count);
  }

  // ---------------------------------------------------------------------
  // Properties of the sample.

  /** The sample is s[::k] exactly: its i-th element is the one at index
      i * k of `s`, and i * k is an index of `s`. */
  lemma {:induction false} StrideSampleAt<T>(s: seq<T>, k: nat, i: nat)
    requires k >= 1 && i < |StrideSample(s, k)|
    ensures 0 <= i * k < |s| && StrideSample(s, k)[i] == s[i * k]
  {
    MulMono(0, i, k);
    if i > 0 {
      StrideSampleAt(s[k..], k, i - 1);
      MulSucc(i - 1, k);
    }
  }

  /** A stride of one keeps the whole list. */
  lemma {:induction false} StrideOne<T>(s: seq<T>)
    ensures StrideSample(s, 1) == s
  {
    if |s| > 1 {
      StrideOne(s[1..]);
    }
  }

  /** How many positions a sample of `count` positions keeps at `margin`:
      ceil(count / k) for the stride k. At least one and at most `count`
      when there is a position at all, and never fewer than were asked for
      unless that exceeds `count`. */
  function SampleSize(count: nat, margin: int): (n: nat)
    ensures count >= 1 ==> 1 <= n <= count
    ensures var nv := NumVectors(count, margin);
            count >= 1 ==> (if nv <= count then nv else count) <= n
  {
    var nv := NumVectors(count, margin);
    var k := Stride(count, nv);
    SizeBounds(count, nv, k);
    (count + k - 1) / k
  }

  lemma SizeBounds(count: nat, nv: nat, k: nat)
    requires nv >= 1 && k == Stride(count, nv)
    ensures count >= 1 ==> 1 <= (count + k - 1) / k <= count
    ensures count >= 1 && nv <= count ==> nv <= (count + k - 1) / k
  {
    var a := count + k - 1;
    var n := a / k;
    DivFacts(a, k);
    DivBounds(a, k);
    MulMono(count + 1, n, k);
    MulSucc(count, k);
    MulMono(1, k, count);
    MulMono(n + 1, nv, k);
    MulSucc(n, k);
  }

  /** At margin 0 (or below) the stride is 1 and every position is kept. */
  lemma ZeroMarginKeepsAll(mask: seq<Coord>, margin: int)
    requires margin <= 0
    ensures Sample(mask, margin) == mask
  {
    StrideOne(mask);
  }

  /** At margin 100 (or above) exactly one vector is kept: the first
      position in row-major order. */
  lemma FullMarginKeepsFirst(mask: seq<Coord>, margin: int)
    requires margin >= 100 && |mask| >= 1
    ensures Sample(mask, margin) == [mask[0]]
  {
    ScaledBound(|mask|, margin);
  }

  /** The sample takes its positions from the mask in order: every kept
      position is a mask position, and row-major order is preserved, so
      no position is repeated. */
  lemma {:induction false} SampleRowMajor(mask: seq<Coord>, k: nat)
    requires k >= 1 && RowMajor(mask)
    ensures forall q :: q in StrideSample(mask, k) ==> q in mask
    ensures RowMajor(StrideSample(mask, k))
  {
    if |mask| > k {
      SampleRowMajor(mask[k..], k);
      var rest := StrideSample(mask[k..], k);
      assert forall q :: q in rest ==> Before(mask[0], q);
    }
  }
}
