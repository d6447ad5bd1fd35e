/**
 * The numeric primitives of src/WaveletMath.cc: padding, valid-mode
 * convolution, dyadic down- and up-sampling, and the one-level
 * decomposition / reconstruction built from them. Each primitive is a
 * loop-based method proved equal to a specification function; the
 * properties the documentation promises are proved about those functions.
 * Signal values are exact reals.
 */
module WaveletMath {

  /** Which parity survives down-sampling / receives the data when up-sampling. */
  datatype DyadicMode = Even | Odd

  /** How Pad fills the inserted elements. */
  datatype PaddingMode = Zeroes | Symmetric

  /** The four filters of src/Wavelet.h; the coefficient tables themselves are not modelled. */
  datatype Wavelet = Wavelet(
    lowpassDecomposition: seq<real>,
    highpassDecomposition: seq<real>,
    lowpassReconstruction: seq<real>,
    highpassReconstruction: seq<real>)
  {
    /** Wavelet::Length asserts that all four filters have one length. */
    predicate WellFormed()
    {
      |highpassDecomposition| == |highpassReconstruction| &&
      |highpassDecomposition| == |lowpassDecomposition| &&
      |highpassDecomposition| == |lowpassReconstruction|
    }

    function Length(): nat
      requires WellFormed()
    {
      |highpassDecomposition|
    }
  }

  /** Two sub-bands produced by one decomposition step. */
  datatype Subbands = Subbands(approx: seq<real>, detail: seq<real>)

  // ---------------------------------------------------------------------
  // Pad

  /** Symmetric left padding: position p < padLeft mirrors data around its first element. */
  function LeftMirror(data: seq<real>, padLeft: nat, p: nat): real
    requires |data| > 0 && p < padLeft
  {
    if padLeft - p <= |data| - 1 then data[padLeft - p] else data[|data| - 1]
  }

  /** Symmetric right padding: the q-th element after the data mirrors it around its last element. */
  function RightMirror(data: seq<real>, q: nat): real
    requires |data| > 0
  {
    if q + 1 <= |data| - 1 then data[|data| - 2 - q] else data[0]
  }

  /** Value of position p of the padded sequence. */
  function PadValue(data: seq<real>, padLeft: nat, p: nat, mode: PaddingMode): real
    requires mode == Symmetric ==> |data| > 0
  {
    if padLeft <= p < padLeft + |data| then data[p - padLeft]
    else if mode == Zeroes then 0.0
    else if p < padLeft then LeftMirror(data, padLeft, p)
    else
      assert p >= padLeft + |data|;
      RightMirror(data, p - padLeft - |data|)
  }

  /** The specification of Pad. */
  function Padded(data: seq<real>, padLeft: nat, padRight: nat, mode: PaddingMode): (r: seq<real>)
    requires mode == Symmetric ==> |data| > 0
    ensures |r| == |data| + padLeft + padRight
    ensures forall i :: 0 <= i < |data| ==> r[padLeft + i] == data[i]
    ensures mode == Zeroes ==> forall p :: 0 <= p < |r| && !(padLeft <= p < padLeft + |data|) ==> r[p] == 0.0
  {
    seq(|data| + padLeft + padRight, p requires 0 <= p => PadValue(data, padLeft, p, mode))
  }

  /**
   * WaveletMath::Pad. The symmetric branch keeps the source's four fill
   * loops: the overflow on the left, the mirror on the left, the overflow on
   * the right, the mirror on the right.
   */
  method Pad(data: seq<real>, padLeft: nat, padRight: nat, mode: PaddingMode) returns (extended: seq<real>)
    requires mode == Symmetric ==> |data| > 0
    ensures extended == Padded(data, padLeft, padRight, mode)
  {
    var n := |data|;
    var buf := new real[n + padLeft + padRight](_ => 0.0);
    var i := 0;
    while i < n
      invariant 0 <= i <= n
      invariant forall p :: 0 <= p < buf.Length ==>
        buf[p] == (if padLeft <= p < padLeft + i then data[p - padLeft] else 0.0)
    {
      buf[padLeft + i] := data[i];
      i := i + 1;
    }
    if mode == Symmetric {
      FillLeftMirror(buf, data, padLeft);
      FillRightMirror(buf, data, padLeft, padRight);
    }
    extended := buf[..];
  }

  /** Pad, lines filling the left padding section when the mode is Symmetric. */
  method FillLeftMirror(buf: array<real>, data: seq<real>, padLeft: nat)
    requires |data| > 0 && padLeft + |data| <= buf.Length
    modifies buf
    ensures forall p :: 0 <= p < padLeft ==> buf[p] == LeftMirror(data, padLeft, p)
    ensures forall p :: padLeft <= p < buf.Length ==> buf[p] == old(buf[p])
  {
    var n := |data|;
    var index := 0;
    var i := 0;
    if padLeft >= n {
      while i <= padLeft - n
        invariant 0 <= i <= padLeft - n + 1 && index == i
        invariant forall p :: 0 <= p < i ==> buf[p] == data[n - 1]
        invariant forall p :: padLeft <= p < buf.Length ==> buf[p] == old(buf[p])
      {
        buf[index] := data[n - 1];
        index := index + 1;
        i := i + 1;
      }
    }
    i := index;
    while i < padLeft
      invariant index == i <= padLeft
      invariant forall p :: 0 <= p < i ==> buf[p] == LeftMirror(data, padLeft, p)
      invariant forall p :: padLeft <= p < buf.Length ==> buf[p] == old(buf[p])
    {
      buf[index] := data[padLeft - i];
      index := index + 1;
      i := i + 1;
    }
  }

  /** Pad, lines filling the right padding section when the mode is Symmetric. */
  method FillRightMirror(buf: array<real>, data: seq<real>, padLeft: nat, padRight: nat)
    requires |data| > 0 && buf.Length == padLeft + |data| + padRight
    modifies buf
    ensures forall p :: padLeft + |data| <= p < buf.Length ==> buf[p] == RightMirror(data, p - padLeft - |data|)
    ensures forall p :: 0 <= p < padLeft + |data| ==> buf[p] == old(buf[p])
  {
    var n := |data|;
    var size := buf.Length;
    var back := size - 1;
    if padRight >= n {
      var i := 0;
      while i <= padRight - n
        invariant 0 <= i <= padRight - n + 1 && back == size - 1 - i
        invariant forall p :: back < p < size ==> buf[p] == data[0]
        invariant forall p :: 0 <= p < padLeft + n ==> buf[p] == old(buf[p])
      {
        buf[back] := data[0];
        back := back - 1;
        i := i + 1;
      }
    }
    var j := padRight - ((size - 1) - back);
    while j > 0
      invariant 0 <= j && back == padLeft + n - 1 + j
      invariant forall p :: back < p < size ==> buf[p] == RightMirror(data, p - padLeft - n)
      invariant forall p :: 0 <= p < padLeft + n ==> buf[p] == old(buf[p])
    {
      buf[back] := data[n - 1 - j];
      back := back - 1;
      j := j - 1;
    }
  }

  /**
   * Symmetric padding is a mirror image: around the first element on the
   * left and around the last element on the right, as far as the data reaches.
   */
  lemma SymmetricPadMirrors(data: seq<real>, padLeft: nat, padRight: nat, d: nat)
    requires |data| > 0
    ensures d <= padLeft && d < |data| ==>
      Padded(data, padLeft, padRight, Symmetric)[padLeft - d] == data[d]
    ensures d <= padRight && d < |data| ==>
      Padded(data, padLeft, padRight, Symmetric)[padLeft + |data| - 1 + d] == data[|data| - 1 - d]
  {
  }

  /** Beyond the reach of the mirror, symmetric padding repeats the boundary element. */
  lemma SymmetricPadOverflow(data: seq<real>, padLeft: nat, padRight: nat, p: nat)
    requires |data| > 0 && p < |data| + padLeft + padRight
    ensures p + |data| <= padLeft ==> Padded(data, padLeft, padRight, Symmetric)[p] == data[|data| - 1]
    ensures p >= padLeft + 2 * |data| - 1 ==> Padded(data, padLeft, padRight, Symmetric)[p] == data[0]
  {
  }

  /** The padding examples of test/test.cc: symmetric padding by six samples on each side. */
  lemma PadExampleSymmetricSix()
    ensures Padded([1.0, 2.0, 3.0, 4.0, 5.0], 6, 6, Symmetric) ==
      [5.0, 5.0, 5.0, 4.0, 3.0, 2.0, 1.0, 2.0, 3.0, 4.0, 5.0, 4.0, 3.0, 2.0, 1.0, 1.0, 1.0]
  {
  }

  /** Symmetric padding by five samples on each side: every sample is mirrored once. */
  lemma PadExampleSymmetricFive()
    ensures Padded([1.0, 2.0, 3.0, 4.0, 5.0], 5, 5, Symmetric) ==
      [5.0, 5.0, 4.0, 3.0, 2.0, 1.0, 2.0, 3.0, 4.0, 5.0, 4.0, 3.0, 2.0, 1.0, 1.0]
  {
  }

  /** Zero padding by six samples on each side. */
  lemma PadExampleZeroes()
    ensures Padded([1.0, 2.0, 3.0, 4.0, 5.0], 6, 6, Zeroes) ==
      [0.0, 0.0, 0.0, 0.0, 0.0, 0.0, 1.0, 2.0, 3.0, 4.0, 5.0, 0.0, 0.0, 0.0, 0.0, 0.0, 0.0]
  {
  }

  /** Symmetric padding of a three-sample signal by three samples on each side. */
  lemma PadExampleSymmetricThree()
    ensures Padded([1.0, 2.0, 3.0], 3, 3, Symmetric) == [3.0, 3.0, 2.0, 1.0, 2.0, 3.0, 2.0, 1.0, 1.0]
  {
  }

  // ---------------------------------------------------------------------
  // Convolve

  /** data[i] * coeffs[L-1] + ... + data[i+m-1] * coeffs[L-m], summed in the source's order. */
  function ConvolutionSum(data: seq<real>, coeffs: seq<real>, i: nat, m: nat): real
    requires m <= |coeffs| && i + m <= |data|
  {
    if m == 0 then 0.0
    else ConvolutionSum(data, coeffs, i, m - 1) + data[i + m - 1] * coeffs[|coeffs| - m]
  }

  /** The specification of Convolve: full-overlap convolution. */
  function Convolved(data: seq<real>, coeffs: seq<real>): (r: seq<real>)
    requires 1 <= |coeffs| <= |data|
    ensures |r| == |data| - |coeffs| + 1
  {
    seq(|data| - |coeffs| + 1, i requires 0 <= i <= |data| - |coeffs| => ConvolutionSum(data, coeffs, i, |coeffs|))
  }

  /** WaveletMath::Convolve. */
  method Convolve(data: seq<real>, coeffs: seq<real>) returns (result: seq<real>)
    requires 1 <= |coeffs| <= |data|
    ensures result == Convolved(data, coeffs)
  {
    var buf := new real[|data| - (|coeffs| - 1)];
    var i := 0;
    while i < buf.Length
      invariant 0 <= i <= buf.Length
      invariant forall t :: 0 <= t < i ==> buf[t] == ConvolutionSum(data, coeffs, t, |coeffs|)
    {
      var val := 0.0;
      var j := 0;
      while j < |coeffs|
        invariant 0 <= j <= |coeffs|
        invariant val == ConvolutionSum(data, coeffs, i, j)
      {
        val := val + data[i + j] * coeffs[|coeffs| - j - 1];
        j := j + 1;
      }
      buf[i] := val;
      i := i + 1;
    }
    result := buf[..];
  }

  lemma {:induction false} ConvolutionSumLinear(a: seq<real>, b: seq<real>, x: real, y: real, coeffs: seq<real>, i: nat, m: nat)
    requires |a| == |b| && m <= |coeffs| && i + m <= |a|
    ensures ConvolutionSum(seq(|a|, t requires 0 <= t < |a| => x * a[t] + y * b[t]), coeffs, i, m) ==
      x * ConvolutionSum(a, coeffs, i, m) + y * ConvolutionSum(b, coeffs, i, m)
  {
    if m > 0 {
      ConvolutionSumLinear(a, b, x, y, coeffs, i, m - 1);
    }
  }

  /** Convolution is linear in the signal. */
  lemma ConvolveLinear(a: seq<real>, b: seq<real>, x: real, y: real, coeffs: seq<real>)
    requires |a| == |b| && 1 <= |coeffs| <= |a|
    ensures var mix := seq(|a|, t requires 0 <= t < |a| => x * a[t] + y * b[t]);
      forall i :: 0 <= i < |Convolved(mix, coeffs)| ==>
        Convolved(mix, coeffs)[i] == x * Convolved(a, coeffs)[i] + y * Convolved(b, coeffs)[i]
  {
    var mix := seq(|a|, t requires 0 <= t < |a| => x * a[t] + y * b[t]);
    forall i | 0 <= i < |Convolved(mix, coeffs)|
      ensures Convolved(mix, coeffs)[i] == x * Convolved(a, coeffs)[i] + y * Convolved(b, coeffs)[i]
    {
      ConvolutionSumLinear(a, b, x, y, coeffs, i, |coeffs|);
    }
  }

  lemma {:induction false} ConvolutionSumImpulse(data: seq<real>, coeffs: seq<real>, i: nat, m: nat)
    requires 1 <= m <= |coeffs| && i + m <= |data|
    requires forall t :: 0 <= t < |coeffs| - 1 ==> coeffs[t] == 0.0
    requires coeffs[|coeffs| - 1] == 1.0
    ensures ConvolutionSum(data, coeffs, i, m) == data[i]
  {
    if m > 1 {
      ConvolutionSumImpulse(data, coeffs, i, m - 1);
    }
  }

  /** A filter whose only non-zero coefficient is a final 1 selects a window of the data. */
  lemma ConvolveImpulse(data: seq<real>, coeffs: seq<real>)
    requires 1 <= |coeffs| <= |data|
    requires forall t :: 0 <= t < |coeffs| - 1 ==> coeffs[t] == 0.0
    requires coeffs[|coeffs| - 1] == 1.0
    ensures Convolved(data, coeffs) == data[..|data| - |coeffs| + 1]
  {
    forall i | 0 <= i < |data| - |coeffs| + 1
      ensures Convolved(data, coeffs)[i] == data[i]
    {
      ConvolutionSumImpulse(data, coeffs, i, |coeffs|);
    }
  }

  // ---------------------------------------------------------------------
  // Dyadic down- and up-sampling

  function Start(mode: DyadicMode): nat
  {
    if mode == Even then 0 else 1
  }

  /** The specification of DyadicDownsample: every second element from index 0 (Even) or 1 (Odd). */
  function Downsampled(data: seq<real>, mode: DyadicMode): (r: seq<real>)
    ensures mode == Even ==> |r| == (|data| + 1) / 2
    ensures mode == Odd ==> |r| == |data| / 2
  {
    seq((|data| + 1 - Start(mode)) / 2, k requires 0 <= k < (|data| + 1 - Start(mode)) / 2 => data[2 * k + Start(mode)])
  }

  /** WaveletMath::DyadicDownsample. */
  method DyadicDownsample(data: seq<real>, mode: DyadicMode) returns (out: seq<real>)
    ensures out == Downsampled(data, mode)
  {
    out := [];
    var i := if mode == Even then 0 else 1;
    while i < |data|
      invariant i == Start(mode) + 2 * |out|
      invariant |out| <= (|data| + 1 - Start(mode)) / 2
      invariant i < |data| ==> |out| < (|data| + 1 - Start(mode)) / 2
      invariant i >= |data| ==> |out| == (|data| + 1 - Start(mode)) / 2
      invariant forall t :: 0 <= t < |out| ==> out[t] == data[2 * t + Start(mode)]
    {
      out := out + [data[i]];
      i := i + 2;
    }
  }

  /** The parity of the positions DyadicUpsample fills with data. */
  function Filled(mode: DyadicMode): nat
  {
    if mode == Even then 1 else 0
  }

  /** The specification of DyadicUpsample: data at odd (Even) or even (Odd) positions, zeros elsewhere. */
  function Upsampled(data: seq<real>, mode: DyadicMode): (r: seq<real>)
    requires |data| > 0
    ensures mode == Even ==> |r| == 2 * |data| + 1
    ensures mode == Odd ==> |r| == 2 * |data| - 1
  {
    seq(2 * |data| + 2 * Filled(mode) - 1, p requires 0 <= p < 2 * |data| + 2 * Filled(mode) - 1 =>
      if p % 2 == Filled(mode) then data[p / 2] else 0.0)
  }

  /** WaveletMath::DyadicUpsample. */
  method DyadicUpsample(data: seq<real>, mode: DyadicMode) returns (out: seq<real>)
    requires |data| > 0
    ensures out == Upsampled(data, mode)
  {
    var sourceIndex := 0;
    var newSize := |data| * 2 + (if mode == Even then 1 else -1);
    var buf := new real[newSize](_ => 0.0);
    var first := if mode == Even then 1 else 0;
    var i := first;
    while i < buf.Length
      invariant i == first + 2 * sourceIndex && sourceIndex <= |data|
      invariant forall p :: 0 <= p < buf.Length ==>
        buf[p] == (if p < i && p % 2 == first then data[p / 2] else 0.0)
    {
      buf[i] := data[sourceIndex];
      sourceIndex := sourceIndex + 1;
      i := i + 2;
    }
    assert first == Filled(mode) && i >= buf.Length;
    assert forall p :: 0 <= p < buf.Length ==> buf[p] == Upsampled(data, mode)[p];
    out := buf[..];
  }

  /** Down-sampling with the opposite parity undoes up-sampling. */
  lemma DownsampleUndoesUpsample(data: seq<real>)
    requires |data| > 0
    ensures Downsampled(Upsampled(data, Even), Odd) == data
    ensures Downsampled(Upsampled(data, Odd), Even) == data
  {
    var e := Downsampled(Upsampled(data, Even), Odd);
    forall t | 0 <= t < |data| ensures e[t] == data[t] {
      assert (2 * t + 1) / 2 == t && (2 * t + 1) % 2 == 1;
      assert Upsampled(data, Even)[2 * t + 1] == data[t];
    }
    var o := Downsampled(Upsampled(data, Odd), Even);
    forall t | 0 <= t < |data| ensures o[t] == data[t] {
      assert (2 * t) / 2 == t && (2 * t) % 2 == 0;
      assert Upsampled(data, Odd)[2 * t] == data[t];
    }
  }

  /** Merges an even and an odd half back into one sequence. */
  function Interleave(evens: seq<real>, odds: seq<real>): (r: seq<real>)
    requires |odds| <= |evens| <= |odds| + 1
    ensures |r| == |evens| + |odds|
  {
    seq(|evens| + |odds|, p requires 0 <= p < |evens| + |odds| => if p % 2 == 0 then evens[p / 2] else odds[p / 2])
  }

  /** The Even and Odd halves of a signal partition it: together they hold every element once. */
  lemma DownsampleHalvesPartition(data: seq<real>)
    ensures |Downsampled(data, Odd)| <= |Downsampled(data, Even)| <= |Downsampled(data, Odd)| + 1
    ensures Interleave(Downsampled(data, Even), Downsampled(data, Odd)) == data
  {
    var r := Interleave(Downsampled(data, Even), Downsampled(data, Odd));
    forall p | 0 <= p < |data| ensures r[p] == data[p] {
      if p % 2 == 0 {
        assert 2 * (p / 2) + Start(Even) == p;
      } else {
        assert 2 * (p / 2) + Start(Odd) == p;
      }
    }
  }

  /** The up- and down-sampling examples of test/test.cc. */
  lemma DyadicExamples()
    ensures Upsampled([1.0, 2.0], Even) == [0.0, 1.0, 0.0, 2.0, 0.0]
    ensures Upsampled([1.0, 2.0], Odd) == [1.0, 0.0, 2.0]
    ensures Upsampled([1.0], Even) == [0.0, 1.0, 0.0]
    ensures Upsampled([1.0], Odd) == [1.0]
    ensures Downsampled([1.0, 2.0, 3.0, 4.0, 5.0, 6.0, 7.0, 8.0, 9.0], Odd) == [2.0, 4.0, 6.0, 8.0]
    ensures Downsampled([1.0, 2.0, 3.0, 4.0, 5.0, 6.0, 7.0, 8.0, 9.0], Even) == [1.0, 3.0, 5.0, 7.0, 9.0]
    ensures Downsampled([1.0, 2.0, 3.0, 4.0, 5.0, 6.0, 7.0, 8.0, 9.0, 10.0], Odd) == [2.0, 4.0, 6.0, 8.0, 10.0]
    ensures Downsampled([1.0, 2.0, 3.0, 4.0, 5.0, 6.0, 7.0, 8.0, 9.0, 10.0], Even) == [1.0, 3.0, 5.0, 7.0, 9.0]
  {
  }

  /** The up-sampling example of test/test.cc:169-171. */
  lemma UpsampleTenEven()
    ensures Upsampled([1.0, 2.0, 3.0, 4.0, 5.0, 6.0, 7.0, 8.0, 9.0, 10.0], Even) ==
            [0.0, 1.0, 0.0, 2.0, 0.0, 3.0, 0.0, 4.0, 0.0, 5.0, 0.0, 6.0, 0.0, 7.0, 0.0, 8.0, 0.0, 9.0, 0.0, 10.0, 0.0]
  {
  }

  /** The up-sampling example of test/test.cc:172-174. */
  lemma UpsampleTenOdd()
    ensures Upsampled([1.0, 2.0, 3.0, 4.0, 5.0, 6.0, 7.0, 8.0, 9.0, 10.0], Odd) ==
            [1.0, 0.0, 2.0, 0.0, 3.0, 0.0, 4.0, 0.0, 5.0, 0.0, 6.0, 0.0, 7.0, 0.0, 8.0, 0.0, 9.0, 0.0, 10.0]
  {
  }

  /** The up-sampling example of test/test.cc:175-177. */
  lemma UpsampleNineOdd()
    ensures Upsampled([1.0, 2.0, 3.0, 4.0, 5.0, 6.0, 7.0, 8.0, 9.0], Odd) ==
            [1.0, 0.0, 2.0, 0.0, 3.0, 0.0, 4.0, 0.0, 5.0, 0.0, 6.0, 0.0, 7.0, 0.0, 8.0, 0.0, 9.0]
  {
  }

  /** The up-sampling example of test/test.cc:178-180. */
  lemma UpsampleNineEven()
    ensures Upsampled([1.0, 2.0, 3.0, 4.0, 5.0, 6.0, 7.0, 8.0, 9.0], Even) ==
            [0.0, 1.0, 0.0, 2.0, 0.0, 3.0, 0.0, 4.0, 0.0, 5.0, 0.0, 6.0, 0.0, 7.0, 0.0, 8.0, 0.0, 9.0, 0.0]
  {
  }

  // ---------------------------------------------------------------------
  // Decompose

  /** Decompose's own assertions, through Pad and Convolve, on a signal of length n. */
  predicate Decomposable(n: nat, w: Wavelet, padding: PaddingMode)
  {
    w.WellFormed() && w.Length() > 0 &&
    (padding == Symmetric ==> n > 0) && n + w.Length() >= 2
  }

  /** Length of each sub-band that Decompose produces from a signal of length n. */
  function SubbandLength(n: nat, filterLength: nat, mode: DyadicMode): nat
    requires filterLength >= 1
  {
    if mode == Even then (n + filterLength) / 2 else (n + filterLength - 1) / 2
  }

  /** The specification of Decompose: pad by L-1, convolve with each filter, down-sample. */
  function Decomposition(data: seq<real>, w: Wavelet, mode: DyadicMode, padding: PaddingMode): (r: Subbands)
    requires Decomposable(|data|, w, padding)
    ensures |r.approx| == SubbandLength(|data|, w.Length(), mode)
    ensures |r.detail| == SubbandLength(|data|, w.Length(), mode)
  {
    var padded := Padded(data, w.Length() - 1, w.Length() - 1, padding);
    Subbands(
      Downsampled(Convolved(padded, w.lowpassDecomposition), mode),
      Downsampled(Convolved(padded, w.highpassDecomposition), mode))
  }

  /** WaveletMath::Decompose. */
  method Decompose(data: seq<real>, w: Wavelet, mode: DyadicMode, padding: PaddingMode)
    returns (approx: seq<real>, detail: seq<real>)
    requires Decomposable(|data|, w, padding)
    ensures Subbands(approx, detail) == Decomposition(data, w, mode, padding)
  {
    var extension := w.Length() - 1;
    var padded := Pad(data, extension, extension, padding);
    var lowPass := Convolve(padded, w.lowpassDecomposition);
    var highPass := Convolve(padded, w.highpassDecomposition);
    approx := DyadicDownsample(lowPass, mode);
    detail := DyadicDownsample(highPass, mode);
    DecompositionParts(data, w, mode, padding, extension, padded, lowPass, highPass, approx, detail);
  }

  /**
   * Decomposition, spelled out from the padded signal, its two convolutions
   * and their down-sampled halves. A proof helper with no counterpart in the
   * source: it keeps Decompose's proof within the resource limit.
   */
  lemma DecompositionParts(data: seq<real>, w: Wavelet, mode: DyadicMode, padding: PaddingMode,
                           extension: nat, padded: seq<real>, lowPass: seq<real>, highPass: seq<real>,
                           approx: seq<real>, detail: seq<real>)
    requires Decomposable(|data|, w, padding) && extension == w.Length() - 1
    requires padded == Padded(data, extension, extension, padding)
    requires 1 <= |w.lowpassDecomposition| <= |padded| && lowPass == Convolved(padded, w.lowpassDecomposition)
    requires 1 <= |w.highpassDecomposition| <= |padded| && highPass == Convolved(padded, w.highpassDecomposition)
    requires approx == Downsampled(lowPass, mode) && detail == Downsampled(highPass, mode)
    ensures Subbands(approx, detail) == Decomposition(data, w, mode, padding)
  {
  }

  /**
   * A sub-band is never empty when the signal is not, provided the filter
   * has at least two taps or the mode is Even, and it is long enough that
   * twice its length covers the signal (the reconstruction window fits).
   */
  lemma SubbandBounds(n: nat, filterLength: nat, mode: DyadicMode)
    requires filterLength >= 2 || (filterLength >= 1 && mode == Even)
    ensures n > 0 ==> SubbandLength(n, filterLength, mode) > 0
    ensures n <= 2 * SubbandLength(n, filterLength, mode)
  {
  }

  /** Sub-bands can themselves be decomposed again. */
  lemma SubbandDecomposable(n: nat, w: Wavelet, mode: DyadicMode, padding: PaddingMode)
    requires Decomposable(n, w, padding)
    requires w.Length() >= 2 || mode == Even
    ensures Decomposable(SubbandLength(n, w.Length(), mode), w, padding)
  {
  }

  // ---------------------------------------------------------------------
  // Reconstruct

  /** Where the output window starts in the wide convolution result. */
  function WindowStart(filterLength: nat, mode: DyadicMode): int
  {
    filterLength - (if mode == Even then 0 else 2)
  }

  /** The precondition of Reconstruct: its asserts, and the copy_n window inside the convolution. */
  predicate Reconstructible(coeffCount: nat, filter: seq<real>, w: Wavelet, dataSize: nat)
  {
    w.WellFormed() && w.Length() > 2 && w.Length() == |filter| &&
    coeffCount > 0 && dataSize <= 2 * coeffCount
  }

  /** Up-sample, pad by L-1, convolve: the signal Reconstruct copies its window from. */
  function WideReconstruction(coeffs: seq<real>, filter: seq<real>, mode: DyadicMode, padding: PaddingMode): (r: seq<real>)
    requires |coeffs| > 0 && |filter| >= 1
    ensures |r| == 2 * |coeffs| + (if mode == Even then 1 else -1) + |filter| - 1
  {
    Convolved(Padded(Upsampled(coeffs, mode), |filter| - 1, |filter| - 1, padding), filter)
  }

  /**
   * The copy_n window of Reconstruct lies inside the convolution result
   * exactly when the requested size is at most twice the coefficient count.
   */
  lemma ReconstructWindowFits(coeffs: seq<real>, filter: seq<real>, mode: DyadicMode, padding: PaddingMode, dataSize: nat)
    requires |coeffs| > 0 && |filter| >= 3
    ensures 0 <= WindowStart(|filter|, mode)
    ensures WindowStart(|filter|, mode) + dataSize <= |WideReconstruction(coeffs, filter, mode, padding)|
      <==> dataSize <= 2 * |coeffs|
  {
  }

  /** The specification of Reconstruct. */
  function Reconstruction(coeffs: seq<real>, filter: seq<real>, w: Wavelet, dataSize: nat, mode: DyadicMode, padding: PaddingMode): (r: seq<real>)
    requires Reconstructible(|coeffs|, filter, w, dataSize)
    ensures |r| == dataSize
    ensures forall t :: 0 <= t < dataSize ==>
      r[t] == WideReconstruction(coeffs, filter, mode, padding)[WindowStart(|filter|, mode) + t]
  {
    var wide := WideReconstruction(coeffs, filter, mode, padding);
    var start := WindowStart(|filter|, mode);
    wide[start..start + dataSize]
  }

  /** WaveletMath::Reconstruct. */
  method Reconstruct(coeffs: seq<real>, filter: seq<real>, w: Wavelet, dataSize: nat, mode: DyadicMode, padding: PaddingMode)
    returns (data: seq<real>)
    requires Reconstructible(|coeffs|, filter, w, dataSize)
    ensures data == Reconstruction(coeffs, filter, w, dataSize, mode, padding)
  {
    var upsampled := DyadicUpsample(coeffs, mode);
    var padded := Pad(upsampled, w.Length() - 1, w.Length() - 1, padding);
    var wide := Convolve(padded, filter);
    var shift := if mode == Even then 0 else 2;
    var begin := w.Length() - shift;
    ReconstructionParts(coeffs, filter, w, dataSize, mode, padding, wide, begin);
    data := wide[begin..begin + dataSize];
  }

  /** Reconstruction, spelled out from the convolution result and the start of the window. */
  lemma ReconstructionParts(coeffs: seq<real>, filter: seq<real>, w: Wavelet, dataSize: nat, mode: DyadicMode,
                            padding: PaddingMode, wide: seq<real>, begin: int)
    requires Reconstructible(|coeffs|, filter, w, dataSize)
    requires wide == WideReconstruction(coeffs, filter, mode, padding) && begin == WindowStart(|filter|, mode)
    ensures 0 <= begin && begin + dataSize <= |wide|
    ensures Reconstruction(coeffs, filter, w, dataSize, mode, padding) == wide[begin..begin + dataSize]
  {
    ReconstructWindowFits(coeffs, filter, mode, padding, dataSize);
  }
}
