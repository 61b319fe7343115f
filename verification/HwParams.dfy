/**
 The period and buffer computation inside OSS32_WaveSetHwParams (lib32/sound.c): a requested period
 size is brought in line with the hardware's limits in bytes and in samples, in 32-bit arithmetic.
 */
module HwParams {
  import opened Arithmetic

  const HALF := 0x8000_0000

  /** What SNDRV_PCM_IOCTL_HW_REFINE reports: limits in bytes, in samples, and on the number of periods. */
  datatype Limits = Limits(minBytes: nat, maxBytes: nat, minSize: nat, maxSize: nat, bufSize: nat, minPeriods: int, maxPeriods: int)

  ghost predicate InRange(l: Limits) {
    l.minBytes < WORD && l.maxBytes < WORD && l.minSize < WORD && l.maxSize < WORD && l.bufSize < WORD
  }

  /** The macro samples_to_bytes, for a frame of frameBytes bytes: doublesamplesize is twice that. */
  function SamplesToBytes(a: nat, frameBytes: nat): nat {
    Quot(Rem(a * (2 * frameBytes), WORD), 2)
  }

  /** The macro bytes_to_samples. */
  function BytesToSamples(a: nat, frameBytes: nat): nat {
    if 2 * frameBytes != 0 then Quot(Rem(a * 2, WORD), 2 * frameBytes) else a
  }

  function Clamp(x: int, low: int, high: int): int {
    if x < low then low else if x > high then high else x
  }

  datatype Outcome = Accepted(periodSize: nat, periodBytes: nat, nrPeriods: int) | InvalidParameter | DivideFault

  /** The two sizes after each has been clamped to its own limits. */
  function ClampedBytes(request: nat, l: Limits): nat { Clamp(request, l.minBytes, l.maxBytes) }

  function ClampedSize(request: nat, frameBytes: nat, l: Limits): nat {
    Clamp(BytesToSamples(request, frameBytes), l.minSize, l.maxSize)
  }

  /** The computation of lines 637 to 714. */
  method PeriodSetup(request: nat, frameBytes: nat, l: Limits) returns (o: Outcome)
    requires request < WORD && 2 * frameBytes < WORD && InRange(l)
    ensures o == Setup(ClampedSize(request, frameBytes, l), ClampedBytes(request, l), frameBytes, l)
  {
    var periodbytes := request;
    var periodsize := BytesToSamples(periodbytes, frameBytes);
    if periodbytes < l.minBytes {
      periodbytes := l.minBytes;
    } else if periodbytes > l.maxBytes {
      periodbytes := l.maxBytes;
    }
    if periodsize < l.minSize {
      periodsize := l.minSize;
    } else if periodsize > l.maxSize {
      periodsize := l.maxSize;
    }
    if SamplesToBytes(periodsize, frameBytes) < periodbytes {
      periodbytes := SamplesToBytes(periodsize, frameBytes);
    } else if BytesToSamples(periodbytes, frameBytes) < periodsize {
      periodsize := BytesToSamples(periodbytes, frameBytes);
    }
    if periodsize == 0 {
      return InvalidParameter;
    }
    if periodbytes == 0 {
      return DivideFault;
    }
    var nrperiods := S32(Quot(l.bufSize, periodbytes));
    if nrperiods < l.minPeriods {
      nrperiods := l.minPeriods;
    } else if nrperiods > l.maxPeriods {
      nrperiods := l.maxPeriods;
    }
    if nrperiods == 1 {
      return InvalidParameter;
    }
    nrperiods := nrperiods - nrperiods % 2;
    o := Accepted(periodsize, periodbytes, nrperiods);
  }

  /** The sizes after reconciliation, from the clamped ones. */
  function Reconciled(size: nat, bytes: nat, frameBytes: nat): (nat, nat) {
    if SamplesToBytes(size, frameBytes) < bytes then (size, SamplesToBytes(size, frameBytes))
    else if BytesToSamples(bytes, frameBytes) < size then (BytesToSamples(bytes, frameBytes), bytes)
    else (size, bytes)
  }

  function Setup(size: nat, bytes: nat, frameBytes: nat, l: Limits): Outcome {
    var (ps, pb) := Reconciled(size, bytes, frameBytes);
    if ps == 0 then InvalidParameter
    else if pb == 0 then DivideFault
    else
      var n := Clamp(S32(Quot(l.bufSize, pb)), l.minPeriods, l.maxPeriods);
      if n == 1 then InvalidParameter else Accepted(ps, pb, n - n % 2)
  }

  // ---------------------------------------------------------------- the sizes agree

  lemma Halve(a: nat, f: nat)
    ensures SamplesToBytes(a, f) == Rem(a * f, HALF)
  {
    var q, r := Quot(a * f, HALF), Rem(a * f, HALF);
    Regroup(a, f, q, r);
    QuotUnique(a * (2 * f), WORD, q, 2 * r);
    QuotUnique(2 * r, 2, r, 0);
  }

  lemma Regroup(a: nat, f: nat, q: nat, r: nat)
    requires a * f == q * HALF + r
    ensures a * (2 * f) == q * WORD + 2 * r
  {
  }

  lemma HalveBytes(a: nat, f: nat)
    requires 0 < f
    ensures BytesToSamples(a, f) == Quot(Rem(a, HALF), f)
  {
    var q, r := Quot(a, HALF), Rem(a, HALF);
    QuotUnique(a * 2, WORD, q, 2 * r);
    Cancel(r, f, 2);
    assert r * 2 == 2 * r && f * 2 == 2 * f;
  }

  /** Exactly when the conversion of the clamped sample count loses bits, and loses them visibly. */
  predicate Overflows(size: nat, bytes: nat, frameBytes: nat) {
    SamplesToBytes(size, frameBytes) < bytes && size * frameBytes >= HALF
  }

  /**
   Main result: after reconciliation the period size is the number of whole frames in the period bytes,
   for every clamped pair, exactly unless converting the samples to bytes has overflowed.
   */
  lemma SizesAgree(size: nat, bytes: nat, frameBytes: nat)
    requires 0 < frameBytes && 2 * frameBytes < WORD && size < WORD && bytes < WORD
    ensures var (ps, pb) := Reconciled(size, bytes, frameBytes);
            ps == Quot(pb, frameBytes) <==> !Overflows(size, bytes, frameBytes)
  {
    var f := frameBytes;
    Halve(size, f);
    HalveBytes(bytes, f);
    if SamplesToBytes(size, f) < bytes {
      ShortBytes(size, f);
    } else {
      assert bytes < HALF;
      QuotUnique(bytes, HALF, 0, bytes);
      var y, e := Quot(bytes, f), Rem(bytes, f);
      if y >= size {
        Monotone(f, size, y);
        RemBelow(size * f, HALF);
        QuotUnique(bytes, f, size, bytes - size * f);
      }
    }
  }

  lemma RemBelow(n: nat, d: nat)
    requires 0 < d
    ensures Rem(n, d) <= n
  {
  }

  /** size frames, cut to 31 bits, hold size frames exactly if nothing was cut off. */
  lemma ShortBytes(size: nat, f: nat)
    requires 0 < f
    ensures size == Quot(Rem(size * f, HALF), f) <==> size * f < HALF
  {
    var n := size * f;
    var q, r := Quot(n, HALF), Rem(n, HALF);
    if n < HALF {
      QuotUnique(n, HALF, 0, n);
      QuotUnique(n, f, size, 0);
    } else {
      assert q >= 1;
      QuotBelow(r, size, f);
    }
  }

  /**
   The test on the period size protects the division by the period bytes: exactly unless there is no
   sample size at all, or the samples overflow to a multiple of 2^31 bytes.
   */
  lemma WhenDivideFaults(size: nat, bytes: nat, frameBytes: nat, l: Limits)
    requires 2 * frameBytes < WORD && size < WORD && bytes < WORD && InRange(l)
    ensures Setup(size, bytes, frameBytes, l) == DivideFault
        <==> size != 0 && bytes != 0 && SamplesToBytes(size, frameBytes) == 0
    ensures SamplesToBytes(size, frameBytes) == 0 && size != 0 && 0 < frameBytes ==> size * frameBytes >= HALF
  {
    Halve(size, frameBytes);
    if 0 < frameBytes {
      HalveBytes(bytes, frameBytes);
      ShortBytes(size, frameBytes);
      QuotUnique(0, frameBytes, 0, 0);
      if bytes == 0 {
        QuotUnique(0, HALF, 0, 0);
      }
    } else {
      QuotUnique(0, HALF, 0, 0);
    }
  }

  /** The sizes of a request overflow exactly if the hardware's least period is meant, and is 2 GB or more. */
  lemma WhenRequestOverflows(request: nat, frameBytes: nat, l: Limits)
    requires 0 < frameBytes && 2 * frameBytes < WORD && request < WORD && InRange(l)
    ensures Overflows(ClampedSize(request, frameBytes, l), ClampedBytes(request, l), frameBytes)
        <==> && BytesToSamples(request, frameBytes) < l.minSize && l.minSize * frameBytes >= HALF
             && SamplesToBytes(l.minSize, frameBytes) < ClampedBytes(request, l)
  {
    var x, size := BytesToSamples(request, frameBytes), ClampedSize(request, frameBytes, l);
    if x >= l.minSize {
      AtMostRequested(request, frameBytes, size);
    } else {
      assert size == l.minSize;
    }
  }

  lemma AtMostRequested(request: nat, f: nat, size: nat)
    requires 0 < f && size <= BytesToSamples(request, f)
    ensures size * f < HALF
  {
    HalveBytes(request, f);
    Monotone(f, size, BytesToSamples(request, f));
  }

  /** Main result for callers: on hardware whose least period is below 2 GB, the sizes agree for every request, and nothing faults. */
  lemma EveryRequestAgrees(request: nat, frameBytes: nat, l: Limits)
    requires 0 < frameBytes && 2 * frameBytes < WORD && request < WORD && InRange(l) && l.minSize * frameBytes < HALF
    ensures var size, bytes := ClampedSize(request, frameBytes, l), ClampedBytes(request, l);
            var (ps, pb) := Reconciled(size, bytes, frameBytes);
            ps == Quot(pb, frameBytes) && Setup(size, bytes, frameBytes, l) != DivideFault
  {
    var size, bytes := ClampedSize(request, frameBytes, l), ClampedBytes(request, l);
    WhenRequestOverflows(request, frameBytes, l);
    SizesAgree(size, bytes, frameBytes);
    WhenDivideFaults(size, bytes, frameBytes, l);
  }

  /** The limits in bytes are those in samples, and below 2 GB. */
  ghost predicate Consistent(l: Limits, frameBytes: nat) {
    && InRange(l) && 0 < l.minSize <= l.maxSize
    && l.minBytes == l.minSize * frameBytes && l.maxBytes == l.maxSize * frameBytes < HALF
  }

  /**
   Main result on the sizes: where the hardware's limits in bytes and in samples say the same, the period
   is as many whole frames as are in the request, brought within the limits, and the bytes are just those
   of these frames; so a request of whole frames within the limits is granted as it is. It is refused
   exactly if a single period is left.
   */
  lemma SizesGranted(request: nat, frameBytes: nat, l: Limits)
    requires 0 < frameBytes && 2 * frameBytes < WORD && request < WORD && Consistent(l, frameBytes)
    ensures var (ps, pb) := Reconciled(ClampedSize(request, frameBytes, l), ClampedBytes(request, l), frameBytes);
            && pb == ps * frameBytes && l.minSize <= ps <= l.maxSize && l.minBytes <= pb <= l.maxBytes
            && (request < l.minBytes ==> ps == l.minSize)
            && (l.minBytes <= request <= l.maxBytes ==> pb <= request < pb + frameBytes)
            && (l.maxBytes < request < HALF ==> ps == l.maxSize)
    ensures var o := Setup(ClampedSize(request, frameBytes, l), ClampedBytes(request, l), frameBytes, l);
            var (ps, pb) := Reconciled(ClampedSize(request, frameBytes, l), ClampedBytes(request, l), frameBytes);
            if pb != 0 && Clamp(S32(Quot(l.bufSize, pb)), l.minPeriods, l.maxPeriods) == 1 then o == InvalidParameter
            else o.Accepted? && o.periodSize == ps && o.periodBytes == pb
  {
    var f := frameBytes;
    var q := BytesToSamples(request, f);
    var size, bytes := ClampedSize(request, f, l), ClampedBytes(request, l);
    HalveBytes(request, f);
    var rest := Rem(request, HALF);
    RemBelow(request, HALF);
    SizeOfLimits(request, f, l);
    Halve(size, f);
    QuotUnique(size * f, HALF, 0, size * f);
    if size * f == bytes {
      HalveBytes(bytes, f);
      QuotUnique(bytes, HALF, 0, bytes);
      QuotUnique(bytes, f, size, 0);
    }
    assert Reconciled(size, bytes, f) == (size, size * f);
    Monotone(f, l.minSize, size);
    Monotone(f, size, l.maxSize);
    Monotone(f, 1, l.minSize);
  }

  /** The clamped frames take at most the clamped bytes; what they are. */
  ghost predicate Fitting(request: nat, f: nat, l: Limits, size: nat) {
    && l.minSize <= size <= l.maxSize && size * f <= ClampedBytes(request, l) && size * f <= l.maxBytes
    && (request < l.minBytes ==> size == l.minSize)
    && (l.minBytes <= request <= l.maxBytes ==> size * f <= request < size * f + f)
    && (l.maxBytes < request < HALF ==> size == l.maxSize)
  }

  lemma WholeFrames(request: nat, f: nat)
    requires 0 < f
    ensures var q := BytesToSamples(request, f); q * f <= request && (request < HALF ==> request < q * f + f)
  {
    HalveBytes(request, f);
    RemBelow(request, HALF);
    if request < HALF {
      QuotUnique(request, HALF, 0, request);
    }
  }

  lemma SizeOfLimits(request: nat, f: nat, l: Limits)
    requires 0 < f && 2 * f < WORD && request < WORD && Consistent(l, f)
    ensures Fitting(request, f, l, ClampedSize(request, f, l))
  {
    var q := BytesToSamples(request, f);
    WholeFrames(request, f);
    Monotone(f, l.minSize, l.maxSize);
    if q < l.minSize {
      TooFewFrames(request, f, l, q);
    } else if q <= l.maxSize {
      FramesWithin(request, f, l, q);
    } else {
      TooManyFrames(request, f, l, q);
    }
  }

  lemma TooFewFrames(request: nat, f: nat, l: Limits, q: nat)
    requires Consistent(l, f) && l.minBytes <= l.maxBytes && q < l.minSize && (request < HALF ==> request < q * f + f)
    ensures Fitting(request, f, l, l.minSize)
  {
    NextMultiple(q, f);
    Monotone(f, q + 1, l.minSize);
  }

  lemma FramesWithin(request: nat, f: nat, l: Limits, q: nat)
    requires Consistent(l, f) && l.minSize <= q <= l.maxSize && q * f <= request && (request < HALF ==> request < q * f + f)
    ensures Fitting(request, f, l, q)
  {
    Monotone(f, l.minSize, q);
    Monotone(f, q, l.maxSize);
    if q < l.maxSize {
      NextMultiple(q, f);
      Monotone(f, q + 1, l.maxSize);
    }
  }

  lemma TooManyFrames(request: nat, f: nat, l: Limits, q: nat)
    requires Consistent(l, f) && 0 < f && l.minBytes <= l.maxBytes && l.maxSize < q && q * f <= request
    ensures Fitting(request, f, l, l.maxSize)
  {
    NextMultiple(l.maxSize, f);
    Monotone(f, l.maxSize + 1, q);
  }

  /** Main result on the number of periods: even, and the periods fit into the buffer unless the minimum forbids it. */
  lemma PeriodsFit(size: nat, bytes: nat, frameBytes: nat, l: Limits)
    requires Setup(size, bytes, frameBytes, l).Accepted? && InRange(l)
    ensures var o := Setup(size, bytes, frameBytes, l);
            var fit := S32(Quot(l.bufSize, o.periodBytes));
            && 0 < o.periodSize && 0 < o.periodBytes && o.nrPeriods % 2 == 0 && o.nrPeriods != 1
            && (fit >= l.minPeriods ==> o.nrPeriods * o.periodBytes <= l.bufSize)
            && (fit < l.minPeriods ==> o.nrPeriods == l.minPeriods - l.minPeriods % 2)
            && (l.minPeriods <= l.maxPeriods ==>
                  && o.nrPeriods <= l.maxPeriods
                  && (o.nrPeriods >= l.minPeriods <==> !(Clamp(fit, l.minPeriods, l.maxPeriods) == l.minPeriods && l.minPeriods % 2 == 1)))
  {
    var o := Setup(size, bytes, frameBytes, l);
    var q := Quot(l.bufSize, o.periodBytes);
    if S32(q) >= l.minPeriods {
      var r := Rem(l.bufSize, o.periodBytes);
      Monotone(o.periodBytes, o.nrPeriods, q);
    }
  }

  /** Within the limits no larger even number of periods fits; beyond them it is the largest one allowed. */
  lemma MostPeriods(size: nat, bytes: nat, frameBytes: nat, l: Limits)
    requires Setup(size, bytes, frameBytes, l).Accepted? && InRange(l)
    ensures var o := Setup(size, bytes, frameBytes, l);
            var fit := S32(Quot(l.bufSize, o.periodBytes));
            && (0 <= fit && l.minPeriods <= fit <= l.maxPeriods ==> l.bufSize < (o.nrPeriods + 2) * o.periodBytes)
            && (l.minPeriods <= l.maxPeriods < fit ==> o.nrPeriods == l.maxPeriods - l.maxPeriods % 2)
  {
    var o := Setup(size, bytes, frameBytes, l);
    var q, r := Quot(l.bufSize, o.periodBytes), Rem(l.bufSize, o.periodBytes);
    if 0 <= S32(q) && l.minPeriods <= S32(q) <= l.maxPeriods {
      NextMultiple(q, o.periodBytes);
      Monotone(o.periodBytes, q + 1, o.nrPeriods + 2);
    }
  }

  lemma NextMultiple(q: int, d: int)
    ensures (q + 1) * d == q * d + d
  {
  }

  /** A request whose sizes disagree: two gigabytes asked for, and hardware limits that allow it. */
  lemma OverflowHappens()
    ensures var l := Limits(0, 0xFFFF_FFFF, 0x4000_0000, 0xFFFF_FFFF, 0xFFFF_FFFF, 2, 1024);
            && InRange(l) && Overflows(ClampedSize(0x1000, 4, l), ClampedBytes(0x1000, l), 4)
            && Setup(ClampedSize(0x1000, 4, l), ClampedBytes(0x1000, l), 4, l) == DivideFault
  {
  }
}
