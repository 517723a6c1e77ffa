/**
 * The image viewer's arithmetic: the scaled-load plan of `onCreate` (the target
 * height formula in Java's 32-bit `int`, and the power-of-two sample size) and
 * the unit chosen for the file-size label.
 */
module ImageDetails {

  // ---------------------------------------------------------------------------
  // Java int arithmetic
  // ---------------------------------------------------------------------------

  const MinInt: int := -0x8000_0000
  const MaxInt: int := 0x7fff_ffff

  predicate IsInt32(x: int)
  {
    MinInt <= x <= MaxInt
  }

  /** A mathematical integer reduced to Java's `int` range, as `int` multiplication wraps. */
  function Wrap32(x: int): (r: int)
    ensures IsInt32(r)
    ensures (r - x) % 0x1_0000_0000 == 0
    ensures IsInt32(x) ==> r == x
  {
    var m := x % 0x1_0000_0000;
    if m <= MaxInt then m else m - 0x1_0000_0000
  }

  function Abs(x: int): nat
  {
    if x < 0 then -x else x
  }

  /** Java's `a / b` for a positive divisor: the quotient truncated toward zero. */
  function JavaDiv(a: int, b: int): (q: int)
    requires b > 0
    ensures (a >= 0 ==> q >= 0) && (a < 0 ==> q <= 0)
    ensures Abs(q) * b <= Abs(a) < (Abs(q) + 1) * b
  {
    DivBounds(Abs(a), b);
    if a >= 0 then a / b else -((-a) / b)
  }

  /** The quotient of Euclidean division, as a bracket around the dividend. */
  lemma DivBounds(a: int, b: int)
    requires a >= 0 && b > 0
    ensures 0 <= a / b
    ensures (a / b) * b <= a < (a / b + 1) * b
  {
    var q, r := a / b, a % b;
    assert a == q * b + r && 0 <= r < b;
    assert (q + 1) * b == q * b + b;
  }

  lemma MulMonotone(q: int, s: int, t: int)
    requires q >= 0 && s <= t
    ensures q * s <= q * t
  {
    assert q * t - q * s == q * (t - s);
  }

  /** The quotient is the largest number whose multiple stays within the dividend. */
  lemma QuotientIsLargest(a: int, s: int, q: int)
    requires a >= 0 && s > 0 && q >= 0 && q * s <= a
    ensures q <= a / s
  {
    DivBounds(a, s);
  }

  // ---------------------------------------------------------------------------
  // calculateInSampleSize
  // ---------------------------------------------------------------------------

  predicate IsPowerOfTwo(n: int)
    decreases if n > 0 then n else 0
  {
    n == 1 || (n > 1 && n % 2 == 0 && IsPowerOfTwo(n / 2))
  }

  /** The loop condition: sampling by `s` still keeps both halved dimensions at least the requested ones. */
  predicate KeepsBoth(halfHeight: int, halfWidth: int, s: int, reqHeight: int, reqWidth: int)
    requires s > 0
  {
    halfHeight / s >= reqHeight && halfWidth / s >= reqWidth
  }

  /**
   * `calculateInSampleSize`: when the image exceeds the request in some
   * dimension, doubles the sample size while the halved image, sampled by it,
   * still covers the request in both dimensions. The inputs are Java `int`s; the
   * loop ends only when one requested dimension is positive.
   */
  method CalculateInSampleSize(width: int, height: int, reqWidth: int, reqHeight: int) returns (inSampleSize: int)
    requires 0 <= width <= MaxInt && 0 <= height <= MaxInt
    requires IsInt32(reqWidth) && IsInt32(reqHeight)
    requires reqWidth > 0 || reqHeight > 0
    ensures IsPowerOfTwo(inSampleSize) && 1 <= inSampleSize <= MaxInt
    ensures height <= reqHeight && width <= reqWidth ==> inSampleSize == 1
    ensures height > reqHeight || width > reqWidth ==>
      !KeepsBoth(height / 2, width / 2, inSampleSize, reqHeight, reqWidth)
    ensures inSampleSize > 1 ==> KeepsBoth(height / 2, width / 2, inSampleSize / 2, reqHeight, reqWidth)
  {
    inSampleSize := 1;
    if height > reqHeight || width > reqWidth {
      var halfHeight := height / 2;
      var halfWidth := width / 2;
      while KeepsBoth(halfHeight, halfWidth, inSampleSize, reqHeight, reqWidth)
        invariant IsPowerOfTwo(inSampleSize)
        invariant 1 <= inSampleSize <= 2 * Max(halfHeight, halfWidth) + 1
        invariant inSampleSize > 1 ==> KeepsBoth(halfHeight, halfWidth, inSampleSize / 2, reqHeight, reqWidth)
        decreases 2 * Max(halfHeight, halfWidth) + 1 - inSampleSize
      {
        SampleBelowHalf(halfHeight, halfWidth, inSampleSize, reqHeight, reqWidth);
        DoublePowerOfTwo(inSampleSize);
        inSampleSize := inSampleSize * 2;
      }
    }
  }

  function Max(a: int, b: int): int
  {
    if a < b then b else a
  }

  lemma DoublePowerOfTwo(n: int)
    requires IsPowerOfTwo(n)
    ensures IsPowerOfTwo(2 * n) && (2 * n) / 2 == n
  {
  }

  /** While the loop condition holds, the sample size is at most a halved dimension, so doubling it cannot overflow. */
  lemma SampleBelowHalf(halfHeight: int, halfWidth: int, s: int, reqHeight: int, reqWidth: int)
    requires 0 <= halfHeight && 0 <= halfWidth && s > 0
    requires reqWidth > 0 || reqHeight > 0
    requires KeepsBoth(halfHeight, halfWidth, s, reqHeight, reqWidth)
    ensures s <= halfHeight || s <= halfWidth
  {
    if reqHeight > 0 {
      DivBelowOne(halfHeight, s);
    } else {
      DivBelowOne(halfWidth, s);
    }
  }

  lemma DivBelowOne(a: int, s: int)
    requires 0 <= a && s > 0 && a / s >= 1
    ensures s <= a
  {
    DivBounds(a, s);
    MulMonotone(s, 1, a / s);
  }

  /** Integer division by a positive number is antitone in the divisor. */
  lemma DivAntitone(a: int, s: int, t: int)
    requires 0 <= a && 0 < s <= t
    ensures a / t <= a / s
  {
    var q := a / t;
    DivBounds(a, t);
    MulMonotone(q, s, t);
    QuotientIsLargest(a, s, q);
  }

  /** The loop condition holds at every sample size below one at which it holds. */
  lemma KeepsBothBelow(halfHeight: int, halfWidth: int, s: int, t: int, reqHeight: int, reqWidth: int)
    requires 0 <= halfHeight && 0 <= halfWidth && 0 < s <= t
    requires KeepsBoth(halfHeight, halfWidth, t, reqHeight, reqWidth)
    ensures KeepsBoth(halfHeight, halfWidth, s, reqHeight, reqWidth)
  {
    DivAntitone(halfHeight, s, t);
    DivAntitone(halfWidth, s, t);
  }

  /**
   * The result is the first power of two at which the condition fails: every
   * sample size up to half of it still keeps both dimensions.
   */
  lemma SampleSizeIsFirstFailure(width: int, height: int, reqWidth: int, reqHeight: int, r: int)
    requires 0 <= width && 0 <= height && r > 1
    requires KeepsBoth(height / 2, width / 2, r / 2, reqHeight, reqWidth)
    ensures forall s :: 1 <= s <= r / 2 ==> KeepsBoth(height / 2, width / 2, s, reqHeight, reqWidth)
  {
    forall s | 1 <= s <= r / 2
      ensures KeepsBoth(height / 2, width / 2, s, reqHeight, reqWidth)
    {
      KeepsBothBelow(height / 2, width / 2, s, r / 2, reqHeight, reqWidth);
    }
  }

  // ---------------------------------------------------------------------------
  // The load plan of onCreate
  // ---------------------------------------------------------------------------

  /** `targetW * outHeight / outWidth` in Java `int`: the product wraps, the quotient truncates. */
  function TargetHeight(targetW: int, outWidth: int, outHeight: int): (h: int)
    requires outWidth > 0
    ensures IsInt32(h)
  {
    var product := Wrap32(targetW * outHeight);
    var h := JavaDiv(product, outWidth);
    QuotientBelow(Abs(h), outWidth, Abs(product));
    h
  }

  /** A quotient is at most its dividend. */
  lemma QuotientBelow(q: nat, b: int, a: nat)
    requires b >= 1 && q * b <= a
    ensures q <= a
  {
    var rest: nat := b - 1;
    assert q * b == q + q * rest;
  }

  /** Without overflow the target height keeps the image's aspect ratio, rounded down. */
  lemma TargetHeightKeepsAspect(targetW: int, outWidth: int, outHeight: int)
    requires targetW >= 0 && outWidth > 0 && outHeight >= 0
    requires targetW * outHeight <= MaxInt
    ensures TargetHeight(targetW, outWidth, outHeight) >= 0
    ensures TargetHeight(targetW, outWidth, outHeight) * outWidth <= targetW * outHeight
    ensures targetW * outHeight < (TargetHeight(targetW, outWidth, outHeight) + 1) * outWidth
  {
  }

  /** A screen 1080 pixels wide and an image 2,000,000 pixels tall: the product wraps and the height comes out negative. */
  lemma TargetHeightCanWrap()
    ensures TargetHeight(1080, 1, 2000000) < 0
  {
    assert Wrap32(1080 * 2000000) == 2160000000 - 0x1_0000_0000;
  }

  /** What `onCreate` does with the decoded bounds: the fallback icon, or a scaled load. */
  datatype LoadPlan = FallbackIcon | ScaledLoad(targetH: int, inSampleSize: int)

  /**
   * The load step of `onCreate` after the bounds-only decode reported
   * `outWidth` x `outHeight`: a non-positive dimension selects the fallback icon;
   * otherwise the target height is computed and the sample size is taken from a
   * fresh `Options`, whose dimensions are both 0, so it is always 1.
   */
  method PrepareImageLoad(outWidth: int, outHeight: int, targetW: int) returns (plan: LoadPlan)
    requires IsInt32(outWidth) && IsInt32(outHeight)
    requires 0 < targetW <= MaxInt
    ensures plan.FallbackIcon? <==> outWidth <= 0 || outHeight <= 0
    ensures plan.ScaledLoad? ==> plan.targetH == TargetHeight(targetW, outWidth, outHeight)
    ensures plan.ScaledLoad? ==> plan.inSampleSize == 1
  {
    if outWidth <= 0 || outHeight <= 0 {
      return FallbackIcon;
    }
    var targetH := TargetHeight(targetW, outWidth, outHeight);
    // options = new BitmapFactory.Options(): outWidth and outHeight are 0 again
    var freshWidth, freshHeight := 0, 0;
    var inSampleSize := CalculateInSampleSize(freshWidth, freshHeight, targetW, targetH);
    assert !KeepsBoth(0, 0, 1, targetH, targetW);
    plan := ScaledLoad(targetH, inSampleSize);
  }

  // ---------------------------------------------------------------------------
  // The file-size label
  // ---------------------------------------------------------------------------

  datatype SizeUnit = Bytes | Kilobytes | Megabytes

  /** How many bytes one of the unit makes. */
  function UnitBytes(u: SizeUnit): int
  {
    match u
    case Bytes => 1
    case Kilobytes => 1024
    case Megabytes => 1024 * 1024
  }

  /** The unit the label picks and the amount it shows in that unit (before `%.2f` / `%d` formatting). */
  datatype SizeLabel = SizeLabel(unit: SizeUnit, amount: real)

  /** The size label of `onCreate` for a file of `size` bytes. */
  function FormatFileSize(size: int): (l: SizeLabel)
    ensures l.unit == Megabytes <==> size > 1048576
    ensures l.unit == Kilobytes <==> 1024 < size <= 1048576
    ensures l.unit == Bytes <==> size <= 1024
    ensures l.amount * UnitBytes(l.unit) as real == size as real
  {
    if size > 1024 * 1024 then SizeLabel(Megabytes, size as real / (1024.0 * 1024.0))
    else if size > 1024 then SizeLabel(Kilobytes, size as real / 1024.0)
    else SizeLabel(Bytes, size as real)
  }

  function UnitRank(u: SizeUnit): nat
  {
    match u
    case Bytes => 0
    case Kilobytes => 1
    case Megabytes => 2
  }

  /** A larger file never gets a smaller unit. */
  lemma SizeUnitMonotone(a: int, b: int)
    requires a <= b
    ensures UnitRank(FormatFileSize(a).unit) <= UnitRank(FormatFileSize(b).unit)
  {
  }

  /** A scaled label shows more than one of its unit, and a kilobyte label at most 1024 of them. */
  lemma ScaledAmountInRange(size: int)
    ensures FormatFileSize(size).unit != Bytes ==> FormatFileSize(size).amount > 1.0
    ensures FormatFileSize(size).unit == Kilobytes ==> FormatFileSize(size).amount <= 1024.0
  {
  }

  /** The boundaries: exactly 1024 bytes is shown in bytes, exactly 1048576 in kilobytes. */
  lemma SizeBoundaries()
    ensures FormatFileSize(1024).unit == Bytes && FormatFileSize(1025).unit == Kilobytes
    ensures FormatFileSize(1048576) == SizeLabel(Kilobytes, 1024.0)
    ensures FormatFileSize(1048577).unit == Megabytes
  {
  }
}
