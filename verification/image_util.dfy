/** The buffer-compatibility test that decides whether a pooled bitmap may be
    handed to the decoder for in-place reuse, the bytes-per-pixel table it
    relies on, and the guarded recycle call. Java `int` arithmetic is written
    out: division truncates toward zero and products wrap at 32 bits. */
module ImageUtil {
  import opened Wrappers

  /** `Bitmap.Config`; every configuration the table does not list (and a
      missing one) is `OtherConfig`. */
  datatype Config = Argb8888 | Rgb565 | Argb4444 | Alpha8 | OtherConfig

  /** The attributes of a decoded buffer that the reuse test reads. */
  datatype Bitmap = Bitmap(width: int, height: int, config: Config, allocationByteCount: int, recycled: bool)

  /** The bounds-only decode result and the sample size of a decode request
      (`outWidth`, `outHeight`, `inSampleSize` of `BitmapFactory.Options`). */
  datatype Request = Request(outWidth: int, outHeight: int, inSampleSize: int)

  /** `Build.VERSION_CODES.KITKAT`. */
  const KitKat: int := 19

  const TwoTo31: int := 0x8000_0000
  const TwoTo32: int := 0x1_0000_0000

  predicate IsInt32(x: int) {
    -TwoTo31 <= x < TwoTo31
  }

  /** The value a Java `int` holds after an operation whose exact result is `x`. */
  function Wrap32(x: int): (r: int)
    ensures IsInt32(r)
    ensures (x - r) % TwoTo32 == 0
    ensures IsInt32(x) ==> r == x
  {
    (x + TwoTo31) % TwoTo32 - TwoTo31
  }

  /** Java `a / b` for a positive divisor: the quotient truncated toward zero. */
  function JavaDiv(a: int, b: int): (q: int)
    requires b > 0
    ensures a >= 0 ==> q == a / b
    ensures a < 0 ==> q <= 0 && -q == (-a) / b
  {
    if a >= 0 then a / b else -((-a) / b)
  }

  /** `getBytesPerPixel`: four bytes for ARGB_8888, two for RGB_565 and
      ARGB_4444, one for ALPHA_8 and for anything else. */
  function BytesPerPixel(c: Config): (n: int)
    ensures 1 <= n <= 4 && n != 3
    ensures n == 4 <==> c == Argb8888
    ensures n == 2 <==> c == Rgb565 || c == Argb4444
  {
    match c
    case Argb8888 => 4
    case Rgb565 => 2
    case Argb4444 => 2
    case Alpha8 => 1
    case OtherConfig => 1
  }

  /** The requested width or height after subsampling: divided by the sample
      size only when that is positive. */
  function Sampled(extent: int, sampleSize: int): int {
    if sampleSize > 0 then JavaDiv(extent, sampleSize) else extent
  }

  /** The byte count the source computes for a request, in wrapping `int`
      arithmetic, using the candidate buffer's configuration. */
  function ByteCount32(b: Bitmap, o: Request): int {
    Wrap32(Wrap32(Sampled(o.outWidth, o.inSampleSize) * Sampled(o.outHeight, o.inSampleSize))
           * BytesPerPixel(b.config))
  }

  /** The exact byte count of the same request. */
  function ByteCount(b: Bitmap, o: Request): int {
    Sampled(o.outWidth, o.inSampleSize) * Sampled(o.outHeight, o.inSampleSize) * BytesPerPixel(b.config)
  }

  /** `canUseForInBitmap` as the source writes it. From KitKat on, a buffer is
      compatible when the request's byte count (computed in 32-bit
      arithmetic) does not exceed the buffer's allocation; before KitKat the
      dimensions must match exactly and the sample size must be 1. */
  function CanUseForInBitmap(sdk: int, b: Bitmap, o: Request): (ok: bool)
    ensures sdk < KitKat ==>
              (ok <==> b.width == o.outWidth && b.height == o.outHeight && o.inSampleSize == 1)
    ensures sdk >= KitKat && IsInt32(ByteCount(b, o)) ==>
              (ok <==> ByteCount(b, o) <= b.allocationByteCount)
  {
    if sdk >= KitKat then
      WrapIsExact(b, o);
      ByteCount32(b, o) <= b.allocationByteCount
    else
      b.width == o.outWidth && b.height == o.outHeight && o.inSampleSize == 1
  }

  /** When the exact byte count fits in an `int`, so does the intermediate
      product (the factor is at least 1), and the wrapping computation agrees
      with the exact one. */
  lemma WrapIsExact(b: Bitmap, o: Request)
    ensures IsInt32(ByteCount(b, o)) ==> ByteCount32(b, o) == ByteCount(b, o)
  {
    var p := Sampled(o.outWidth, o.inSampleSize) * Sampled(o.outHeight, o.inSampleSize);
    var bpp := BytesPerPixel(b.config);
    if IsInt32(p * bpp) {
      assert IsInt32(p) by {
        if bpp == 2 { assert p * bpp == p + p; }
        else if bpp == 4 { assert p * bpp == p + p + p + p; }
      }
    }
  }

  /** `recycleBitmap`: a null or already-recycled buffer is left alone;
      otherwise the buffer ends recycled and nothing else about it changes. */
  function RecycleBitmap(b: Option<Bitmap>): (r: Option<Bitmap>)
    ensures r.None? <==> b.None?
    ensures b.Some? ==> r.value.recycled && r.value.(recycled := b.value.recycled) == b.value
  {
    if b.Some? && !b.value.recycled then Some(b.value.(recycled := true)) else b
  }

  /** Recycling twice is the same as recycling once. */
  lemma RecycleIdempotent(b: Option<Bitmap>)
    ensures RecycleBitmap(RecycleBitmap(b)) == RecycleBitmap(b)
  {
  }

  /** Subsampling preserves the order of non-negative extents. */
  lemma SampledMonotone(a: int, a': int, sampleSize: int)
    requires 0 <= a' <= a
    ensures 0 <= Sampled(a', sampleSize) <= Sampled(a, sampleSize)
  {
    if sampleSize > 0 {
      DivMonotone(a', a, sampleSize);
    }
  }

  lemma DivMonotone(x: int, y: int, d: int)
    requires 0 <= x <= y && d > 0
    ensures 0 <= x / d <= y / d
  {
    var q1, q2 := x / d, y / d;
    assert x == d * q1 + x % d && 0 <= x % d < d;
    assert y == d * q2 + y % d && 0 <= y % d < d;
    if q1 > q2 {
      ScaleLe(d, q2 + 1, q1);
    }
  }

  lemma ScaleLe(d: int, a: int, b: int)
    requires d >= 0 && a <= b
    ensures d * a <= d * b
  {
    assert d * b - d * a == d * (b - a);
  }

  lemma MulMonotone(a: int, b: int, c: int, d: int)
    requires 0 <= a <= c && 0 <= b <= d
    ensures 0 <= a * b <= c * d
  {
    assert a * b <= c * b;
    assert c * b <= c * d;
  }

  /** From KitKat on, an exactly computed request that fits a buffer keeps
      fitting it when the request shrinks (same sample size) or the buffer's
      allocation grows. */
  lemma ExactCompatibilityMonotone(b: Bitmap, o: Request, alloc: int, o': Request)
    requires ByteCount(b, o) <= b.allocationByteCount <= alloc
    requires o'.inSampleSize == o.inSampleSize
    requires 0 <= o'.outWidth <= o.outWidth && 0 <= o'.outHeight <= o.outHeight
    ensures 0 <= ByteCount(b, o') <= ByteCount(b, o) <= alloc
  {
    var s := o.inSampleSize;
    SampledMonotone(o.outWidth, o'.outWidth, s);
    SampledMonotone(o.outHeight, o'.outHeight, s);
    var w, h := Sampled(o.outWidth, s), Sampled(o.outHeight, s);
    var w', h' := Sampled(o'.outWidth, s), Sampled(o'.outHeight, s);
    MulMonotone(w', h', w, h);
    MulMonotone(w' * h', BytesPerPixel(b.config), w * h, BytesPerPixel(b.config));
  }

  /** The source's test is monotone wherever its arithmetic does not wrap: on
      KitKat and later, a compatible buffer stays compatible for a smaller
      request with the same sample size, and a buffer with a larger
      allocation is compatible too. */
  lemma CompatibilityMonotone(sdk: int, b: Bitmap, o: Request, alloc: int, o': Request)
    requires sdk >= KitKat && CanUseForInBitmap(sdk, b, o) && IsInt32(ByteCount(b, o))
    requires alloc >= b.allocationByteCount
    requires o'.inSampleSize == o.inSampleSize
    requires 0 <= o'.outWidth <= o.outWidth && 0 <= o'.outHeight <= o.outHeight
    ensures CanUseForInBitmap(sdk, b.(allocationByteCount := alloc), o)
    ensures CanUseForInBitmap(sdk, b, o')
  {
    ExactCompatibilityMonotone(b, o, alloc, o');
    var b' := b.(allocationByteCount := alloc);
    assert ByteCount(b', o) == ByteCount(b, o);
    assert IsInt32(ByteCount(b, o'));
  }

  /** The wrap-around the source does not guard: a 32768 x 32768 ARGB_8888
      request needs 2^32 bytes, whose 32-bit value is 0, so a one-byte buffer
      is reported as reusable. */
  lemma OverflowAcceptsTinyBuffer()
    ensures var b := Bitmap(1, 1, Argb8888, 1, false);
            var o := Request(32768, 32768, 1);
            CanUseForInBitmap(KitKat, b, o) && ByteCount(b, o) == TwoTo32 > b.allocationByteCount
  {
    var b := Bitmap(1, 1, Argb8888, 1, false);
    var o := Request(32768, 32768, 1);
    assert Sampled(32768, 1) == 32768;
    assert ByteCount32(b, o) == 0;
  }

  /** `canUseForInBitmap` as evidently intended: the byte count is computed
      without wrap-around. */
  function CanUseForInBitmapWide(sdk: int, b: Bitmap, o: Request): (ok: bool)
    ensures sdk < KitKat ==> ok == CanUseForInBitmap(sdk, b, o)
    ensures sdk >= KitKat ==> (ok <==> ByteCount(b, o) <= b.allocationByteCount)
  {
    if sdk >= KitKat then ByteCount(b, o) <= b.allocationByteCount
    else b.width == o.outWidth && b.height == o.outHeight && o.inSampleSize == 1
  }

  /** The corrected test is monotone for every request, however large: a
      compatible buffer stays compatible for a smaller request and a larger
      allocation, and it never accepts a buffer smaller than the request. */
  lemma WideCompatibilityMonotone(sdk: int, b: Bitmap, o: Request, alloc: int, o': Request)
    requires sdk >= KitKat && CanUseForInBitmapWide(sdk, b, o)
    requires alloc >= b.allocationByteCount
    requires o'.inSampleSize == o.inSampleSize
    requires 0 <= o'.outWidth <= o.outWidth && 0 <= o'.outHeight <= o.outHeight
    ensures CanUseForInBitmapWide(sdk, b.(allocationByteCount := alloc), o)
    ensures CanUseForInBitmapWide(sdk, b, o')
  {
    ExactCompatibilityMonotone(b, o, alloc, o');
    assert ByteCount(b.(allocationByteCount := alloc), o) == ByteCount(b, o);
  }
}
