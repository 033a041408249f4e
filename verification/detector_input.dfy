/** The detector's input tensor: `MainActivity2.preprocessDetectorImage`,
    `writeToBuffer` and `getNumBytesPerChannel`.  A scaled bitmap is turned
    into a direct byte buffer whose element order follows the layout
    inferred from the model's 4-D input shape and whose element encoding
    follows the model's input type. */
module DetectorInput {
  import opened Outcomes
  import opened ArgbPixels
  import IndexMath

  /** TensorFlow Lite tensor element types. */
  datatype DataType = Float32 | Int32 | UInt8 | Int64 | String | Bool | Int16 | Int8

  predicate Supported(dt: DataType) {
    dt == Float32 || dt == UInt8 || dt == Int8
  }

  datatype Layout = NHWC | NCHW

  /** What the shape tells about the tensor: its layout and its four sizes. */
  datatype Geometry = Geometry(layout: Layout, batch: int, height: int, width: int, channels: int)

  predicate IsChannelCount(d: int) {
    d == 1 || d == 3
  }

  /** The 4-D shape a geometry is read from (the inverse of `InferLayout`). */
  function ShapeOf(g: Geometry): seq<int> {
    match g.layout
    case NHWC => [g.batch, g.height, g.width, g.channels]
    case NCHW => [g.batch, g.channels, g.height, g.width]
  }

  /** Layout inference: a last dimension of 1 or 3 means channel-last and is
      tried first; otherwise a dimension 1 of 1 or 3 means channel-first. */
  function InferLayout(shape: seq<int>): (r: Result<Geometry>)
    ensures |shape| != 4 ==> r == Err(ShapeNotFourD)
    ensures |shape| == 4 ==>
      (r.Ok? <==> IsChannelCount(shape[3]) || IsChannelCount(shape[1]))
    ensures r.Err? ==> |shape| != 4 || r.error == LayoutNotInferable
    ensures r.Ok? ==> ShapeOf(r.value) == shape && IsChannelCount(r.value.channels)
    ensures r.Ok? ==> (r.value.layout == NHWC <==> IsChannelCount(shape[3]))
  {
    if |shape| != 4 then Err(ShapeNotFourD)
    else
      var batch, d1, d2, d3 := shape[0], shape[1], shape[2], shape[3];
      if d3 == 1 || d3 == 3 then Ok(Geometry(NHWC, batch, d1, d2, d3))
      else if d1 == 1 || d1 == 3 then Ok(Geometry(NCHW, batch, d2, d3, d1))
      else Err(LayoutNotInferable)
  }

  /** Reading the shape of a geometry back gives the geometry, unless the
      geometry is channel-first with a width of 1 or 3: such a shape is
      taken for channel-last. */
  lemma InferShapeOf(g: Geometry)
    requires IsChannelCount(g.channels)
    ensures InferLayout(ShapeOf(g)) == Ok(g) <==> g.layout == NHWC || !IsChannelCount(g.width)
  {
  }

  /** `getNumBytesPerChannel`. */
  function BytesPerElement(dt: DataType): (r: Result<nat>)
    ensures r.Ok? <==> Supported(dt)
    ensures r.Err? ==> r.error == UnsupportedDtype
  {
    match dt
    case Float32 => Ok(4)
    case UInt8 => Ok(1)
    case Int8 => Ok(1)
    case _ => Err(UnsupportedDtype)
  }

  // ---------------------------------------------------------------- quantization

  /** Input quantization of the model.  `roundDiv(s)` stands for
      `Math.round(s / scale)` evaluated in floating point, before Java
      narrows the result to an `int`; `zeroPoint` is a Java `int`. */
  datatype Quantization = Quantization(roundDiv: Sample -> int, zeroPoint: int)

  const MinInt32: int := -0x8000_0000
  const MaxInt32: int := 0x7FFF_FFFF

  predicate IsInt32(v: int) {
    MinInt32 <= v <= MaxInt32
  }

  /** `Math.round(float)` returns an `int`, saturating at its bounds. */
  function Saturate32(v: int): int {
    if v < MinInt32 then MinInt32 else if v > MaxInt32 then MaxInt32 else v
  }

  /** Java `int` addition wraps around modulo 2^32. */
  function Wrap32(v: int): int {
    (v - MinInt32) % 0x1_0000_0000 + MinInt32
  }

  function Max(a: int, b: int): int {
    if a >= b then a else b
  }

  function Min(a: int, b: int): int {
    if a <= b then a else b
  }

  /** `round(value / scale) + zeroPoint`, as the Java expression computes it. */
  function Quantized(s: Sample, q: Quantization): int {
    Wrap32(Saturate32(q.roundDiv(s)) + q.zeroPoint)
  }

  /** The unrounded sum when no Java `int` arithmetic overflows on the way. */
  predicate NoOverflow(s: Sample, q: Quantization) {
    IsInt32(q.roundDiv(s)) && IsInt32(q.roundDiv(s) + q.zeroPoint)
  }

  /** One element of the buffer: a float written with `putFloat`, one byte
      written with `put`, or untouched zero bytes.  A byte is kept as its bit
      pattern read as an unsigned number, 0 to 255. */
  datatype Value = F32(sample: Sample) | Byte(bits: int) | Blank

  /** The byte's bit pattern read back as a signed (two's-complement) value. */
  function AsSigned(bits: int): int {
    if bits >= 0x80 then bits - 0x100 else bits
  }

  /** `writeToBuffer`: a float verbatim, or an affine-quantized value clamped
      to the range of the type and stored as one byte. */
  function WriteValue(dt: DataType, s: Sample, q: Quantization): (r: Result<Value>)
    ensures r.Ok? <==> Supported(dt)
    ensures r.Err? ==> r.error == UnsupportedDtype
    ensures dt == Float32 ==> r == Ok(F32(s))
    ensures dt == UInt8 ==> r.value.Byte? && 0 <= r.value.bits < 0x100
    ensures dt == UInt8 && NoOverflow(s, q) ==>
      var v := q.roundDiv(s) + q.zeroPoint;
      r.value.bits == (if v < 0 then 0 else if v > 255 then 255 else v)
    ensures dt == Int8 ==> r.value.Byte? && 0 <= r.value.bits < 0x100
    ensures dt == Int8 ==> -128 <= AsSigned(r.value.bits) <= 127
    ensures dt == Int8 && NoOverflow(s, q) ==>
      var v := q.roundDiv(s) + q.zeroPoint;
      AsSigned(r.value.bits) == (if v < -128 then -128 else if v > 127 then 127 else v)
  {
    match dt
    case Float32 => Ok(F32(s))
    case UInt8 =>
      var quantized := Max(0, Min(255, Quantized(s, q)));
      Ok(Byte(quantized % 0x100))
    case Int8 =>
      var quantized := Max(-128, Min(127, Quantized(s, q)));
      Ok(Byte(quantized % 0x100))
    case _ => Err(UnsupportedDtype)
  }

  /** Bytes one value occupies in the buffer. */
  function ValueBytes(v: Value, elementBytes: nat): nat {
    match v
    case F32(_) => 4
    case Byte(_) => 1
    case Blank => elementBytes
  }

  /** `getNumBytesPerChannel` and `writeToBuffer` agree: they reject the same
      types, and every write advances the buffer by the announced size. */
  lemma WriteMatchesElementSize(dt: DataType, s: Sample, q: Quantization)
    ensures WriteValue(dt, s, q).Ok? <==> BytesPerElement(dt).Ok?
    ensures BytesPerElement(dt).Ok? ==>
      ValueBytes(WriteValue(dt, s, q).value, 0) == BytesPerElement(dt).value
  {
  }

  /** Java `int` overflow is kept: with `round(v / scale)` at the top of the
      `int` range and a zero point of 1 the sum wraps to the bottom of the
      range, so UINT8 stores 0 where the unbounded sum would clamp to 255. */
  lemma QuantizedSumWraps(s: Sample)
    ensures WriteValue(UInt8, s, Quantization(_ => MaxInt32, 1)) == Ok(Byte(0))
  {
    assert Quantized(s, Quantization(_ => MaxInt32, 1)) == MinInt32;
  }

  // ---------------------------------------------------------------- element order

  /** A geometry the encoding loops can run on: one or three channels and a
      bitmap of positive size. */
  predicate Encodable(g: Geometry) {
    IsChannelCount(g.channels) && g.height > 0 && g.width > 0
  }

  /** Number of elements the loops write: one image, every channel of every pixel. */
  function ImageElements(g: Geometry): int {
    g.channels * g.height * g.width
  }

  /** Number of elements allocated: `batch * channels * targetH * targetW`. */
  function NumElements(g: Geometry): int {
    g.batch * g.channels * g.height * g.width
  }

  /** The sample written for channel c of a pixel: the luminance for a
      one-channel tensor, otherwise red, green, blue for c = 0, 1, 2. */
  function ChannelSample(channels: int, c: int, p: Pixel): Sample {
    if channels == 1 then Luma(Red(p), Green(p), Blue(p))
    else if c == 0 then Norm(Red(p))
    else if c == 1 then Norm(Green(p))
    else Norm(Blue(p))
  }

  /** Flat element index of channel c of pixel (y, x). */
  function ElementIndex(g: Geometry, c: int, y: int, x: int): int {
    match g.layout
    case NHWC => (y * g.width + x) * g.channels + c
    case NCHW => c * (g.height * g.width) + y * g.width + x
  }

  /** Reference definition of the stream: element i, decomposed by the layout
      into a channel and a row-major pixel number. */
  function SampleAt(g: Geometry, pixels: seq<Pixel>, i: int): Sample
    requires Encodable(g) && |pixels| == g.height * g.width
    requires 0 <= i < ImageElements(g)
  {
    var plane := g.height * g.width;
    match g.layout
    case NHWC =>
      IndexMath.DivBelow(i, plane, g.channels);
      ChannelSample(g.channels, i % g.channels, pixels[i / g.channels])
    case NCHW =>
      ChannelSample(g.channels, i / plane, pixels[i % plane])
  }

  /** The loops of `preprocessDetectorImage`: row by row, pixel by pixel,
      channel by channel for NHWC; plane by plane for NCHW. */
  method LayoutSamples(g: Geometry, pixels: seq<Pixel>) returns (s: seq<Sample>)
    requires Encodable(g) && |pixels| == g.height * g.width
    ensures |s| == ImageElements(g)
    ensures forall i :: 0 <= i < |s| ==> s[i] == SampleAt(g, pixels, i)
  {
    if g.layout == NHWC {
      s := NhwcSamples(g, pixels);
    } else {
      s := NchwSamples(g, pixels);
    }
  }

  method NhwcSamples(g: Geometry, pixels: seq<Pixel>) returns (s: seq<Sample>)
    requires Encodable(g) && |pixels| == g.height * g.width && g.layout == NHWC
    ensures |s| == ImageElements(g)
    ensures forall i :: 0 <= i < |s| ==> s[i] == SampleAt(g, pixels, i)
  {
    var h, w, ch := g.height, g.width, g.channels;
    s := [];
    for y := 0 to h
      invariant |s| == (y * w) * ch
      invariant |s| <= ImageElements(g)
      invariant forall i :: 0 <= i < |s| ==> s[i] == SampleAt(g, pixels, i)
    {
      for x := 0 to w
        invariant |s| == (y * w + x) * ch
        invariant |s| <= ImageElements(g)
        invariant forall i :: 0 <= i < |s| ==> s[i] == SampleAt(g, pixels, i)
      {
        IndexMath.RowMajorBound(y, x, h, w);
        var p := y * w + x;
        s := NhwcPixel(g, pixels, s, p);
        assert |s| == (y * w + (x + 1)) * ch by {
          assert y * w + (x + 1) == p + 1;
        }
      }
      assert (y + 1) * w == y * w + w;
    }
    NhwcTotal(g);
  }

  /** The writes for pixel p of a channel-last tensor: its channels, in order. */
  method NhwcPixel(g: Geometry, pixels: seq<Pixel>, s: seq<Sample>, p: int) returns (s': seq<Sample>)
    requires Encodable(g) && |pixels| == g.height * g.width && g.layout == NHWC
    requires 0 <= p < |pixels| && |s| == p * g.channels
    requires |s| <= ImageElements(g) && forall i :: 0 <= i < |s| ==> s[i] == SampleAt(g, pixels, i)
    ensures |s'| == (p + 1) * g.channels
    ensures |s'| <= ImageElements(g)
    ensures forall i :: 0 <= i < |s'| ==> s'[i] == SampleAt(g, pixels, i)
  {
    var pixel := pixels[p];
    if g.channels == 1 {
      NhwcStep(g, pixels, p, 0, |s|);
      s' := s + [Luma(Red(pixel), Green(pixel), Blue(pixel))];
    } else {
      NhwcStep(g, pixels, p, 0, |s|);
      NhwcStep(g, pixels, p, 1, |s| + 1);
      NhwcStep(g, pixels, p, 2, |s| + 2);
      s' := s + [Norm(Red(pixel)), Norm(Green(pixel)), Norm(Blue(pixel))];
    }
    forall i | 0 <= i < |s'|
      ensures s'[i] == SampleAt(g, pixels, i)
    {
      if i < |s| {
        assert s'[i] == s[i];
      }
    }
  }

  /** H*W pixels of C channels each make C*H*W elements. */
  lemma NhwcTotal(g: Geometry)
    ensures (g.height * g.width) * g.channels == ImageElements(g)
  {
  }

  method NchwSamples(g: Geometry, pixels: seq<Pixel>) returns (s: seq<Sample>)
    requires Encodable(g) && |pixels| == g.height * g.width && g.layout == NCHW
    ensures |s| == ImageElements(g)
    ensures forall i :: 0 <= i < |s| ==> s[i] == SampleAt(g, pixels, i)
  {
    var h, w, ch := g.height, g.width, g.channels;
    var plane := h * w;
    s := [];
    for c := 0 to ch
      invariant |s| == c * plane <= ImageElements(g)
      invariant forall i :: 0 <= i < |s| ==> s[i] == SampleAt(g, pixels, i)
    {
      for y := 0 to h
        invariant |s| == c * plane + y * w <= ImageElements(g)
        invariant forall i :: 0 <= i < |s| ==> s[i] == SampleAt(g, pixels, i)
      {
        for x := 0 to w
          invariant |s| == c * plane + y * w + x <= ImageElements(g)
          invariant forall i :: 0 <= i < |s| ==> s[i] == SampleAt(g, pixels, i)
        {
          IndexMath.RowMajorBound(y, x, h, w);
          s := NchwElement(g, pixels, s, c, y * w + x);
        }
        assert y * w + w == (y + 1) * w;
      }
      assert c * plane + h * w == (c + 1) * plane;
    }
    assert ch * plane == ImageElements(g);
  }

  /** The write for pixel p in plane c of a channel-first tensor. */
  method NchwElement(g: Geometry, pixels: seq<Pixel>, s: seq<Sample>, c: int, p: int) returns (s': seq<Sample>)
    requires Encodable(g) && |pixels| == g.height * g.width && g.layout == NCHW
    requires 0 <= c < g.channels && 0 <= p < |pixels| && |s| == c * |pixels| + p
    requires forall i :: 0 <= i < |s| ==> s[i] == SampleAt(g, pixels, i)
    ensures |s'| == |s| + 1 <= ImageElements(g)
    ensures forall i :: 0 <= i < |s'| ==> s'[i] == SampleAt(g, pixels, i)
  {
    var pixel := pixels[p];
    NchwStep(g, pixels, c, p, |s|);
    if g.channels == 1 {
      s' := s + [Luma(Red(pixel), Green(pixel), Blue(pixel))];
    } else if c == 0 {
      s' := s + [Norm(Red(pixel))];
    } else if c == 1 {
      s' := s + [Norm(Green(pixel))];
    } else {
      s' := s + [Norm(Blue(pixel))];
    }
    forall i | 0 <= i < |s'|
      ensures s'[i] == SampleAt(g, pixels, i)
    {
      if i < |s| {
        assert s'[i] == s[i];
      }
    }
  }

  /** The k-th NHWC element is channel c of pixel p when k = p * channels + c. */
  lemma NhwcStep(g: Geometry, pixels: seq<Pixel>, p: int, c: int, k: int)
    requires Encodable(g) && |pixels| == g.height * g.width && g.layout == NHWC
    requires 0 <= p < |pixels| && 0 <= c < g.channels && k == p * g.channels + c
    ensures k < ImageElements(g)
    ensures SampleAt(g, pixels, k) == ChannelSample(g.channels, c, pixels[p])
  {
    IndexMath.DivModUnique(k, p, c, g.channels);
    assert k < (p + 1) * g.channels;
    assert (p + 1) * g.channels <= |pixels| * g.channels by {
      assert |pixels| * g.channels - (p + 1) * g.channels == (|pixels| - p - 1) * g.channels;
    }
  }

  /** The k-th NCHW element is pixel p of plane c when k = c * plane + p. */
  lemma NchwStep(g: Geometry, pixels: seq<Pixel>, c: int, p: int, k: int)
    requires Encodable(g) && |pixels| == g.height * g.width && g.layout == NCHW
    requires 0 <= p < |pixels| && 0 <= c < g.channels && k == c * |pixels| + p
    ensures k < ImageElements(g)
    ensures SampleAt(g, pixels, k) == ChannelSample(g.channels, c, pixels[p])
  {
    IndexMath.DivModUnique(k, c, p, |pixels|);
    IndexMath.RowMajorBound(c, p, g.channels, |pixels|);
  }

  /** Channel c of pixel (y, x) is element (y*W + x)*C + c for NHWC and
      c*H*W + y*W + x for NCHW; for one channel that element is the pixel's
      luminance. */
  lemma Placement(g: Geometry, pixels: seq<Pixel>, c: int, y: int, x: int)
    requires Encodable(g) && |pixels| == g.height * g.width
    requires 0 <= c < g.channels && 0 <= y < g.height && 0 <= x < g.width
    ensures 0 <= y * g.width + x < |pixels|
    ensures 0 <= ElementIndex(g, c, y, x) < ImageElements(g)
    ensures SampleAt(g, pixels, ElementIndex(g, c, y, x)) == ChannelSample(g.channels, c, pixels[y * g.width + x])
  {
    IndexMath.RowMajorBound(y, x, g.height, g.width);
    match g.layout
    case NHWC => NhwcStep(g, pixels, y * g.width + x, c, ElementIndex(g, c, y, x));
    case NCHW => NchwStep(g, pixels, c, y * g.width + x, ElementIndex(g, c, y, x));
  }

  /** Two different (channel, row, column) triples never share an element. */
  lemma ElementIndexInjective(g: Geometry, c1: int, y1: int, x1: int, c2: int, y2: int, x2: int)
    requires Encodable(g)
    requires 0 <= c1 < g.channels && 0 <= y1 < g.height && 0 <= x1 < g.width
    requires 0 <= c2 < g.channels && 0 <= y2 < g.height && 0 <= x2 < g.width
    requires ElementIndex(g, c1, y1, x1) == ElementIndex(g, c2, y2, x2)
    ensures c1 == c2 && y1 == y2 && x1 == x2
  {
    var k := ElementIndex(g, c1, y1, x1);
    var w, plane := g.width, g.height * g.width;
    IndexMath.RowMajorBound(y1, x1, g.height, w);
    IndexMath.RowMajorBound(y2, x2, g.height, w);
    match g.layout
    case NHWC =>
      IndexMath.DivModUnique(k, y1 * w + x1, c1, g.channels);
      IndexMath.DivModUnique(k, y2 * w + x2, c2, g.channels);
      IndexMath.DivModUnique(y1 * w + x1, y1, x1, w);
      IndexMath.DivModUnique(y2 * w + x2, y2, x2, w);
    case NCHW =>
      IndexMath.DivModUnique(k, c1, y1 * w + x1, plane);
      IndexMath.DivModUnique(k, c2, y2 * w + x2, plane);
      IndexMath.DivModUnique(y1 * w + x1, y1, x1, w);
      IndexMath.DivModUnique(y2 * w + x2, y2, x2, w);
  }

  /** Every element of the image is the place of some channel of some pixel,
      so the C*H*W writes fill the image part of the buffer exactly. */
  lemma ElementIndexOnto(g: Geometry, i: int) returns (c: int, y: int, x: int)
    requires Encodable(g) && 0 <= i < ImageElements(g)
    ensures 0 <= c < g.channels && 0 <= y < g.height && 0 <= x < g.width
    ensures ElementIndex(g, c, y, x) == i
  {
    var p;
    if g.layout == NHWC {
      c, p := NhwcOnto(g, i);
    } else {
      c, p := NchwOnto(g, i);
    }
    y, x := PixelOnto(g, p);
  }

  /** NHWC element i is channel i % C of pixel i / C. */
  lemma NhwcOnto(g: Geometry, i: int) returns (c: int, p: int)
    requires Encodable(g) && 0 <= i < ImageElements(g)
    ensures 0 <= c < g.channels && 0 <= p < g.height * g.width && i == p * g.channels + c
  {
    c, p := i % g.channels, i / g.channels;
    IndexMath.Decompose(i, g.channels);
    IndexMath.DivBelow(i, g.height * g.width, g.channels);
  }

  /** NCHW element i is pixel i % (H*W) of plane i / (H*W). */
  lemma NchwOnto(g: Geometry, i: int) returns (c: int, p: int)
    requires Encodable(g) && 0 <= i < ImageElements(g)
    ensures 0 <= c < g.channels && 0 <= p < g.height * g.width && i == c * (g.height * g.width) + p
  {
    var plane := g.height * g.width;
    c, p := i / plane, i % plane;
    IndexMath.Decompose(i, plane);
    IndexMath.DivBelow(i, g.channels, plane);
  }

  /** Pixel p of an H-by-W image sits at row p / W, column p % W. */
  lemma PixelOnto(g: Geometry, p: int) returns (y: int, x: int)
    requires g.width > 0 && 0 <= p < g.height * g.width
    ensures 0 <= y < g.height && 0 <= x < g.width && y * g.width + x == p
  {
    y, x := p / g.width, p % g.width;
    IndexMath.Decompose(p, g.width);
    IndexMath.DivBelow(p, g.height, g.width);
  }

  /** For a channel-last RGB tensor the detector encoding puts the same
      samples in the same order as `MainActivity.preprocessImage`. */
  lemma NhwcRgbIsInterleave(g: Geometry, pixels: seq<Pixel>, i: int)
    requires Encodable(g) && |pixels| == g.height * g.width
    requires g.layout == NHWC && g.channels == 3
    requires 0 <= i < ImageElements(g)
    ensures i < |Interleave(pixels)| && SampleAt(g, pixels, i) == Interleave(pixels)[i]
  {
    IndexMath.DivBelow(i, |pixels|, 3);
    assert i == 3 * (i / 3) + i % 3;
  }

  // ---------------------------------------------------------------- the whole encoder

  /** A direct buffer as a sequence of equally sized elements (4 bytes for
      FLOAT32, 1 byte otherwise); its capacity is their total size. */
  datatype Buffer = Buffer(elementBytes: nat, elements: seq<Value>)

  function Capacity(b: Buffer): int {
    b.elementBytes * |b.elements|
  }

  /** `MainActivity2.Result`: the buffer and the size the bitmap was scaled to. */
  datatype Encoded = Encoded(buffer: Buffer, targetW: int, targetH: int)

  /** `preprocessDetectorImage`.  `scaled(w, h)` is the pixel array of the
      bitmap scaled to w by h (`createScaledBitmap` then `getPixels`), row by
      row; the scaler rejects a non-positive size.  Only one image's worth of
      elements is written, whatever the batch size. */
  method PreprocessDetectorImage(shape: seq<int>, dtype: DataType, quant: Quantization,
                                 scaled: (int, int) -> seq<Pixel>) returns (r: Result<Encoded>)
    requires forall w, h :: w > 0 && h > 0 ==> |scaled(w, h)| == h * w
    ensures r.Ok? <==>
      && InferLayout(shape).Ok?
      && Encodable(InferLayout(shape).value)
      && Supported(dtype)
      && InferLayout(shape).value.batch >= 1
    ensures r.Err? && InferLayout(shape).Err? ==> r.error == InferLayout(shape).error
    ensures r.Err? && InferLayout(shape).Ok? ==>
      var g := InferLayout(shape).value;
      && (g.height <= 0 || g.width <= 0 ==> r.error == NonPositiveTargetSize)
      && (Encodable(g) && !Supported(dtype) ==> r.error == UnsupportedDtype)
      && (Encodable(g) && Supported(dtype) && g.batch < 0 ==> r.error == NegativeCapacity)
      && (Encodable(g) && Supported(dtype) && g.batch == 0 ==> r.error == BufferOverflow)
    ensures r.Err? ==> r.error != BufferSizeMismatch
    ensures r.Ok? ==>
      var g := InferLayout(shape).value;
      var pixels := scaled(g.width, g.height);
      var n := NumElements(g);
      && r.value.targetW == g.width && r.value.targetH == g.height
      && Ok(r.value.buffer.elementBytes) == BytesPerElement(dtype)
      && Capacity(r.value.buffer) == n * r.value.buffer.elementBytes
      && |r.value.buffer.elements| == n && ImageElements(g) <= n
      && (forall i :: 0 <= i < ImageElements(g) ==>
            Ok(r.value.buffer.elements[i]) == WriteValue(dtype, SampleAt(g, pixels, i), quant))
      && (forall i :: ImageElements(g) <= i < n ==> r.value.buffer.elements[i] == Blank)
  {
    var g :- InferLayout(shape);
    if g.height <= 0 || g.width <= 0 {
      return Err(NonPositiveTargetSize);
    }
    var pixels := scaled(g.width, g.height);
    var bytesPerChannel :- BytesPerElement(dtype);
    var buffer :- FillBuffer(g, dtype, quant, pixels, bytesPerChannel);
    return Ok(Encoded(buffer, g.width, g.height));
  }

  /** The allocation, writes and size check of `preprocessDetectorImage` once
      the layout, the target size and the element size are known. */
  method FillBuffer(g: Geometry, dtype: DataType, quant: Quantization, pixels: seq<Pixel>,
                    bytesPerChannel: int) returns (r: Result<Buffer>)
    requires Encodable(g) && Supported(dtype) && |pixels| == g.height * g.width
    requires Ok(bytesPerChannel) == BytesPerElement(dtype)
    ensures r.Ok? <==> g.batch >= 1
    ensures r.Err? && g.batch < 0 ==> r.error == NegativeCapacity
    ensures r.Err? && g.batch == 0 ==> r.error == BufferOverflow
    ensures r.Ok? ==>
      var n := NumElements(g);
      && r.value.elementBytes == bytesPerChannel
      && Capacity(r.value) == n * bytesPerChannel
      && |r.value.elements| == n && ImageElements(g) <= n
      && (forall i :: 0 <= i < ImageElements(g) ==>
            Ok(r.value.elements[i]) == WriteValue(dtype, SampleAt(g, pixels, i), quant))
      && (forall i :: ImageElements(g) <= i < n ==> r.value.elements[i] == Blank)
  {
    var numElements := NumElements(g);
    var capacity := numElements * bytesPerChannel;
    SignOfProduct(g, bytesPerChannel);
    if capacity < 0 {
      return Err(NegativeCapacity);
    }
    var samples := LayoutSamples(g, pixels);
    if |samples| * bytesPerChannel > capacity {
      return Err(BufferOverflow);
    }
    var buffer := Assemble(dtype, quant, samples, bytesPerChannel, numElements);
    // Java evaluates this as the same left-to-right product as `capacity`.
    var expectedSize := NumElements(g) * bytesPerChannel;
    if Capacity(buffer) != expectedSize {
      return Err(BufferSizeMismatch);
    }
    return Ok(buffer);
  }

  /** The buffer after the writes: the encoded samples, then zero bytes up to
      the allocated number of elements. */
  function Assemble(dtype: DataType, quant: Quantization, samples: seq<Sample>, bytes: nat, n: int): (b: Buffer)
    requires Supported(dtype) && |samples| <= n
    ensures b.elementBytes == bytes && |b.elements| == n
    ensures forall i :: 0 <= i < |samples| ==> Ok(b.elements[i]) == WriteValue(dtype, samples[i], quant)
    ensures forall i :: |samples| <= i < n ==> b.elements[i] == Blank
  {
    var written := seq(|samples|, i requires 0 <= i < |samples| => WriteValue(dtype, samples[i], quant).value);
    Buffer(bytes, written + seq(n - |samples|, _ => Blank))
  }

  /** The allocated element count, batch*C*H*W, against one image's C*H*W:
      negative iff the batch is, short of one image iff the batch is below 1. */
  lemma SignOfProduct(g: Geometry, b: int)
    requires Encodable(g) && b > 0
    ensures var n := NumElements(g);
      && (g.batch < 0 <==> n * b < 0)
      && (g.batch < 1 <==> n * b < ImageElements(g) * b)
      && (g.batch >= 1 ==> n >= ImageElements(g))
  {
    var m := ImageElements(g);
    assert m > 0 by {
      IndexMath.MulAtLeast(g.channels, g.height);
      IndexMath.MulAtLeast(g.channels * g.height, g.width);
    }
    assert g.batch * g.channels * g.height * g.width == g.batch * m;
    assert g.batch * m * b == g.batch * (m * b);
    IndexMath.MulAtLeast(m, b);
    if g.batch >= 1 {
      IndexMath.MulAtLeast(g.batch, m * b);
      IndexMath.MulAtLeast(g.batch, m);
    } else if g.batch < 0 {
      IndexMath.MulAtLeast(-g.batch, m * b);
      assert g.batch * (m * b) == -((-g.batch) * (m * b));
    }
  }
}
