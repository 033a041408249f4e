/** Packed ARGB_8888 pixels as Android hands them out: one Java `int` per
    pixel holding alpha, red, green and blue in bits 31-24, 23-16, 15-8 and
    7-0.  Also the float buffer built by `MainActivity.preprocessImage`. */
module ArgbPixels {

  /** A Java `int` pixel, kept as its 32-bit pattern: every operation on it is bitwise. */
  type Pixel = bv32

  /** `(p >> 24) & 0xFF`; Java's arithmetic shift does not matter after the mask. */
  function Alpha(p: Pixel): bv8 {
    ((p >> 24) & 0xFF) as bv8
  }

  /** `(p >> 16) & 0xFF`, which is also `Color.red(p)`. */
  function Red(p: Pixel): bv8 {
    ((p >> 16) & 0xFF) as bv8
  }

  /** `(p >> 8) & 0xFF`, which is also `Color.green(p)`. */
  function Green(p: Pixel): bv8 {
    ((p >> 8) & 0xFF) as bv8
  }

  /** `p & 0xFF`, which is also `Color.blue(p)`. */
  function Blue(p: Pixel): bv8 {
    (p & 0xFF) as bv8
  }

  /** The pixel whose four bytes are a, r, g, b, most significant first. */
  function Pack(a: bv8, r: bv8, g: bv8, b: bv8): Pixel {
    ((a as bv32) << 24) | ((r as bv32) << 16) | ((g as bv32) << 8) | (b as bv32)
  }

  /** Each shift-and-mask leaves one unsigned byte, 0 to 255, so the
      conversion to `bv8` in `Red`, `Green` and `Blue` loses nothing. */
  lemma ChannelsAreBytes(p: Pixel)
    ensures 0 <= ((p >> 16) & 0xFF) as int <= 255 && Red(p) as int == ((p >> 16) & 0xFF) as int
    ensures 0 <= ((p >> 8) & 0xFF) as int <= 255 && Green(p) as int == ((p >> 8) & 0xFF) as int
    ensures 0 <= (p & 0xFF) as int <= 255 && Blue(p) as int == (p & 0xFF) as int
  {
  }

  /** Extraction undoes packing ... */
  lemma UnpackPack(a: bv8, r: bv8, g: bv8, b: bv8)
    ensures Alpha(Pack(a, r, g, b)) == a
    ensures Red(Pack(a, r, g, b)) == r
    ensures Green(Pack(a, r, g, b)) == g
    ensures Blue(Pack(a, r, g, b)) == b
  {
  }

  /** ... and packing undoes extraction, so the four channels are the whole pixel. */
  lemma PackUnpack(p: Pixel)
    ensures Pack(Alpha(p), Red(p), Green(p), Blue(p)) == p
  {
  }

  /** The float a channel becomes before it is written.  The arithmetic
      (`/ 255.0f`, the luminance weights) is floating point and is not
      interpreted here: a sample only records which integer channel values
      it is computed from. */
  datatype Sample =
    | Norm(level: bv8)                  // level / 255.0f
    | Luma(r: bv8, g: bv8, b: bv8)      // 0.2989f*r/255 + 0.5870f*g/255 + 0.1140f*b/255

  /** A direct float buffer: its capacity in bytes and the floats put into it, in order. */
  datatype FloatBuffer = FloatBuffer(capacity: int, floats: seq<Sample>)

  /** The `for (int pixel : pixels)` loop of `preprocessImage`: red, green
      and blue of each pixel in turn. */
  function Interleave(pixels: seq<Pixel>): (s: seq<Sample>)
    ensures |s| == 3 * |pixels|
    ensures forall i :: 0 <= i < |pixels| ==>
      s[3 * i] == Norm(Red(pixels[i])) &&
      s[3 * i + 1] == Norm(Green(pixels[i])) &&
      s[3 * i + 2] == Norm(Blue(pixels[i]))
  {
    if |pixels| == 0 then []
    else
      var p := pixels[0];
      [Norm(Red(p)), Norm(Green(p)), Norm(Blue(p))] + Interleave(pixels[1..])
  }

  /** `preprocessImage(bitmap, width, height)` after scaling: `pixels` is
      what `getPixels` returns for the scaled bitmap, row by row. */
  function PreprocessImage(pixels: seq<Pixel>, width: int, height: int): (buf: FloatBuffer)
    requires width > 0 && height > 0 && |pixels| == width * height
    ensures buf.capacity == 4 * |buf.floats|
    ensures |buf.floats| == 3 * width * height
    ensures forall i :: 0 <= i < |pixels| ==>
      buf.floats[3 * i] == Norm(Red(pixels[i])) &&
      buf.floats[3 * i + 1] == Norm(Green(pixels[i])) &&
      buf.floats[3 * i + 2] == Norm(Blue(pixels[i]))
  {
    FloatBuffer(1 * width * height * 3 * 4, Interleave(pixels))
  }
}
