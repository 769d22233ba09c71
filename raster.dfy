/** `render`: fills a caller-owned RGBA buffer, one 4-byte block per pixel. */
module Raster {
  import opened Double
  import opened ComplexArith
  import opened Newton

  /** The three integers handed to `HsvToRgb`. */
  datatype Hsv = Hsv(hue: int, saturation: int, value: int)

  /** The three colour bytes `HsvToRgb` produces, in buffer order. */
  datatype Rgb = Rgb(red: bv8, green: bv8, blue: bv8)

  /** One more than the largest value of a C `int`. */
  const IntLimit: int := 0x8000_0000

  /** C's `%`, which truncates toward zero. */
  function CRem(n: int, d: int): int
    requires d > 0
  {
    if n >= 0 then n % d else -((-n) % d)
  }

  /** The HSV arguments built from a result:
      ((root * 100) % 255, 255 - iteration * 6, iteration * 12). */
  function HsvArgs(r: CalcResult): Hsv
  {
    Hsv(CRem(r.root * 100, 255), 255 - r.iteration * 6, r.iteration * 12)
  }

  /** For every result `calculate` can return, the hue is 0 or 100 and the
      saturation and value stay well inside a C `int`. */
  lemma HsvArgsRange(r: CalcResult)
    requires 0 <= r.root < 2 && 0 <= r.iteration < MaxIterations
    ensures HsvArgs(r).hue == r.root * 100
    ensures 255 - 6 * (MaxIterations - 1) <= HsvArgs(r).saturation <= 255
    ensures 0 <= HsvArgs(r).value <= 12 * (MaxIterations - 1)
    ensures -IntLimit <= HsvArgs(r).saturation && HsvArgs(r).value < IntLimit
  {
  }

  /** Saturation and value are both byte-sized exactly up to iteration 21;
      from iteration 22 on the value exceeds 255. */
  lemma HsvArgsFitByte(r: CalcResult)
    requires 0 <= r.iteration
    ensures (0 <= HsvArgs(r).saturation <= 255 && 0 <= HsvArgs(r).value <= 255) <==> r.iteration <= 21
  {
  }

  /** `zi`/`zr`: ((double)p - (double)extent * 0.5) * 0.01. */
  function Coord<D>(f: Arith<D>, k: Literals<D>, p: int, extent: int): D
  {
    f.mul(f.sub(f.ofInt(p), f.mul(f.ofInt(extent), k.half)), k.scale)
  }

  /** The start point of pixel (x, y): the real part comes from y centred by
      the width, the imaginary part from x centred by the height. */
  function PlanePoint<D>(f: Arith<D>, k: Literals<D>, width: int, height: int, x: int, y: int): Complex<D>
  {
    Complex(Coord(f, k, y, width), Coord(f, k, x, height))
  }

  /** The colour of pixel (x, y). */
  function PixelColour<D>(f: Arith<D>, k: Literals<D>, hsvToRgb: Hsv -> Rgb, width: int, height: int, a: D, x: int, y: int): Rgb
  {
    hsvToRgb(HsvArgs(Solve(f, k, a, PlanePoint(f, k, width, height, x, y))))
  }

  /** `idx`: the byte offset of pixel (x, y). */
  function Offset(width: int, x: int, y: int): int
  {
    (y * width + x) * 4
  }

  /** The column and row of the pixel that owns byte i. */
  function Column(width: int, i: int): int
    requires width > 0
  {
    (i / 4) % width
  }

  function Row(width: int, i: int): int
    requires width > 0
  {
    (i / 4) / width
  }

  /** Byte j of a pixel's block: its three colour bytes, then alpha 255. */
  function Channel(c: Rgb, j: int): bv8
  {
    if j == 0 then c.red else if j == 1 then c.green else if j == 2 then c.blue else 255
  }

  /** Byte i of the finished image. */
  function ImageByte<D>(f: Arith<D>, k: Literals<D>, hsvToRgb: Hsv -> Rgb, width: int, height: int, a: D, i: int): bv8
    requires width > 0
  {
    Channel(PixelColour(f, k, hsvToRgb, width, height, a, Column(width, i), Row(width, i)), i % 4)
  }

  /** Whether `render` has written byte i once it is about to do pixel (x, y). */
  predicate Done(width: int, x: int, y: int, i: int)
    requires width > 0
  {
    Column(width, i) < x || (Column(width, i) == x && Row(width, i) < y)
  }

  /** The whole finished buffer. */
  function Image<D>(f: Arith<D>, k: Literals<D>, hsvToRgb: Hsv -> Rgb, width: int, height: int, a: D): (s: seq<bv8>)
    requires width > 0 && height > 0
    ensures |s| == width * height * 4
  {
    seq(width * height * 4, i => ImageByte(f, k, hsvToRgb, width, height, a, i))
  }

  // ---- Buffer geometry ----

  /** Euclidean division is unique. */
  lemma DivModUnique(n: int, d: int, q: int, r: int)
    requires d > 0 && 0 <= r < d && n == q * d + r
    ensures n / d == q && n % d == r
  {
    var q', r' := n / d, n % d;
    assert q' * d + r' == q * d + r;
    assert (q - q') * d == r' - r;
    if q > q' {
      MulAtLeast(q - q', d);
    } else if q < q' {
      MulAtLeast(q' - q, d);
    }
  }

  lemma MulAtLeast(m: int, d: int)
    requires m >= 1 && d > 0
    ensures m * d >= d
  {
    assert m * d == (m - 1) * d + d;
  }

  /** Byte j of pixel (x, y)'s block belongs to pixel (x, y), as channel j. */
  lemma DecodeOffset(width: int, x: int, y: int, j: int)
    requires width > 0 && 0 <= x < width && 0 <= y && 0 <= j < 4
    ensures (Offset(width, x, y) + j) % 4 == j
    ensures Column(width, Offset(width, x, y) + j) == x
    ensures Row(width, Offset(width, x, y) + j) == y
  {
    var i := Offset(width, x, y) + j;
    DivModUnique(i, 4, y * width + x, j);
    DivModUnique(y * width + x, width, y, x);
  }

  /** Every offset `render` writes, idx .. idx + 3, lies inside the buffer of
      width * height * 4 bytes. */
  lemma OffsetInBounds(width: int, height: int, x: int, y: int)
    requires 0 <= x < width && 0 <= y < height
    ensures 0 <= Offset(width, x, y)
    ensures Offset(width, x, y) + 3 < width * height * 4
  {
    assert y * width + x < (y + 1) * width;
    assert (y + 1) * width <= height * width;
  }

  /** Distinct pixels own disjoint 4-byte blocks: no pixel's write can land in
      another pixel's block. */
  lemma BlocksDisjoint(width: int, x: int, y: int, j: int, x': int, y': int, j': int)
    requires width > 0 && 0 <= x < width && 0 <= y && 0 <= j < 4
    requires 0 <= x' < width && 0 <= y' && 0 <= j' < 4
    requires Offset(width, x, y) + j == Offset(width, x', y') + j'
    ensures x == x' && y == y' && j == j'
  {
    DecodeOffset(width, x, y, j);
    DecodeOffset(width, x', y', j');
  }

  /** Every byte of the buffer belongs to exactly the pixel its column and row
      name, so the pixel blocks cover the whole buffer. */
  lemma EncodeIndex(width: int, height: int, i: int)
    requires width > 0 && height > 0 && 0 <= i < width * height * 4
    ensures 0 <= Column(width, i) < width && 0 <= Row(width, i) < height
    ensures Offset(width, Column(width, i), Row(width, i)) + i % 4 == i
  {
    var p := i / 4;
    assert i == p * 4 + i % 4;
    assert p == Row(width, i) * width + Column(width, i);
  }

  /** Byte i lies in pixel (x, y)'s block exactly when its column and row
      are x and y. */
  lemma SamePixel(width: int, height: int, x: int, y: int, i: int)
    requires 0 <= x < width && 0 <= y < height && 0 <= i < width * height * 4
    ensures (Column(width, i) == x && Row(width, i) == y) <==> (Offset(width, x, y) <= i < Offset(width, x, y) + 4)
  {
    EncodeIndex(width, height, i);
    if Offset(width, x, y) <= i < Offset(width, x, y) + 4 {
      DecodeOffset(width, x, y, i - Offset(width, x, y));
    }
  }

  /** The image holds pixel (x, y)'s colour bytes and alpha in its block. */
  lemma ImageBlock<D>(f: Arith<D>, k: Literals<D>, hsvToRgb: Hsv -> Rgb, width: int, height: int, a: D, x: int, y: int)
    requires 0 <= x < width && 0 <= y < height
    ensures 0 <= Offset(width, x, y) && Offset(width, x, y) + 3 < width * height * 4
    ensures forall j :: 0 <= j < 4 ==>
      Image(f, k, hsvToRgb, width, height, a)[Offset(width, x, y) + j]
        == Channel(PixelColour(f, k, hsvToRgb, width, height, a, x, y), j)
  {
    OffsetInBounds(width, height, x, y);
    forall j | 0 <= j < 4
      ensures Image(f, k, hsvToRgb, width, height, a)[Offset(width, x, y) + j]
        == Channel(PixelColour(f, k, hsvToRgb, width, height, a, x, y), j)
    {
      DecodeOffset(width, x, y, j);
    }
  }

  /** Doing pixel (x, y) adds exactly its own block to the bytes written. */
  lemma PixelStep(width: int, height: int, x: int, y: int, i: int)
    requires 0 <= x < width && 0 <= y < height && 0 <= i < width * height * 4
    ensures Done(width, x, y + 1, i) <==> Done(width, x, y, i) || Offset(width, x, y) <= i < Offset(width, x, y) + 4
    ensures Offset(width, x, y) <= i < Offset(width, x, y) + 4 ==>
      Column(width, i) == x && Row(width, i) == y && i % 4 == i - Offset(width, x, y)
  {
    SamePixel(width, height, x, y, i);
    if Offset(width, x, y) <= i < Offset(width, x, y) + 4 {
      DecodeOffset(width, x, y, i - Offset(width, x, y));
    }
  }

  /** Before the first pixel no byte has been written. */
  lemma NoneDone(width: int, i: int)
    requires width > 0 && 0 <= i
    ensures !Done(width, 0, 0, i)
  {
  }

  /** Finishing column x is the same as starting column x + 1. */
  lemma ColumnStep(width: int, height: int, x: int, i: int)
    requires 0 <= x < width && height > 0 && 0 <= i < width * height * 4
    ensures Done(width, x, height, i) <==> Done(width, x + 1, 0, i)
  {
    EncodeIndex(width, height, i);
  }

  /** `s` with the block at o set to colour c and alpha 255. */
  function Poke(s: seq<bv8>, o: int, c: Rgb): (r: seq<bv8>)
    requires 0 <= o && o + 3 < |s|
    ensures |r| == |s|
    ensures forall i :: 0 <= i < |s| && !(o <= i < o + 4) ==> r[i] == s[i]
    ensures forall j :: 0 <= j < 4 ==> r[o + j] == Channel(c, j)
  {
    s[o := c.red][o + 1 := c.green][o + 2 := c.blue][o + 3 := 255]
  }

  /** `s` holds the image's bytes for every pixel done before (x, y) and
      its initial bytes everywhere else. */
  ghost predicate Painted(s: seq<bv8>, image: seq<bv8>, initial: seq<bv8>, width: int, x: int, y: int)
  {
    width > 0 && |s| == |image| == |initial| &&
    forall i :: 0 <= i < |s| ==> s[i] == if Done(width, x, y, i) then image[i] else initial[i]
  }

  /** Once column x is painted to its last row, column x + 1 is painted up to row 0. */
  lemma ColumnDone(s: seq<bv8>, image: seq<bv8>, initial: seq<bv8>, width: int, height: int, x: int)
    requires 0 <= x < width && height > 0 && |s| == width * height * 4
    requires Painted(s, image, initial, width, x, height)
    ensures Painted(s, image, initial, width, x + 1, 0)
  {
    forall i | 0 <= i < |s|
      ensures s[i] == if Done(width, x + 1, 0, i) then image[i] else initial[i]
    {
      ColumnStep(width, height, x, i);
    }
  }

  /** Writing pixel (x, y)'s colour and alpha into its block extends the
      bytes that hold the image by exactly that block. */
  lemma WritePixel<D>(f: Arith<D>, k: Literals<D>, hsvToRgb: Hsv -> Rgb, width: int, height: int, a: D, x: int, y: int,
                      image: seq<bv8>, initial: seq<bv8>, before: seq<bv8>, after: seq<bv8>)
    requires 0 <= x < width && 0 <= y < height
    requires image == Image(f, k, hsvToRgb, width, height, a)
    requires Painted(before, image, initial, width, x, y)
    requires 0 <= Offset(width, x, y) && Offset(width, x, y) + 3 < |before|
    requires after == Poke(before, Offset(width, x, y), PixelColour(f, k, hsvToRgb, width, height, a, x, y))
    ensures Painted(after, image, initial, width, x, y + 1)
  {
    ImageBlock(f, k, hsvToRgb, width, height, a, x, y);
    forall i | 0 <= i < |after|
      ensures after[i] == if Done(width, x, y + 1, i) then image[i] else initial[i]
    {
      PixelStep(width, height, x, y, i);
    }
  }

  /** After `render`, pixel (x, y)'s alpha byte, (y * width + x) * 4 + 3, is 255. */
  lemma PixelAlpha<D>(f: Arith<D>, k: Literals<D>, hsvToRgb: Hsv -> Rgb, width: int, height: int, a: D, x: int, y: int)
    requires 0 <= x < width && 0 <= y < height
    ensures 0 <= (y * width + x) * 4 + 3 < width * height * 4
    ensures Image(f, k, hsvToRgb, width, height, a)[(y * width + x) * 4 + 3] == 255
  {
    ImageBlock(f, k, hsvToRgb, width, height, a, x, y);
  }

  /** Every alpha byte of the finished image is 255. */
  lemma ImageAlpha<D>(f: Arith<D>, k: Literals<D>, hsvToRgb: Hsv -> Rgb, width: int, height: int, a: D, i: int)
    requires width > 0 && height > 0 && 0 <= i < width * height * 4 && i % 4 == 3
    ensures Image(f, k, hsvToRgb, width, height, a)[i] == 255
  {
  }

  /** `render`: for each column x and, inside it, each row y, solves the
      pixel's start point, writes its three colour bytes at idx .. idx + 2 and
      alpha 255 at idx + 3. For a non-empty image the buffer afterwards is the
      image, whatever it held before; for an empty one no byte is written. */
  method Render<D>(f: Arith<D>, k: Literals<D>, hsvToRgb: Hsv -> Rgb, width: int, height: int, a: D, buf: array<bv8>)
    requires width > 0 && height > 0 ==> buf.Length == width * height * 4 <= IntLimit
    modifies buf
    ensures width > 0 && height > 0 ==> buf[..] == Image(f, k, hsvToRgb, width, height, a)
    ensures width <= 0 || height <= 0 ==> buf[..] == old(buf[..])
  {
    ghost var drawn := width > 0 && height > 0;
    ghost var image := if drawn then Image(f, k, hsvToRgb, width, height, a) else [];
    ghost var initial := buf[..];
    if drawn {
      forall i | 0 <= i < buf.Length
        ensures buf[i] == if Done(width, 0, 0, i) then image[i] else initial[i]
      {
        NoneDone(width, i);
      }
      assert Painted(buf[..], image, initial, width, 0, 0);
    }
    var x := 0;
    while x < width
      invariant x == 0 || 0 < x <= width
      invariant drawn ==> Painted(buf[..], image, initial, width, x, 0)
      invariant !drawn ==> buf[..] == initial
    {
      RenderColumn(f, k, hsvToRgb, width, height, a, buf, x, image, initial);
      x := x + 1;
    }
    if drawn {
      forall i | 0 <= i < buf.Length
        ensures buf[i] == image[i]
      {
        EncodeIndex(width, height, i);
      }
    }
  }

  /** The writes of one pixel: the three-byte colour struct at idx .. idx + 2 and alpha
      255 at idx + 3; no other byte changes. */
  method PutPixel(buf: array<bv8>, idx: int, colour: Rgb)
    requires 0 <= idx && idx + 3 < buf.Length
    modifies buf
    ensures buf[..] == Poke(old(buf[..]), idx, colour)
  {
    buf[idx] := colour.red;
    buf[idx + 1] := colour.green;
    buf[idx + 2] := colour.blue;
    buf[idx + 3] := 255;
  }

  /** The inner loop of `render`: column x, row by row. */
  method RenderColumn<D>(f: Arith<D>, k: Literals<D>, hsvToRgb: Hsv -> Rgb, width: int, height: int, a: D,
                         buf: array<bv8>, x: int, ghost image: seq<bv8>, ghost initial: seq<bv8>)
    requires 0 <= x < width
    requires height > 0 ==> buf.Length == width * height * 4 <= IntLimit
    requires height > 0 ==> image == Image(f, k, hsvToRgb, width, height, a)
    requires height > 0 ==> Painted(buf[..], image, initial, width, x, 0)
    modifies buf
    ensures height > 0 ==> Painted(buf[..], image, initial, width, x + 1, 0)
    ensures height <= 0 ==> buf[..] == old(buf[..])
  {
    var y := 0;
    while y < height
      invariant y == 0 || 0 < y <= height
      invariant height > 0 ==> Painted(buf[..], image, initial, width, x, y)
      invariant height <= 0 ==> buf[..] == old(buf[..])
    {
      var zi := Coord(f, k, y, width);
      var zr := Coord(f, k, x, height);
      var result := Calculate(f, k, Complex(zi, zr), a);
      OffsetInBounds(width, height, x, y);
      var idx := (y * width + x) * 4;
      var colour := hsvToRgb(HsvArgs(result));
      ghost var before := buf[..];
      PutPixel(buf, idx, colour);
      WritePixel(f, k, hsvToRgb, width, height, a, x, y, image, initial, before, buf[..]);
      y := y + 1;
    }
    if height > 0 {
      ColumnDone(buf[..], image, initial, width, height, x);
    }
  }
}
