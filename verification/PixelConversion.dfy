/** The pixel loops of `compress_image_to_jpeg` for YUYV and UYVY frames. */
module PixelConversion {
  import opened Words
  import opened Stuffing

  datatype Format = YUYV | UYVY

  datatype Rgb = Rgb(r: byte, g: byte, b: byte) {
    function Bytes(): (s: seq<byte>) {
      [r, g, b]
    }
  }

  function Clamp(x: int): (c: byte) {
    if x > 255 then 255 else if x < 0 then 0 else x
  }

  /** The fixed-point conversion; `>> 8` on a negative number rounds down. */
  function Convert(y: byte, cb: byte, cr: byte): (p: Rgb) {
    var u, v := cb - 128, cr - 128;
    Rgb(Clamp((256 * y + 359 * v) / 256), Clamp((256 * y - 88 * u - 183 * v) / 256), Clamp((256 * y + 454 * u) / 256))
  }

  // ---------------------------------------------------------------- section 7 of ITU-T T.871

  function ClampReal(x: real): (c: real) {
    if x > 255.0 then 255.0 else if x < 0.0 then 0.0 else x
  }

  /** The conversion rounds down, and its factors have eight bits. */
  predicate Close(x: byte, exact: real) {
    exact - 1.2 <= x as real <= exact + 0.2
  }

  /** Each component is at most 1.2 below and 0.2 above the clamped equations of section 7 of ITU-T T.871. */
  lemma ConversionIsClose(y: byte, cb: byte, cr: byte)
    ensures var p := Convert(y, cb, cr);
            && Close(p.r, ClampReal(y as real + 1.402 * (cr - 128) as real))
            && Close(p.g, ClampReal(y as real - 0.344136 * (cb - 128) as real - 0.714136 * (cr - 128) as real))
            && Close(p.b, ClampReal(y as real + 1.772 * (cb - 128) as real))
  {
  }

  // ---------------------------------------------------------------- frames

  /** Pixel `k` of the whole frame comes from macropixel `k / 2`, with luma `k % 2`. */
  function Pixel(f: Format, mem: Memory, k: nat): (p: Rgb) {
    var m := 4 * (k / 2);
    if f.YUYV? then Convert(mem(m + 2 * (k % 2)), mem(m + 1), mem(m + 3))
    else Convert(mem(m + 1 + 2 * (k % 2)), mem(m), mem(m + 2))
  }

  /** `n` pixels from pixel `k` on, as they go to the compressor. */
  function Row(f: Format, mem: Memory, k: nat, n: nat): (s: seq<byte>)
    ensures |s| == 3 * n
  {
    if n == 0 then [] else Row(f, mem, k, n - 1) + Pixel(f, mem, k + n - 1).Bytes()
  }

  /** A row is made of the pixels behind those of the rows above it, whether or not a row ends
      within a macropixel. */
  function Rows(f: Format, mem: Memory, width: nat, height: nat): (r: seq<seq<byte>>)
    ensures |r| == height
  {
    if height == 0 then []
    else
      NextRow(width, height - 1); Rows(f, mem, width, height - 1) + [Row(f, mem, width * (height - 1), width)]
  }

  /** The number of pixel `x` of row `y` in the whole frame. */
  function PixelNumber(width: nat, y: nat, x: nat): (k: nat)
    ensures k == width * y + x
  {
    NextRow(width, y);
    width * y + x
  }

  lemma {:induction false} RowBytes(f: Format, mem: Memory, k: nat, n: nat, x: nat)
    requires x < n
    ensures Row(f, mem, k, n)[3 * x..3 * x + 3] == Pixel(f, mem, k + x).Bytes()
  {
    hide Pixel;
    var front := Row(f, mem, k, n - 1);
    if x < n - 1 {
      RowBytes(f, mem, k, n - 1, x);
      assert Row(f, mem, k, n)[3 * x..3 * x + 3] == front[3 * x..3 * x + 3];
    }
  }

  lemma {:induction false} RowAt(f: Format, mem: Memory, width: nat, height: nat, y: nat)
    requires y < height
    ensures width * y >= 0 && Rows(f, mem, width, height)[y] == Row(f, mem, width * y, width)
  {
    hide Row;
    NextRow(width, y);
    if y < height - 1 {
      RowAt(f, mem, width, height - 1, y);
    }
  }

  /** The bytes of pixel `x` of row `y`: red, green and blue of the equations, from the luma and the
      chroma bytes of the frame. */
  lemma PixelBytes(f: Format, mem: Memory, width: nat, height: nat, y: nat, x: nat)
    requires y < height && x < width
    ensures var row, k := Rows(f, mem, width, height)[y], PixelNumber(width, y, x);
            var m := 4 * (k / 2);
            var luma := if f.YUYV? then mem(m + 2 * (k % 2)) else mem(m + 1 + 2 * (k % 2));
            var cb, cr := mem(if f.YUYV? then m + 1 else m), mem(if f.YUYV? then m + 3 else m + 2);
            && |row| == 3 * width
            && Close(row[3 * x], ClampReal(luma as real + 1.402 * (cr - 128) as real))
            && Close(row[3 * x + 1],
                     ClampReal(luma as real - 0.344136 * (cb - 128) as real - 0.714136 * (cr - 128) as real))
            && Close(row[3 * x + 2], ClampReal(luma as real + 1.772 * (cb - 128) as real))
  {
    hide Rows, Row, Convert, Close, ClampReal;
    var k := PixelNumber(width, y, x);
    var m := 4 * (k / 2);
    RowAt(f, mem, width, height, y);
    RowBytes(f, mem, width * y, width, x);
    var row := Row(f, mem, width * y, width);
    var three := row[3 * x..3 * x + 3];
    assert three[0] == row[3 * x] && three[1] == row[3 * x + 1] && three[2] == row[3 * x + 2];
    if f.YUYV? {
      ConversionIsClose(mem(m + 2 * (k % 2)), mem(m + 1), mem(m + 3));
    } else {
      ConversionIsClose(mem(m + 1 + 2 * (k % 2)), mem(m), mem(m + 2));
    }
  }

  /** The position in the frame buffer when pixel `k` is next. */
  ghost predicate AtPixel(k: nat, yuyv: nat, z: nat) {
    yuyv == 4 * (k / 2) && z == k % 2
  }

  /** One pass of the inner loop. */
  method ConvertPixel(f: Format, mem: Memory, yuyv: nat, z: nat, ghost k: nat) returns (p: Rgb, yuyv': nat, z': nat)
    requires AtPixel(k, yuyv, z)
    ensures p == Pixel(f, mem, k) && AtPixel(k + 1, yuyv', z')
  {
    hide Convert;
    if f.YUYV? {
      p := Convert(if z == 0 then mem(yuyv) else mem(yuyv + 2), mem(yuyv + 1), mem(yuyv + 3));
    } else {
      p := Convert(if z == 0 then mem(yuyv + 1) else mem(yuyv + 3), mem(yuyv), mem(yuyv + 2));
    }
    yuyv', z' := yuyv, z + 1;
    if z == 1 {
      z' := 0;
      yuyv' := yuyv + 4;
    }
  }

  method ConvertRow(f: Format, mem: Memory, width: nat, yuyv0: nat, z0: nat, ghost k: nat, line: array<byte>)
    returns (yuyv: nat, z: nat)
    requires line.Length == 3 * width && AtPixel(k, yuyv0, z0)
    modifies line
    ensures AtPixel(k + width, yuyv, z) && line[..] == Row(f, mem, k, width)
  {
    hide Pixel, AtPixel;
    yuyv, z := yuyv0, z0;
    for x := 0 to width
      invariant AtPixel(k + x, yuyv, z)
      invariant line[..3 * x] == Row(f, mem, k, x)
    {
      var p;
      p, yuyv, z := ConvertPixel(f, mem, yuyv, z, k + x);
      ghost var before := line[..3 * x];
      line[3 * x], line[3 * x + 1], line[3 * x + 2] := p.r, p.g, p.b;
      assert line[..3 * (x + 1)] == before + p.Bytes();
    }
    assert line[..3 * width] == line[..];
  }

  lemma NextRow(width: nat, y: nat)
    ensures width * (y + 1) == width * y + width && width * y >= 0
  {
  }

  /** The scan lines handed to the compressor. */
  method CompressRows(f: Format, mem: Memory, width: nat, height: nat) returns (rows: seq<seq<byte>>)
    ensures rows == Rows(f, mem, width, height)
  {
    hide Row, AtPixel;
    var line := new byte[3 * width](_ => 0);
    var yuyv, z := 0, 0;
    FirstPixel();
    rows := [];
    ghost var k := 0;
    for y := 0 to height
      invariant k == width * y
      invariant rows == Rows(f, mem, width, y) && AtPixel(k, yuyv, z)
    {
      NextRow(width, y);
      yuyv, z := ConvertRow(f, mem, width, yuyv, z, k, line);
      rows := rows + [line[..]];
      k := k + width;
    }
  }

  lemma FirstPixel()
    ensures AtPixel(0, 0, 0)
  {
  }

  // ---------------------------------------------------------------- the two byte orders

  /** The frame with the bytes of each pair exchanged. */
  function Swapped(mem: Memory): (r: Memory) {
    (i: nat) => if i % 2 == 0 then mem(i + 1) else mem(i - 1)
  }

  lemma SwappedPixel(mem: Memory, k: nat)
    ensures Pixel(UYVY, mem, k) == Pixel(YUYV, Swapped(mem), k)
  {
    var m := 4 * (k / 2);
    assert Swapped(mem)(m + 2 * (k % 2)) == mem(m + 1 + 2 * (k % 2));
    assert Swapped(mem)(m + 1) == mem(m) && Swapped(mem)(m + 3) == mem(m + 2);
  }

  lemma {:induction false} SwappedRow(mem: Memory, k: nat, n: nat)
    ensures Row(UYVY, mem, k, n) == Row(YUYV, Swapped(mem), k, n)
  {
    hide Pixel, Swapped;
    if n > 0 {
      SwappedRow(mem, k, n - 1);
      SwappedPixel(mem, k + n - 1);
    }
  }

  /** A UYVY frame gives the rows of the byte-swapped YUYV frame. */
  lemma {:induction false} SwappedRows(mem: Memory, width: nat, height: nat)
    ensures Rows(UYVY, mem, width, height) == Rows(YUYV, Swapped(mem), width, height)
  {
    hide Row, Swapped;
    if height > 0 {
      NextRow(width, height - 1);
      SwappedRows(mem, width, height - 1);
      SwappedRow(mem, width * (height - 1), width);
    }
  }
}
