/**
 * Decoding of a Truevision TGA image once its bytes have been read: the
 * choice between raw and run-length encoded image data (Field 3, Image Type),
 * the run-length packet decoder for the Field 8 image data, the packing of
 * pixels into 24-bit values, the vertical flip driven by bit 5 of the Image
 * Descriptor (Field 5.6), and pixel lookup.
 *
 * The file itself is not read here: the header fields and the bytes that
 * follow the 18-byte header are inputs.
 */
module Tga {
  import opened Common

  /** The header fields the decoder uses. */
  datatype Header = Header(
    datatypecode: int,      // Field 3, Image Type
    width: nat,             // Field 5.3
    height: nat,            // Field 5.4
    bitsperpixel: nat,      // Field 5.5, Pixel Depth (an i8 field: below 128)
    imagedescriptor: byte)  // Field 5.6

  /** A decoded image: `width` columns, each of `height` packed pixels. */
  datatype Image = Image(pixmap: seq<seq<int>>, width: nat, height: nat)

  ghost predicate WellFormed(img: Image)
  {
    |img.pixmap| == img.width &&
    forall c :: 0 <= c < |img.pixmap| ==> |img.pixmap[c]| == img.height
  }

  /** `bitsperpixel >> 3` on a non-negative value. */
  function BytesPerPixel(bitsperpixel: nat): nat
  {
    bitsperpixel / 8
  }

  // ---------------------------------------------------------------------
  // Run-length encoded image data
  // ---------------------------------------------------------------------

  /** `k` copies of `s`, one after another. */
  function Repeat(s: seq<byte>, k: nat): (r: seq<byte>)
    ensures |r| == k * |s|
  {
    if k == 0 then [] else Repeat(s, k - 1) + s
  }

  /** One decoded packet: the bytes it yields, its pixel count, and where the next packet starts. */
  datatype Packet = Packet(bytes: seq<byte>, count: nat, next: nat)

  /**
   * The packet whose header byte is `input[pos]`.  A header below 128 starts
   * a raw packet of header+1 pixels stored one after another; a header of 128
   * or more starts a run packet: one pixel, repeated header-127 times.
   * Reading past the end of the input panics.
   */
  function DecodePacket(input: seq<byte>, bytespp: nat, pos: nat): (r: Outcome<Packet>)
    ensures r.Ok? ==> pos < r.value.next <= |input|
    ensures r.Ok? ==> 1 <= r.value.count <= 128
    ensures r.Ok? ==> |r.value.bytes| == r.value.count * bytespp
  {
    if pos >= |input| then Panic
    else
      var h: nat := input[pos];
      if h < 128 then
        var end := pos + 1 + (h + 1) * bytespp;
        if end <= |input| then Ok(Packet(input[pos + 1..end], h + 1, end)) else Panic
      else
        var end := pos + 1 + bytespp;
        if end <= |input| then Ok(Packet(Repeat(input[pos + 1..end], h - 127), h - 127, end)) else Panic
  }

  /** What decoding produced: the pixel bytes and the number of pixels decoded. */
  datatype Decoded = Decoded(bytes: seq<byte>, pixels: nat)

  /** Decoding from input position `pos` with `pix` pixels already decoded, until `pixelcount` is reached. */
  function DecodeFrom(input: seq<byte>, bytespp: nat, pixelcount: nat, pos: nat, pix: nat): Outcome<Decoded>
    decreases pixelcount - pix
  {
    if pix >= pixelcount then Ok(Decoded([], pix))
    else
      match DecodePacket(input, bytespp, pos)
      case Panic => Panic
      case Ok(p) =>
        match DecodeFrom(input, bytespp, pixelcount, p.next, pix + p.count)
        case Panic => Panic
        case Ok(d) => Ok(Decoded(p.bytes + d.bytes, d.pixels))
  }

  function RleDecode(input: seq<byte>, bytespp: nat, pixelcount: nat): Outcome<Decoded>
  {
    DecodeFrom(input, bytespp, pixelcount, 0, 0)
  }

  /** The byte vector `prefix` after the decoded bytes have been pushed onto it. */
  function AppendTo(prefix: seq<byte>, d: Outcome<Decoded>): Outcome<seq<byte>>
  {
    match d
    case Panic => Panic
    case Ok(x) => Ok(prefix + x.bytes)
  }

  /**
   * Reads the packet whose header byte is at `pos`, pushing its pixel bytes
   * one at a time, as the decoder's loop body does.
   */
  method ReadPacket(input: seq<byte>, bytespp: nat, pos: nat) returns (r: Outcome<Packet>)
    ensures r == DecodePacket(input, bytespp, pos)
  {
    if pos >= |input| { return Panic; }
    var chunkheader: nat := input[pos];
    var at := pos + 1;
    var bytes: seq<byte> := [];
    if chunkheader < 128 {
      chunkheader := chunkheader + 1;
      var endpos := at + chunkheader * bytespp;
      while at < endpos
        invariant pos + 1 <= at <= endpos && at <= |input|
        invariant bytes == input[pos + 1..at]
      {
        if at >= |input| { return Panic; }
        bytes := bytes + [input[at]];
        at := at + 1;
      }
    } else {
      chunkheader := chunkheader - 127;
      ghost var run := if at + bytespp <= |input| then input[at..at + bytespp] else [];
      for i := 0 to chunkheader
        invariant i > 0 ==> at + bytespp <= |input|
        invariant bytes == Repeat(run, i)
      {
        for j := 0 to bytespp
          invariant at + j <= |input|
          invariant bytes == Repeat(run, i) + input[at..at + j]
        {
          if at + j >= |input| { return Panic; }
          bytes := bytes + [input[at + j]];
        }
      }
      if at + bytespp > |input| { return Panic; }
      at := at + bytespp;
    }
    return Ok(Packet(bytes, chunkheader, at));
  }

  /**
   * The run-length decoder: pushes the decoded pixel bytes onto `encoded`.
   * The result is the new contents of `encoded`, or `Panic` when a packet
   * runs past the end of the input.
   */
  method ReadRle(pixelcount: nat, bytespp: nat, input: seq<byte>, encoded: seq<byte>)
    returns (r: Outcome<seq<byte>>)
    ensures r == AppendTo(encoded, RleDecode(input, bytespp, pixelcount))
  {
    var out := encoded;
    var pos: nat, pix: nat := 0, 0;
    while pix < pixelcount
      invariant AppendTo(out, DecodeFrom(input, bytespp, pixelcount, pos, pix))
             == AppendTo(encoded, RleDecode(input, bytespp, pixelcount))
      decreases pixelcount - pix
    {
      DecodeStep(input, bytespp, pixelcount, pos, pix, out);
      var packet := ReadPacket(input, bytespp, pos);
      match packet
      case Panic => return Panic;
      case Ok(p) =>
        out := out + p.bytes;
        pos := p.next;
        pix := pix + p.count;
    }
    assert out + [] == out;
    return Ok(out);
  }

  /** One step of decoding: the bytes of the packet at `pos` come first. */
  lemma DecodeStep(input: seq<byte>, bytespp: nat, pixelcount: nat, pos: nat, pix: nat, prefix: seq<byte>)
    requires pix < pixelcount
    ensures DecodePacket(input, bytespp, pos).Panic? ==>
      DecodeFrom(input, bytespp, pixelcount, pos, pix) == Panic
    ensures DecodePacket(input, bytespp, pos).Ok? ==>
      var p := DecodePacket(input, bytespp, pos).value;
      AppendTo(prefix, DecodeFrom(input, bytespp, pixelcount, pos, pix))
        == AppendTo(prefix + p.bytes, DecodeFrom(input, bytespp, pixelcount, p.next, pix + p.count))
  {
    if DecodePacket(input, bytespp, pos).Ok? {
      var p := DecodePacket(input, bytespp, pos).value;
      match DecodeFrom(input, bytespp, pixelcount, p.next, pix + p.count)
      case Panic =>
      case Ok(d) => assert prefix + (p.bytes + d.bytes) == prefix + p.bytes + d.bytes;
    }
  }

  /** Decoding stops at the first packet that reaches `pixelcount`, and yields `bytespp` bytes per decoded pixel. */
  lemma {:induction false} DecodeFromCount(input: seq<byte>, bytespp: nat, pixelcount: nat, pos: nat, pix: nat)
    requires DecodeFrom(input, bytespp, pixelcount, pos, pix).Ok?
    ensures var d := DecodeFrom(input, bytespp, pixelcount, pos, pix).value;
      d.pixels >= pix &&
      |d.bytes| == bytespp * (d.pixels - pix) &&
      (pix >= pixelcount ==> d.pixels == pix) &&
      (pix < pixelcount ==> pixelcount <= d.pixels < pixelcount + 128)
    decreases pixelcount - pix
  {
    if pix < pixelcount {
      var p := DecodePacket(input, bytespp, pos).value;
      DecodeFromCount(input, bytespp, pixelcount, p.next, pix + p.count);
      var d := DecodeFrom(input, bytespp, pixelcount, p.next, pix + p.count).value;
      assert DecodeFrom(input, bytespp, pixelcount, pos, pix) == Ok(Decoded(p.bytes + d.bytes, d.pixels));
      MulAddSplit(bytespp, p.count, d.pixels - (pix + p.count));
    }
  }

  /**
   * `read_rle` keeps what `encoded` held and appends `bytespp` bytes for each
   * decoded pixel; the number of decoded pixels is at least `pixelcount` and
   * less than `pixelcount + 128`, and nothing is appended when `pixelcount`
   * is zero.
   */
  lemma ReadRleAppends(input: seq<byte>, bytespp: nat, pixelcount: nat, encoded: seq<byte>)
    requires AppendTo(encoded, RleDecode(input, bytespp, pixelcount)).Ok?
    ensures var s := AppendTo(encoded, RleDecode(input, bytespp, pixelcount)).value;
      var n := RleDecode(input, bytespp, pixelcount).value.pixels;
      |encoded| <= |s| && s[..|encoded|] == encoded && |s| == |encoded| + bytespp * n &&
      (pixelcount == 0 ==> n == 0 && s == encoded) &&
      (pixelcount > 0 ==> pixelcount <= n < pixelcount + 128)
  {
    DecodeFromCount(input, bytespp, pixelcount, 0, 0);
  }

  // A run-length encoder, the partner against which the decoder is checked.

  /** The number of pixels one packet can hold. */
  type Count = n: int | 1 <= n <= 128 witness 1

  /** A packet as an encoder would write it: `n` raw pixels, or one pixel repeated `times` times. */
  datatype RlePacket = RawPacket(n: Count, pixels: seq<byte>) | RunPacket(pixel: seq<byte>, times: Count)

  /** The packet's pixel data holds whole pixels of `bytespp` bytes. */
  ghost predicate WellFormedPacket(p: RlePacket, bytespp: nat)
  {
    match p
    case RawPacket(n, pixels) => |pixels| == n * bytespp
    case RunPacket(pixel, times) => |pixel| == bytespp
  }

  /** The bytes of one packet: its header byte, then its pixel data. */
  function EncodePacket(p: RlePacket): seq<byte>
  {
    match p
    case RawPacket(n, pixels) => [n - 1] + pixels
    case RunPacket(pixel, times) => [127 + times] + pixel
  }

  function PacketPixels(p: RlePacket): nat
  {
    match p
    case RawPacket(n, _) => n
    case RunPacket(_, times) => times
  }

  function ExpandPacket(p: RlePacket): seq<byte>
  {
    match p
    case RawPacket(_, pixels) => pixels
    case RunPacket(pixel, times) => Repeat(pixel, times)
  }

  function Expand(ps: seq<RlePacket>): seq<byte>
  {
    if ps == [] then [] else ExpandPacket(ps[0]) + Expand(ps[1..])
  }

  function TotalPixels(ps: seq<RlePacket>): nat
  {
    if ps == [] then 0 else PacketPixels(ps[0]) + TotalPixels(ps[1..])
  }

  /** The decoder reads an encoded packet back, wherever it sits in the input. */
  lemma DecodeEncodedPacket(input: seq<byte>, pos: nat, p: RlePacket, bytespp: nat)
    requires WellFormedPacket(p, bytespp)
    requires pos + |EncodePacket(p)| <= |input|
    requires input[pos..pos + |EncodePacket(p)|] == EncodePacket(p)
    ensures DecodePacket(input, bytespp, pos)
         == Ok(Packet(ExpandPacket(p), PacketPixels(p), pos + |EncodePacket(p)|))
  {
    var e := EncodePacket(p);
    assert input[pos] == e[0];
    assert input[pos + 1..pos + |e|] == e[1..];
  }

  /** Decoding an encoded packet, then whatever follows it. */
  lemma DecodeEncodedStep(input: seq<byte>, pos: nat, p: RlePacket, bytespp: nat, pix: nat, pixelcount: nat, rest: seq<byte>)
    requires WellFormedPacket(p, bytespp)
    requires pos + |EncodePacket(p)| <= |input|
    requires input[pos..pos + |EncodePacket(p)|] == EncodePacket(p)
    requires pix < pixelcount
    requires DecodeFrom(input, bytespp, pixelcount, pos + |EncodePacket(p)|, pix + PacketPixels(p))
          == Ok(Decoded(rest, pixelcount))
    ensures DecodeFrom(input, bytespp, pixelcount, pos, pix) == Ok(Decoded(ExpandPacket(p) + rest, pixelcount))
  {
    DecodeEncodedPacket(input, pos, p, bytespp);
  }

  /**
   * The encoder's output: from `pos` on, `input` holds the header byte and
   * pixel data of each packet of `ps`, one after another.
   */
  ghost predicate EncodedAt(input: seq<byte>, pos: nat, ps: seq<RlePacket>, bytespp: nat)
    decreases |ps|
  {
    ps == [] ||
    (WellFormedPacket(ps[0], bytespp) &&
     pos + |EncodePacket(ps[0])| <= |input| &&
     input[pos..pos + |EncodePacket(ps[0])|] == EncodePacket(ps[0]) &&
     EncodedAt(input, pos + |EncodePacket(ps[0])|, ps[1..], bytespp))
  }

  /** Decoding an encoded packet stream found at any offset of the input gives back its pixels. */
  lemma {:induction false} DecodeEncodeAt(input: seq<byte>, pos: nat, ps: seq<RlePacket>, bytespp: nat, pix: nat, pixelcount: nat)
    requires EncodedAt(input, pos, ps, bytespp)
    requires pixelcount == pix + TotalPixels(ps)
    ensures DecodeFrom(input, bytespp, pixelcount, pos, pix) == Ok(Decoded(Expand(ps), pixelcount))
    decreases |ps|
  {
    if ps != [] {
      var p := ps[0];
      DecodeEncodeAt(input, pos + |EncodePacket(p)|, ps[1..], bytespp, pix + PacketPixels(p), pixelcount);
      DecodeEncodedStep(input, pos, p, bytespp, pix, pixelcount, Expand(ps[1..]));
    }
  }

  /**
   * Round trip: an input that starts with the encoded packets `ps` decodes,
   * from position 0, to their pixels, whatever bytes follow them.
   */
  lemma DecodeEncode(input: seq<byte>, ps: seq<RlePacket>, bytespp: nat)
    requires EncodedAt(input, 0, ps, bytespp)
    ensures RleDecode(input, bytespp, TotalPixels(ps)) == Ok(Decoded(Expand(ps), TotalPixels(ps)))
  {
    DecodeEncodeAt(input, 0, ps, bytespp, 0, TotalPixels(ps));
  }

  // ---------------------------------------------------------------------
  // Pixel packing
  // ---------------------------------------------------------------------

  /** A grey pixel as packed by the source: `i + (i << 8) + (i << 8)`. */
  function Grey(i: byte): (v: int)
    ensures v == 513 * i
  {
    i + i * 256 + i * 256
  }

  /** Three bytes packed as `b0 + (b1 << 8) + (b2 << 16)`. */
  function Rgb(b0: byte, b1: byte, b2: byte): (v: int)
    ensures 0 <= v < 0x100_0000
    ensures v % 256 == b0 && (v / 256) % 256 == b1 && v / 65536 == b2
  {
    b0 + b1 * 256 + b2 * 65536
  }

  /** The pixel depths that are packed; for every other depth a pixel stays 0. */
  predicate Packed(bytespp: nat)
  {
    bytespp == 1 || bytespp == 3 || bytespp == 4
  }

  /** Whether the bytes of pixel `(ix, iy)` lie inside a buffer of length `len`. */
  predicate PixelFits(len: nat, width: nat, bytespp: nat, ix: nat, iy: nat)
  {
    !Packed(bytespp) || (iy * width + ix + 1) * bytespp <= len
  }

  /** The packed value of pixel `(ix, iy)`, whose bytes start at `(iy * width + ix) * bytespp`. */
  function PixelAt(buffer: seq<byte>, width: nat, bytespp: nat, ix: nat, iy: nat): (v: int)
    requires PixelFits(|buffer|, width, bytespp, ix, iy)
    ensures bytespp == 1 ==> v == 513 * (buffer[iy * width + ix] as int)
    ensures bytespp == 3 ==>
      var k := (iy * width + ix) * 3;
      0 <= v < 0x100_0000 &&
      v % 256 == buffer[k] && (v / 256) % 256 == buffer[k + 1] && v / 65536 == buffer[k + 2]
    ensures bytespp == 4 ==>
      var k := (iy * width + ix) * 4;
      0 <= v < 0x100_0000 &&
      v % 256 == buffer[k] && (v / 256) % 256 == buffer[k + 1] && v / 65536 == buffer[k + 2]
    ensures !Packed(bytespp) ==> v == 0
  {
    var k := iy * width + ix;
    if bytespp == 1 then Grey(buffer[k])
    else if bytespp == 3 then
      assert (k + 1) * bytespp == (k + 1) * 3 == k * 3 + 3;
      Rgb(buffer[k * 3], buffer[k * 3 + 1], buffer[k * 3 + 2])
    else if bytespp == 4 then
      assert (k + 1) * bytespp == (k + 1) * 4 == k * 4 + 4;
      Rgb(buffer[k * 4], buffer[k * 4 + 1], buffer[k * 4 + 2])
    else 0
  }

  /** Whether every pixel of a `width` by `height` image lies inside a buffer of length `len`. */
  predicate CanvasFits(len: nat, width: nat, height: nat, bytespp: nat)
  {
    !Packed(bytespp) || width * height * bytespp <= len
  }

  lemma PixelIndexBound(width: nat, height: nat, ix: nat, iy: nat, bytespp: nat)
    requires ix < width && iy < height
    ensures (iy * width + ix + 1) * bytespp <= width * height * bytespp
  {
    MulLeMono(iy, height - 1, width);
    assert (height - 1) * width + width == width * height;
    MulLeMono(iy * width + ix + 1, width * height, bytespp);
  }

  /** The canvas fits exactly when its last pixel does. */
  lemma CanvasFitsIff(len: nat, width: nat, height: nat, bytespp: nat)
    ensures CanvasFits(len, width, height, bytespp) <==>
      (forall ix, iy :: 0 <= ix < width && 0 <= iy < height ==> PixelFits(len, width, bytespp, ix, iy))
  {
    if CanvasFits(len, width, height, bytespp) {
      forall ix, iy | 0 <= ix < width && 0 <= iy < height
        ensures PixelFits(len, width, bytespp, ix, iy)
      {
        PixelIndexBound(width, height, ix, iy, bytespp);
      }
    } else if width > 0 && height > 0 {
      assert (height - 1) * width + (width - 1) + 1 == width * height;
      assert !PixelFits(len, width, bytespp, width - 1, height - 1);
    }
  }

  /** The canvas `create_canvas` builds from `buffer`, or `Panic` when the buffer is too short. */
  function Canvas(buffer: seq<byte>, width: nat, height: nat, bytespp: nat): Outcome<seq<seq<int>>>
  {
    if !CanvasFits(|buffer|, width, height, bytespp) then Panic
    else
      CanvasFitsIff(|buffer|, width, height, bytespp);
      Ok(seq(width, ix requires 0 <= ix < width =>
           seq(height, iy requires 0 <= iy < height => PixelAt(buffer, width, bytespp, ix, iy))))
  }

  /**
   * The packed value of pixel `(ix, iy)` for a depth of 1, 3 or 4 bytes, or
   * `Panic` when its bytes run past the end of the buffer.
   */
  method PackPixel(buffer: seq<byte>, width: nat, bytespp: nat, ix: nat, iy: nat) returns (r: Outcome<int>)
    requires Packed(bytespp)
    ensures r.Panic? <==> !PixelFits(|buffer|, width, bytespp, ix, iy)
    ensures r.Ok? ==> r.value == PixelAt(buffer, width, bytespp, ix, iy)
  {
    var k := iy * width + ix;
    if bytespp == 1 {
      if k >= |buffer| { return Panic; }
      var intensity: int := buffer[k];
      return Ok(intensity + intensity * 256 + intensity * 256);
    } else if bytespp == 3 {
      if (k + 1) * 3 > |buffer| { return Panic; }
      var bytes := buffer[k * 3..(k + 1) * 3];
      return Ok(bytes[0] as int + bytes[1] as int * 256 + bytes[2] as int * 65536);
    } else {
      if (k + 1) * 4 > |buffer| { return Panic; }
      var bytes := buffer[k * 4..(k + 1) * 4];
      return Ok(bytes[0] as int + bytes[1] as int * 256 + bytes[2] as int * 65536);
    }
  }

  /**
   * The canvas: `width` columns of `height` entries, filled row by row; pixel
   * `(ix, iy)` reads its bytes from `(iy * width + ix) * bytespp` on.
   */
  method CreateCanvas(width: nat, height: nat, bytespp: nat, buffer: seq<byte>) returns (r: Outcome<seq<seq<int>>>)
    ensures r.Panic? <==> Packed(bytespp) && |buffer| < width * height * bytespp
    ensures r == Canvas(buffer, width, height, bytespp)
  {
    var blank: seq<seq<int>> := seq(width, _ => seq(height, _ => 0));
    var canvas := blank;
    for iy := 0 to height
      invariant |canvas| == width && forall c :: 0 <= c < width ==> |canvas[c]| == height
      invariant !Packed(bytespp) ==> canvas == blank
      invariant forall c, k :: 0 <= c < width && 0 <= k < iy ==>
        PixelFits(|buffer|, width, bytespp, c, k) && canvas[c][k] == PixelAt(buffer, width, bytespp, c, k)
    {
      for ix := 0 to width
        invariant |canvas| == width && forall c :: 0 <= c < width ==> |canvas[c]| == height
        invariant !Packed(bytespp) ==> canvas == blank
        invariant forall c, k :: 0 <= c < width && 0 <= k < iy ==>
          PixelFits(|buffer|, width, bytespp, c, k) && canvas[c][k] == PixelAt(buffer, width, bytespp, c, k)
        invariant forall c :: 0 <= c < ix ==>
          PixelFits(|buffer|, width, bytespp, c, iy) && canvas[c][iy] == PixelAt(buffer, width, bytespp, c, iy)
      {
        if Packed(bytespp) {
          var v := PackPixel(buffer, width, bytespp, ix, iy);
          match v
          case Panic =>
            PixelIndexBound(width, height, ix, iy, bytespp);
            return Panic;
          case Ok(value) =>
            canvas := canvas[ix := canvas[ix][iy := value]];
        }
      }
    }
    CanvasFitsIff(|buffer|, width, height, bytespp);
    var expected := Canvas(buffer, width, height, bytespp).value;
    forall c | 0 <= c < width ensures canvas[c] == expected[c] {
      forall k | 0 <= k < height ensures canvas[c][k] == expected[c][k] {
        if !Packed(bytespp) {
          assert canvas[c][k] == blank[c][k] == 0;
        }
      }
    }
    assert canvas == expected;
    return Ok(canvas);
  }

  // ---------------------------------------------------------------------
  // Vertical flip
  // ---------------------------------------------------------------------

  /** Bit 5 (0x20) of the Image Descriptor: the image is stored top to bottom. */
  predicate TopToBottom(imagedescriptor: byte)
  {
    (imagedescriptor / 32) % 2 == 1
  }

  /** Every column of `pixmap` reversed in y. */
  function Flipped(pixmap: seq<seq<int>>, height: nat): (r: seq<seq<int>>)
    requires forall c :: 0 <= c < |pixmap| ==> |pixmap[c]| == height
  {
    seq(|pixmap|, c requires 0 <= c < |pixmap| =>
      seq(height, k requires 0 <= k < height => pixmap[c][height - 1 - k]))
  }

  /** Flipping twice gives back the original pixmap. */
  lemma FlipTwice(pixmap: seq<seq<int>>, height: nat)
    requires forall c :: 0 <= c < |pixmap| ==> |pixmap[c]| == height
    ensures Flipped(Flipped(pixmap, height), height) == pixmap
  {
    var f := Flipped(pixmap, height);
    var ff := Flipped(f, height);
    forall c | 0 <= c < |pixmap| ensures ff[c] == pixmap[c] {
      forall k | 0 <= k < height ensures ff[c][k] == pixmap[c][k] {
        assert ff[c][k] == f[c][height - 1 - k];
      }
    }
  }

  /** The in-place flip: for `iy < height / 2`, swaps rows `iy` and `height - 1 - iy` of every column. */
  method FlipRows(pixmap: seq<seq<int>>, width: nat, height: nat) returns (r: seq<seq<int>>)
    requires |pixmap| == width && forall c :: 0 <= c < width ==> |pixmap[c]| == height
    ensures |r| == width && forall c :: 0 <= c < width ==> |r[c]| == height
    ensures r == Flipped(pixmap, height)
  {
    r := pixmap;
    for iy := 0 to height / 2
      invariant |r| == width && forall c :: 0 <= c < width ==> |r[c]| == height
      invariant forall c, k :: 0 <= c < width && (0 <= k < iy || height - iy <= k < height) ==>
        r[c][k] == pixmap[c][height - 1 - k]
      invariant forall c, k :: 0 <= c < width && iy <= k < height - iy ==> r[c][k] == pixmap[c][k]
    {
      for ix := 0 to width
        invariant |r| == width && forall c :: 0 <= c < width ==> |r[c]| == height
        invariant forall c, k ::
          (0 <= c < width && (0 <= k < iy || height - iy <= k < height || ((k == iy || k == height - 1 - iy) && c < ix)))
          ==> r[c][k] == pixmap[c][height - 1 - k]
        invariant forall c, k ::
          (0 <= c < width && iy <= k < height - iy && !((k == iy || k == height - 1 - iy) && c < ix))
          ==> r[c][k] == pixmap[c][k]
      {
        var column := r[ix];
        r := r[ix := column[iy := column[height - 1 - iy]][height - 1 - iy := column[iy]]];
      }
    }
    forall c | 0 <= c < width ensures r[c] == Flipped(pixmap, height)[c] {}
  }

  // ---------------------------------------------------------------------
  // The whole decoder
  // ---------------------------------------------------------------------

  /** The pixel bytes chosen by the Image Type: raw for types 2 and 3, run-length decoded for 10 and 11, none otherwise. */
  function ImageData(h: Header, rest: seq<byte>): Outcome<seq<byte>>
  {
    if h.datatypecode == 3 || h.datatypecode == 2 then Ok(rest)
    else if h.datatypecode == 10 || h.datatypecode == 11 then
      AppendTo([], RleDecode(rest, BytesPerPixel(h.bitsperpixel), h.width * h.height))
    else Ok([])
  }

  /** The image decoded from a header and the bytes after it. */
  function DecodeImage(h: Header, rest: seq<byte>): Outcome<Image>
  {
    match ImageData(h, rest)
    case Panic => Panic
    case Ok(buffer) =>
      match Canvas(buffer, h.width, h.height, BytesPerPixel(h.bitsperpixel))
      case Panic => Panic
      case Ok(pixmap) =>
        Ok(Image(if TopToBottom(h.imagedescriptor) then Flipped(pixmap, h.height) else pixmap, h.width, h.height))
  }

  /** `read_file` after the header has been read: pick the pixel data, pack it, flip it when bit 5 is set. */
  method ReadFile(header: Header, rest: seq<byte>) returns (r: Outcome<Image>)
    requires header.bitsperpixel < 128
    ensures r == DecodeImage(header, rest)
  {
    var width, height := header.width, header.height;
    var bytespp := header.bitsperpixel / 8;
    var buffer: seq<byte> := [];
    if 3 == header.datatypecode || 2 == header.datatypecode {
      buffer := buffer + rest;
      assert buffer == rest;
    } else if 10 == header.datatypecode || 11 == header.datatypecode {
      var decoded := ReadRle(width * height, bytespp, rest, buffer);
      if decoded.Panic? { return Panic; }
      buffer := decoded.value;
    }
    assert ImageData(header, rest) == Ok(buffer);
    var canvas := CreateCanvas(width, height, bytespp, buffer);
    if canvas.Panic? { return Panic; }
    var pixmap := canvas.value;
    if (header.imagedescriptor / 32) % 2 == 1 {
      pixmap := FlipRows(pixmap, width, height);
    }
    return Ok(Image(pixmap, width, height));
  }

  /** `bytespp = bitsperpixel >> 3`; types 2 and 3 take the rest of the input, 10 and 11 decode `width * height` pixels, any other type no bytes. */
  lemma ImageDataByType(h: Header, rest: seq<byte>)
    requires ImageData(h, rest).Ok?
    ensures var buffer := ImageData(h, rest).value; var n := h.width * h.height;
      (h.datatypecode in {2, 3} ==> buffer == rest) &&
      (h.datatypecode in {10, 11} ==>
        exists decoded :: n <= decoded < n + 128 &&
                          |buffer| == BytesPerPixel(h.bitsperpixel) * decoded) &&
      (h.datatypecode in {10, 11} && n == 0 ==> buffer == []) &&
      (h.datatypecode !in {2, 3, 10, 11} ==> buffer == [])
  {
    if h.datatypecode in {10, 11} && h.datatypecode !in {2, 3} {
      ReadRleAppends(rest, BytesPerPixel(h.bitsperpixel), h.width * h.height, []);
    }
  }

  /** `get_pixel(x, y)`: entry `y` of column `x`, with no clamping. */
  function GetPixel(img: Image, x: int, y: int): int
    requires WellFormed(img)
    requires 0 <= x < img.width && 0 <= y < img.height
  {
    img.pixmap[x][y]
  }

  /**
   * Reading back a decoded image: pixel `(x, y)` is the value packed from the
   * bytes of pixel `(x, y')`, where `y'` is `y` reversed when bit 5 of the
   * Image Descriptor is set and `y` itself otherwise.
   */
  lemma GetPixelDecoded(h: Header, rest: seq<byte>, x: int, y: int)
    requires DecodeImage(h, rest).Ok?
    requires 0 <= x < h.width && 0 <= y < h.height
    ensures var img := DecodeImage(h, rest).value;
      var buffer := ImageData(h, rest).value;
      var row := if TopToBottom(h.imagedescriptor) then h.height - 1 - y else y;
      WellFormed(img) && img.width == h.width && img.height == h.height &&
      PixelFits(|buffer|, h.width, BytesPerPixel(h.bitsperpixel), x, row) &&
      GetPixel(img, x, y) == PixelAt(buffer, h.width, BytesPerPixel(h.bitsperpixel), x, row)
  {
    var buffer := ImageData(h, rest).value;
    CanvasFitsIff(|buffer|, h.width, h.height, BytesPerPixel(h.bitsperpixel));
  }
}
