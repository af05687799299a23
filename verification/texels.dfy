/** Texel conversion (CDisplayListParser::ConvertImage): four {format, size}
    pairs are expanded to 32-bit A8R8G8B8 pixels; every other pair is refused and
    the destination is left alone. Source bytes are addressed through the
    word-swapped layout of emulated RAM: 16-bit texels at `(2i) ^ 2`, 8-bit texels
    at `i ^ 3`, and a 16-bit texel is read in host (little-endian) byte order. */
module Texels {
  import opened Common

  /** G_IM_FMT_* */
  datatype ImageFormat = FmtRgba | FmtYuv | FmtCi | FmtIa | FmtI
  /** G_IM_SIZ_* */
  datatype ImageSize = Siz4b | Siz8b | Siz16b | Siz32b

  /** The four channels of a converted pixel. */
  datatype Rgba = Rgba(a: u8, r: u8, g: u8, b: u8)

  /** `a << 24 | r << 16 | g << 8 | b`: the fields do not overlap, so the ORs are sums. */
  function Pack(c: Rgba): u32
  {
    c.a * 0x100_0000 + c.r * 0x1_0000 + c.g * 0x100 + c.b
  }

  /** The channels of a packed pixel. */
  function Unpack(p: u32): Rgba
  {
    Rgba(p / 0x100_0000, (p / 0x1_0000) % 0x100, (p / 0x100) % 0x100, p % 0x100)
  }

  /** Packing loses nothing: the channels come back out. */
  lemma UnpackPack(c: Rgba)
    ensures Unpack(Pack(c)) == c
  {
    var p := Pack(c);
    var low24 := c.r * 0x1_0000 + c.g * 0x100 + c.b;
    var low16 := c.g * 0x100 + c.b;
    assert c.r * 0x1_0000 <= 0xFF * 0x1_0000 && c.g * 0x100 <= 0xFF * 0x100;
    DivModUnique(p, 0x100_0000, c.a, low24);
    DivModUnique(p, 0x1_0000, c.a * 0x100 + c.r, low16);
    DivModUnique(c.a * 0x100 + c.r, 0x100, c.a, c.r);
    DivModUnique(p, 0x100, c.a * 0x1_0000 + c.r * 0x100 + c.g, c.b);
    DivModUnique(c.a * 0x1_0000 + c.r * 0x100 + c.g, 0x100, c.a * 0x100 + c.r, c.g);
  }

  predicate Supported(fmt: ImageFormat, siz: ImageSize)
  {
    || (fmt == FmtRgba && siz == Siz16b)
    || (fmt == FmtIa && siz == Siz16b)
    || (fmt == FmtIa && siz == Siz8b)
    || (fmt == FmtI && siz == Siz8b)
  }

  /** `(i * 2) ^ 2`: bit 1 of `2i` is bit 0 of `i`. */
  function Swizzle16(i: nat): nat
  {
    if i % 2 == 0 then 2 * i + 2 else 2 * i - 2
  }

  /** `i ^ 3`: the byte's position inside its word is reversed. */
  function Swizzle8(i: nat): nat
  {
    i - i % 4 + (3 - i % 4)
  }

  /** Bytes of source the conversion of `n` texels touches: whole words. */
  function SourceBytes(siz: ImageSize, n: int): nat
  {
    if n <= 0 then 0
    else if siz == Siz16b then 4 * ((n + 1) / 2)
    else 4 * ((n + 3) / 4)
  }

  /** The bytes texel `i` is read from lie inside the source buffer. */
  predicate InSource(siz: ImageSize, src: seq<u8>, i: nat)
  {
    if siz == Siz16b then Swizzle16(i) + 1 < |src| else Swizzle8(i) < |src|
  }

  /** `*(uint16_t*)&src[(i * 2) ^ 2]` on a little-endian host. */
  function Texel16(src: seq<u8>, i: nat): u16
    requires Swizzle16(i) + 1 < |src|
  {
    src[Swizzle16(i)] as int + src[Swizzle16(i) + 1] as int * 0x100
  }

  /** `src[i ^ 3]`. */
  function Texel8(src: seq<u8>, i: nat): u8
    requires Swizzle8(i) < |src|
  {
    src[Swizzle8(i)]
  }

  /** Every texel below `n` is read from the first `SourceBytes(siz, n)` bytes. */
  lemma SourceBytesCover(siz: ImageSize, src: seq<u8>, n: int, i: nat)
    requires i < n && SourceBytes(siz, n) <= |src|
    ensures InSource(siz, src, i)
  {
    if siz == Siz16b {
      var k := i / 2;
      assert 2 * k + 2 <= n + 1;
      assert k + 1 <= (n + 1) / 2;
      assert Swizzle16(i) + 1 <= 4 * k + 3;
    } else {
      var k := i / 4;
      assert 4 * k + 4 <= n + 3;
      assert k + 1 <= (n + 3) / 4;
      assert Swizzle8(i) == 4 * k + 3 - i % 4;
    }
  }

  /** A 5-bit channel times `255.0f / 32.0f` (exactly 7.96875), truncated by the
      conversion to `uint8_t`. */
  function Scale5(c: int): u8
    requires 0 <= c < 32
  {
    c * 255 / 32
  }

  /** A 4-bit channel times 0x11. */
  function Expand4(c: int): u8
    requires 0 <= c < 16
  {
    c * 0x11
  }

  /** The pixel one iteration of the source's loop stores for texel `i`. */
  function ConvertTexel(fmt: ImageFormat, siz: ImageSize, src: seq<u8>, i: nat): u32
    requires Supported(fmt, siz) && InSource(siz, src, i)
  {
    if fmt == FmtRgba then
      var px := Texel16(src, i);
      Pack(Rgba((px % 2) * 255, Scale5((px / 0x800) % 0x20), Scale5((px / 0x40) % 0x20), Scale5((px / 2) % 0x20)))
    else if siz == Siz16b then
      var px := Texel16(src, i);
      Pack(Rgba(px % 0x100, px / 0x100, px / 0x100, px / 0x100))
    else if fmt == FmtIa then
      var px := Texel8(src, i);
      Pack(Rgba(Expand4(px % 0x10), Expand4(px / 0x10), Expand4(px / 0x10), Expand4(px / 0x10)))
    else
      var px := Texel8(src, i);
      Pack(Rgba(0xFF, px, px, px))
  }

  /** What a converted pixel holds, channel by channel, for each supported pair:
      RGBA5551 scales each colour channel by 255/32 and makes the 1-bit alpha
      0 or 0xFF; IA88 copies intensity into R, G and B; IA44 widens both nibbles
      by 0x11; I8 copies intensity and is opaque. */
  predicate Channels(fmt: ImageFormat, siz: ImageSize, src: seq<u8>, i: nat, pixel: u32)
    requires Supported(fmt, siz) && InSource(siz, src, i)
  {
    var c := Unpack(pixel);
    if fmt == FmtRgba then
      var px := Texel16(src, i);
      && c.r == ((px / 0x800) % 0x20) * 255 / 32
      && c.g == ((px / 0x40) % 0x20) * 255 / 32
      && c.b == ((px / 2) % 0x20) * 255 / 32
      && c.a == (if px % 2 == 1 then 0xFF else 0)
    else if siz == Siz16b then
      var px := Texel16(src, i);
      c.r == c.g == c.b == px / 0x100 && c.a == px % 0x100
    else if fmt == FmtIa then
      var px := Texel8(src, i);
      c.r == c.g == c.b == (px / 0x10) * 0x11 && c.a == (px % 0x10) * 0x11
    else
      var px := Texel8(src, i);
      c.r == c.g == c.b == px && c.a == 0xFF
  }

  /** Each stored pixel carries the channels the format prescribes. */
  lemma ConvertTexelChannels(fmt: ImageFormat, siz: ImageSize, src: seq<u8>, i: nat)
    requires Supported(fmt, siz) && InSource(siz, src, i)
    ensures Channels(fmt, siz, src, i, ConvertTexel(fmt, siz, src, i))
  {
    if fmt == FmtRgba {
      var px := Texel16(src, i);
      UnpackPack(Rgba((px % 2) * 255, Scale5((px / 0x800) % 0x20), Scale5((px / 0x40) % 0x20), Scale5((px / 2) % 0x20)));
    } else if siz == Siz16b {
      var px := Texel16(src, i);
      UnpackPack(Rgba(px % 0x100, px / 0x100, px / 0x100, px / 0x100));
    } else if fmt == FmtIa {
      var px := Texel8(src, i);
      UnpackPack(Rgba(Expand4(px % 0x10), Expand4(px / 0x10), Expand4(px / 0x10), Expand4(px / 0x10)));
    } else {
      var px := Texel8(src, i);
      UnpackPack(Rgba(0xFF, px, px, px));
    }
  }

  datatype Conversion = Conversion(ok: bool, dst: seq<u32>)

  /** ConvertImage: the caller's buffers must hold `numTexels` pixels and the
      source words they come from. Texels below `numTexels` are converted, the
      rest of the destination is untouched, and an unsupported pair is refused. */
  function ConvertImage(dst: seq<u32>, src: seq<u8>, fmt: ImageFormat, siz: ImageSize, numTexels: int): (r: Conversion)
    requires Supported(fmt, siz) ==> numTexels <= |dst| && SourceBytes(siz, numTexels) <= |src|
    ensures r.ok <==> Supported(fmt, siz)
    ensures |r.dst| == |dst|
    ensures !r.ok ==> r.dst == dst
    ensures forall i :: 0 <= i < |dst| && i >= numTexels ==> r.dst[i] == dst[i]
    ensures r.ok ==> forall i: nat :: i < numTexels ==>
                       InSource(siz, src, i) && Channels(fmt, siz, src, i, r.dst[i])
  {
    if !Supported(fmt, siz) then
      Conversion(false, dst)
    else
      var out := seq(|dst|, i requires 0 <= i < |dst| =>
                   if i < numTexels then (SourceBytesCover(siz, src, numTexels, i); ConvertTexel(fmt, siz, src, i))
                   else dst[i]);
      assert forall i: nat | i < numTexels :: InSource(siz, src, i) && Channels(fmt, siz, src, i, out[i]) by {
        forall i: nat | i < numTexels
          ensures InSource(siz, src, i) && Channels(fmt, siz, src, i, out[i])
        {
          SourceBytesCover(siz, src, numTexels, i);
          ConvertTexelChannels(fmt, siz, src, i);
        }
      }
      Conversion(true, out)
  }

  /** A fully set red RGBA16 texel (0xF801) becomes 0xFFF70000: red scales to
      247, not 255, because the scale factor is 255/32. */
  lemma Rgba16FullRed()
    ensures ConvertImage([0], [0, 0, 0x01, 0xF8], FmtRgba, Siz16b, 1) == Conversion(true, [0xFFF7_0000])
  {
    var src: seq<u8> := [0, 0, 0x01, 0xF8];
    assert Texel16(src, 0) == 0xF801;
    assert ConvertTexel(FmtRgba, Siz16b, src, 0) == Pack(Rgba(0xFF, 247, 0, 0));
    var r := ConvertImage([0], src, FmtRgba, Siz16b, 1);
    assert r.dst[0] == ConvertTexel(FmtRgba, Siz16b, src, 0);
  }

  /** An I8 texel 0xFF is opaque white; an IA8 texel 0xF0 is transparent white;
      an unsupported pair is refused and leaves the destination alone. */
  lemma IntensityScenarios()
    ensures ConvertImage([0], [0, 0, 0, 0xFF], FmtI, Siz8b, 1) == Conversion(true, [0xFFFF_FFFF])
    ensures ConvertImage([0], [0, 0, 0, 0xF0], FmtIa, Siz8b, 1) == Conversion(true, [0x00FF_FFFF])
    ensures ConvertImage([7], [], FmtCi, Siz8b, 1) == Conversion(false, [7])
  {
    OpaqueWhite();
    TransparentWhite();
  }

  /** I8: intensity 0xFF fills R, G and B, and alpha is always 0xFF. */
  lemma OpaqueWhite()
    ensures ConvertImage([0], [0, 0, 0, 0xFF], FmtI, Siz8b, 1) == Conversion(true, [0xFFFF_FFFF])
  {
    var src: seq<u8> := [0, 0, 0, 0xFF];
    assert Swizzle8(0) == 3 && Texel8(src, 0) == 0xFF;
    assert ConvertTexel(FmtI, Siz8b, src, 0) == 0xFFFF_FFFF by {
      assert Pack(Rgba(0xFF, 0xFF, 0xFF, 0xFF)) == 0xFFFF_FFFF;
    }
    var r := ConvertImage([0], src, FmtI, Siz8b, 1);
    assert r.dst[0] == ConvertTexel(FmtI, Siz8b, src, 0);
  }

  /** IA8: intensity nibble 0xF widens to 0xFF, alpha nibble 0 stays 0. */
  lemma TransparentWhite()
    ensures ConvertImage([0], [0, 0, 0, 0xF0], FmtIa, Siz8b, 1) == Conversion(true, [0x00FF_FFFF])
  {
    var src: seq<u8> := [0, 0, 0, 0xF0];
    assert Swizzle8(0) == 3 && Texel8(src, 0) == 0xF0;
    assert ConvertTexel(FmtIa, Siz8b, src, 0) == 0x00FF_FFFF by {
      assert Expand4(0xF) == 0xFF && Expand4(0) == 0;
      assert Pack(Rgba(0, 0xFF, 0xFF, 0xFF)) == 0x00FF_FFFF;
    }
    var r := ConvertImage([0], src, FmtIa, Siz8b, 1);
    assert r.dst[0] == ConvertTexel(FmtIa, Siz8b, src, 0);
  }
}
