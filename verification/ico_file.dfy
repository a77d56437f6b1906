/**
 The tray icon cache file: a Windows ICO container holding one 32x32 image
 stored as PNG. The file is a 6-byte ICONDIR header, one 16-byte
 ICONDIRENTRY, then the PNG bytes; multi-byte fields are little-endian, as
 `BitConverter.GetBytes` writes them on the x86 and x64 Windows hosts the
 tray runs on. Rendering the bitmap to PNG is left to the caller.
 */
module IcoFile {
  import opened Common
  import Clock

  newtype byte = x: int | 0 <= x < 256

  /** The ICONDIR header: reserved 0, type 1 (icon), one image. */
  const IconDir: seq<byte> := [0, 0, 1, 0, 1, 0]
  /** Width 32, height 32, no palette, reserved 0. */
  const EntryPrefix: seq<byte> := [32, 32, 0, 0]
  const HeaderLength: nat := 22

  /** A 16-bit little-endian field. */
  function Le16(v: nat): (bs: seq<byte>)
    requires v < 0x1_0000
    ensures |bs| == 2
  {
    [(v % 256) as byte, (v / 256) as byte]
  }

  /** A 32-bit little-endian field. */
  function Le32(v: nat): (bs: seq<byte>)
    requires v < 0x1_0000_0000
    ensures |bs| == 4
  {
    [(v % 256) as byte, (v / 256 % 256) as byte, (v / 256 / 256 % 256) as byte, (v / 256 / 256 / 256) as byte]
  }

  function ReadLe16(bs: seq<byte>): (v: nat)
    requires |bs| == 2
    ensures v < 0x1_0000
  {
    bs[0] as nat + 256 * bs[1] as nat
  }

  function ReadLe32(bs: seq<byte>): (v: nat)
    requires |bs| == 4
    ensures v < 0x1_0000_0000
  {
    bs[0] as nat + 256 * (bs[1] as nat + 256 * (bs[2] as nat + 256 * bs[3] as nat))
  }

  lemma Le16RoundTrip(v: nat)
    requires v < 0x1_0000
    ensures ReadLe16(Le16(v)) == v
  {
  }

  lemma Le32RoundTrip(v: nat)
    requires v < 0x1_0000_0000
    ensures ReadLe32(Le32(v)) == v
  {
    var a := v / 256;
    var c := a / 256;
    var d := c / 256;
    assert v == 256 * a + v % 256;
    assert a == 256 * c + a % 256;
    assert c == 256 * d + c % 256;
    assert d < 256;
  }

  /** Writing back what was read gives the same bytes. */
  lemma ReadLe32RoundTrip(bs: seq<byte>)
    requires |bs| == 4
    ensures Le32(ReadLe32(bs)) == bs
  {
    var b0, b1, b2, b3 := bs[0] as int, bs[1] as int, bs[2] as int, bs[3] as int;
    var v := ReadLe32(bs);
    DivMod(v, 256, b1 + 256 * (b2 + 256 * b3), b0);
    DivMod(b1 + 256 * (b2 + 256 * b3), 256, b2 + 256 * b3, b1);
    DivMod(b2 + 256 * b3, 256, b3, b2);
  }

  /** Quotient and remainder are determined by any decomposition with the
      remainder in range. */
  lemma DivMod(a: int, d: int, q: int, r: int)
    requires d > 0 && 0 <= r < d && a == q * d + r && a >= 0
    ensures a / d == q && a % d == r
  {
    Clock.DivBounds(a, d);
    Clock.QuotientUnique(a, d, q, a / d);
  }

  lemma ReadLe16RoundTrip(bs: seq<byte>)
    requires |bs| == 2
    ensures Le16(ReadLe16(bs)) == bs
  {
  }

  /** `SaveIconToFileAsync`: the ICO bytes around a PNG image. A .NET array
      holds at most `int.MaxValue` bytes, so the length always fits the size
      field. */
  function EncodeIco(png: seq<byte>): (ico: seq<byte>)
    requires |png| <= Int32Max
    ensures |ico| == HeaderLength + |png|
    ensures ico[..6] == IconDir && ico[6..10] == EntryPrefix
    ensures ReadLe16(ico[10..12]) == 1 && ReadLe16(ico[12..14]) == 32
    ensures ReadLe32(ico[14..18]) == |png|
    ensures ReadLe32(ico[18..22]) == HeaderLength
    ensures ico[HeaderLength..] == png
  {
    var header := IconDir + EntryPrefix + Le16(1) + Le16(32) + Le32(|png|) + Le32(HeaderLength);
    assert |header| == HeaderLength;
    Le32RoundTrip(|png|);
    var ico := header + png;
    assert ico[..6] == IconDir;
    assert ico[6..10] == EntryPrefix;
    assert ico[10..12] == Le16(1);
    assert ico[12..14] == Le16(32);
    assert ico[14..18] == Le32(|png|);
    assert ico[18..22] == Le32(HeaderLength);
    ico
  }

  /** Reads back the image of a single-image 32x32 ICO file laid out as the
      encoder writes it; `None` for anything else. */
  function DecodeIco(ico: seq<byte>): (png: Option<seq<byte>>)
    ensures png.Some? ==> |ico| == HeaderLength + |png.value| && ico[HeaderLength..] == png.value
    ensures png.Some? ==> |png.value| <= Int32Max
  {
    // the size field is a signed 32-bit count, so larger images are rejected
    if |ico| < HeaderLength || |ico| - HeaderLength > Int32Max then None
    else if ico[..6] != IconDir || ico[6..10] != EntryPrefix then None
    else if ReadLe16(ico[10..12]) != 1 || ReadLe16(ico[12..14]) != 32 then None
    else if ReadLe32(ico[18..22]) != HeaderLength then None
    else if ReadLe32(ico[14..18]) != |ico| - HeaderLength then None
    else Some(ico[HeaderLength..])
  }

  /** The decoder recovers every image the encoder writes. */
  lemma DecodeEncode(png: seq<byte>)
    requires |png| <= Int32Max
    ensures DecodeIco(EncodeIco(png)) == Some(png)
  {
  }

  /** Every file the decoder accepts is exactly the encoding of its image. */
  lemma EncodeDecode(ico: seq<byte>)
    requires DecodeIco(ico).Some?
    ensures |DecodeIco(ico).value| <= Int32Max
    ensures EncodeIco(DecodeIco(ico).value) == ico
  {
    var png := DecodeIco(ico).value;
    ReadLe16RoundTrip(ico[10..12]);
    ReadLe16RoundTrip(ico[12..14]);
    ReadLe32RoundTrip(ico[14..18]);
    ReadLe32RoundTrip(ico[18..22]);
    var e := EncodeIco(png);
    assert e[..22] == ico[..22] by {
      assert e[..22] == e[..6] + e[6..10] + e[10..12] + e[12..14] + e[14..18] + e[18..22];
      assert ico[..22] == ico[..6] + ico[6..10] + ico[10..12] + ico[12..14] + ico[14..18] + ico[18..22];
    }
    assert e == e[..22] + e[22..];
    assert ico == ico[..22] + ico[22..];
  }
}
