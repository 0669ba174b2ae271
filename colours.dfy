/**
 * The 4-byte colour value shared by the encoder and the decoder
 * (QOIShared/Colour.cs).
 */
module Colours {
  import opened Bits

  /**
   * A pixel: red, green, blue and alpha, one byte each. Equality is equality
   * of all four channels, which is how both programs compare colours.
   */
  datatype Colour = Colour(r: byte, g: byte, b: byte, a: byte)

  /**
   * The struct constructor `Colour(r, g, b, a = 255)`: it stores the four
   * channels as given, with alpha fully opaque when omitted.
   */
  function NewColour(r: byte, g: byte, b: byte, a: byte := 255): (c: Colour)
    ensures c.r == r && c.g == g && c.b == b && c.a == a
  {
    Colour(r, g, b, a)
  }

  /** `default(Colour)`: the value of every slot of a freshly allocated `Colour[]`. */
  const Blank: Colour := Colour(0, 0, 0, 0)

  /** The value both programs give `previous` before the first pixel. */
  const Start: Colour := NewColour(0, 0, 0)

  lemma StartIsOpaqueBlack()
    ensures Start == Colour(0, 0, 0, 255) && Start != Blank
  {
  }

  /**
   * A flat RGBA buffer as pixels: pixel `k` is bytes `4k` to `4k + 3`
   * (the conversion loop of the encoder).
   */
  function PixelsOf(bitmap: seq<byte>): (px: seq<Colour>)
    requires |bitmap| % 4 == 0
    ensures |px| == |bitmap| / 4
    ensures forall k :: 0 <= k < |px| ==>
      px[k] == Colour(bitmap[4 * k], bitmap[4 * k + 1], bitmap[4 * k + 2], bitmap[4 * k + 3])
  {
    seq(|bitmap| / 4, k requires 0 <= k < |bitmap| / 4 =>
      NewColour(bitmap[4 * k], bitmap[4 * k + 1], bitmap[4 * k + 2], bitmap[4 * k + 3]))
  }

  /** Channel `j` (0 red, 1 green, 2 blue, 3 alpha) of a colour. */
  function Channel(c: Colour, j: int): byte {
    if j == 0 then c.r else if j == 1 then c.g else if j == 2 then c.b else c.a
  }

  /**
   * Pixels as a flat RGBA buffer, four bytes per pixel in the order red,
   * green, blue, alpha (the flattening loop of the decoder).
   */
  function Flatten(px: seq<Colour>): (bytes: seq<byte>)
    ensures |bytes| == 4 * |px|
  {
    seq(4 * |px|, n requires 0 <= n < 4 * |px| => Channel(px[n / 4], n % 4))
  }

  /** Bytes `4k` to `4k + 3` of the flat buffer are the channels of pixel `k`. */
  lemma FlattenAt(px: seq<Colour>, k: int)
    requires 0 <= k < |px|
    ensures var bytes := Flatten(px);
      bytes[4 * k] == px[k].r && bytes[4 * k + 1] == px[k].g &&
      bytes[4 * k + 2] == px[k].b && bytes[4 * k + 3] == px[k].a
  {
    QuarterOf(k, 0);
    QuarterOf(k, 1);
    QuarterOf(k, 2);
    QuarterOf(k, 3);
  }

  lemma QuarterOf(k: int, j: int)
    requires 0 <= j < 4
    ensures (4 * k + j) / 4 == k && (4 * k + j) % 4 == j
  {
  }

  /** Flattening the pixels of a buffer gives the buffer back. */
  lemma FlattenPixelsOf(bitmap: seq<byte>)
    requires |bitmap| % 4 == 0
    ensures Flatten(PixelsOf(bitmap)) == bitmap
  {
    var px := PixelsOf(bitmap);
    var f := Flatten(px);
    forall n | 0 <= n < |bitmap|
      ensures f[n] == bitmap[n]
    {
      var k, j := n / 4, n % 4;
      QuarterOf(k, j);
      assert n == 4 * k + j;
      assert f[n] == Channel(px[k], j);
    }
  }

  /** Reading the pixels of a flattened sequence gives the sequence back. */
  lemma PixelsOfFlatten(px: seq<Colour>)
    ensures PixelsOf(Flatten(px)) == px
  {
    forall k | 0 <= k < |px|
      ensures PixelsOf(Flatten(px))[k] == px[k]
    {
      FlattenAt(px, k);
    }
  }
}
