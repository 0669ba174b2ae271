/**
 * The colour hash and the chunk tags (QOIShared/QOIChunks.cs), and the chunk
 * vocabulary of the format with the meaning of each chunk: which pixels a
 * decoder that follows the format produces from it, given the previous pixel
 * and the 64-slot colour cache.
 */
module Chunks {
  import opened Bits
  import opened Colours

  /**
   * `getArrayIndex(colour)`: the cache slot of a colour,
   * `(r * 3 + g * 5 + b * 7 + a * 11) % 64`. All operands are non-negative,
   * so C#'s `%` and Dafny's agree.
   */
  function Hash(c: Colour): (h: nat)
    ensures h < 64
  {
    (c.r as int * 3 + c.g as int * 5 + c.b as int * 7 + c.a as int * 11) % 64
  }

  /** `getArrayIndex(r, g, b, a)`: the overload on four channels. */
  function HashChannels(r: byte, g: byte, b: byte, a: byte): (h: int)
    ensures 0 <= h < 64
  {
    Hash(Colour(r, g, b, a))
  }

  /** The overload on a `Colour` is the overload on its four channels. */
  lemma HashOverloads(c: Colour)
    ensures Hash(c) == HashChannels(c.r, c.g, c.b, c.a)
  {
  }

  /** The blank colour lives in slot 0, the initial previous pixel in slot 53. */
  lemma HashOfInitialColours()
    ensures Hash(Blank) == 0 && Hash(Start) == 53
  {
    assert Start == Colour(0, 0, 0, 255);
    assert Hash(Colour(0, 0, 0, 255)) == 2805 % 64 == 53;
  }

  // The `Tags` enumeration.
  const OpIndex: byte := 0x00
  const OpDiff: byte := 0x40
  const OpLuma: byte := 0x80
  const OpRun: byte := 0xC0
  const OpRgb: byte := 0xFE
  const OpRgba: byte := 0xFF

  /**
   * The two-bit tags carry no payload bits; the two full-byte tags share the
   * RUN prefix and are the RUN payloads 62 and 63.
   */
  lemma TagLayout()
    ensures OpIndex / 64 == 0 && OpDiff / 64 == 1 && OpLuma / 64 == 2 && OpRun / 64 == 3
    ensures OpIndex % 64 == 0 && OpDiff % 64 == 0 && OpLuma % 64 == 0 && OpRun % 64 == 0
    ensures OpRgb / 64 == 3 && OpRgb % 64 == 62 && OpRgba / 64 == 3 && OpRgba % 64 == 63
  {
  }

  /** The 64-slot colour cache (`Colour[] array = new Colour[64]`). */
  type Cache = s: seq<Colour> | |s| == 64 witness seq(64, _ => Blank)

  /** The cache before the first pixel: every slot holds the blank colour. */
  function FreshCache(): (c: Cache)
    ensures forall k :: 0 <= k < 64 ==> c[k] == Blank
  {
    seq(64, k => Blank)
  }

  /** `array[getArrayIndex(c)] = c`: the only slot that changes is `Hash(c)`. */
  function Remember(cache: Cache, c: Colour): (r: Cache)
    ensures r[Hash(c)] == c
    ensures forall k :: 0 <= k < 64 && k != Hash(c) ==> r[k] == cache[k]
  {
    cache[Hash(c) := c]
  }

  /**
   * One chunk of the stream, by what it means: a run length, a cache slot,
   * signed channel deltas from the previous pixel, or literal channels.
   */
  datatype Chunk =
    | Run(len: int)
    | Index(slot: int)
    | Diff(dr: int, dg: int, db: int)
    | Luma(dg: int, drdg: int, dbdg: int)
    | Rgb(r: byte, g: byte, b: byte)
    | Rgba(r: byte, g: byte, b: byte, a: byte)

  /** The ranges the format gives each chunk's fields. */
  predicate WellFormed(c: Chunk) {
    match c
    case Run(len) => 1 <= len <= 62
    case Index(slot) => 0 <= slot < 64
    case Diff(dr, dg, db) => -2 <= dr <= 1 && -2 <= dg <= 1 && -2 <= db <= 1
    case Luma(dg, drdg, dbdg) => -32 <= dg <= 31 && -8 <= drdg <= 7 && -8 <= dbdg <= 7
    case Rgb(_, _, _) => true
    case Rgba(_, _, _, _) => true
  }

  predicate AllWellFormed(cs: seq<Chunk>) {
    forall k :: 0 <= k < |cs| ==> WellFormed(cs[k])
  }

  /** How many pixels a chunk stands for. */
  function Span(c: Chunk): nat {
    if c.Run? && c.len > 0 then c.len else 1
  }

  function Spans(cs: seq<Chunk>): nat {
    if cs == [] then 0 else Span(cs[0]) + Spans(cs[1..])
  }

  lemma {:induction false} SpansAppend(a: seq<Chunk>, b: seq<Chunk>)
    ensures Spans(a + b) == Spans(a) + Spans(b)
  {
    if a == [] {
      assert a + b == b;
    } else {
      assert (a + b)[1..] == a[1..] + b;
      SpansAppend(a[1..], b);
    }
  }

  /**
   * The pixels a chunk stands for: copies of the previous pixel, a cache
   * slot verbatim, the previous pixel moved by the deltas modulo 256 with
   * its alpha kept, or the literal channels (alpha kept for RGB).
   */
  function ChunkPixels(c: Chunk, cache: Cache, prev: Colour): (px: seq<Colour>)
    requires WellFormed(c)
    ensures |px| == Span(c)
  {
    match c
    case Run(len) => seq(len, _ => prev)
    case Index(slot) => [cache[slot]]
    case Diff(dr, dg, db) =>
      [Colour((prev.r + dr) % 256, (prev.g + dg) % 256, (prev.b + db) % 256, prev.a)]
    case Luma(dg, drdg, dbdg) =>
      [Colour((prev.r + drdg + dg) % 256, (prev.g + dg) % 256, (prev.b + dbdg + dg) % 256, prev.a)]
    case Rgb(r, g, b) => [Colour(r, g, b, prev.a)]
    case Rgba(r, g, b, a) => [Colour(r, g, b, a)]
  }

  /**
   * The pixels a decoder produces from a chunk sequence: after each chunk the
   * last pixel it produced becomes the previous pixel and is remembered in
   * the cache (after a run too, as the decoder does).
   */
  function Play(cs: seq<Chunk>, cache: Cache, prev: Colour): (px: seq<Colour>)
    requires AllWellFormed(cs)
    ensures |px| == Spans(cs)
  {
    if cs == [] then []
    else
      var first := ChunkPixels(cs[0], cache, prev);
      var last := first[|first| - 1];
      first + Play(cs[1..], Remember(cache, last), last)
  }

  /** A chunk stands for copies of one pixel: its last. */
  lemma ChunkPixelsRepeat(c: Chunk, cache: Cache, prev: Colour)
    requires WellFormed(c)
    ensures var px := ChunkPixels(c, cache, prev);
      px == seq(Span(c), _ => px[Span(c) - 1])
  {
  }
}
