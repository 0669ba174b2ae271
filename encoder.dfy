/**
 * The encoder (QOIEncoder/EncoderProgram.cs, the codec part of `Main`): a
 * 14-byte header, the per-pixel chunk loop with its run counter, 64-slot
 * cache and previous pixel, the final run flush and the 8-byte end marker.
 *
 * `EncodeFrom` is the encoder's loop as a function of its state; the method
 * `Encode` runs the loop in place and is proved to produce exactly the bytes
 * `EncodedBytes` describes.
 */
module Encoder {
  import opened Bits
  import opened Colours
  import opened Chunks

  /** A value that already fits in a byte is unchanged by `(byte)`. */
  lemma SmallByte(v: int)
    requires 0 <= v < 256
    ensures ToByte(v) == v
  {
  }

  /**
   * `(byte)(QOI_OP_RUN | (byte)(len - 1))`: the tag 0b11 in the top two
   * bits and the length, biased by -1, below. It is never one of the two
   * full-byte tags.
   */
  function RunByte(len: int): (b: byte)
    requires 1 <= len <= 62
    ensures b == 0xC0 + len - 1
    ensures b != OpRgb && b != OpRgba
  {
    var y := ToByte(len - 1);
    assert y == len - 1;
    Pow2Values();
    OrBelow(OpRun, 3, y, 6, 64);
    SmallByte(Or(OpRun, y));
    ToByte(Or(OpRun, y))
  }

  /** `(byte)(QOI_OP_INDEX | (byte)index)`: the slot under the tag 0b00. */
  function IndexByte(slot: int): (b: byte)
    requires 0 <= slot < 64
    ensures b == slot
  {
    assert ToByte(slot) == slot && OpIndex == 0;
    assert Or(0, slot) == slot;
    ToByte(Or(OpIndex, ToByte(slot)))
  }

  /**
   * `(byte)(QOI_OP_DIFF | (dr + 2) << 4 | (dg + 2) << 2 | (db + 2))` with
   * each biased delta cast to `byte`: the three deltas, two bits each,
   * below the tag 0b01.
   */
  function DiffByte(dr: int, dg: int, db: int): (b: byte)
    requires -2 <= dr <= 1 && -2 <= dg <= 1 && -2 <= db <= 1
    ensures b == 0x40 + (dr + 2) * 16 + (dg + 2) * 4 + (db + 2)
  {
    var x, y, z := ToByte(dr + 2), ToByte(dg + 2), ToByte(db + 2);
    assert x == dr + 2 && y == dg + 2 && z == db + 2;
    DiffOr(x, y, z);
    SmallByte(Or(Or(Or(OpDiff, x * 16), y * 4), z));
    ToByte(Or(Or(Or(OpDiff, x * 16), y * 4), z))
  }

  lemma DiffOr(x: nat, y: nat, z: nat)
    requires x < 4 && y < 4 && z < 4
    ensures Or(Or(Or(OpDiff, x * 16), y * 4), z) == 0x40 + x * 16 + y * 4 + z
  {
    Pow2Values();
    OrBelow(OpDiff, 1, x * 16, 6, 64);
    var v1 := Or(OpDiff, x * 16);
    OrBelow(v1, 4 + x, y * 4, 4, 16);
    var v2 := Or(v1, y * 4);
    OrBelow(v2, 16 + x * 4 + y, z, 2, 4);
  }

  /** `(byte)(QOI_OP_LUMA | (byte)(dg + 32))`: the green delta under the tag 0b10. */
  function LumaFirstByte(dg: int): (b: byte)
    requires -32 <= dg <= 31
    ensures b == 0x80 + dg + 32
  {
    var x := ToByte(dg + 32);
    assert x == dg + 32;
    Pow2Values();
    OrBelow(OpLuma, 2, x, 6, 64);
    SmallByte(Or(OpLuma, x));
    ToByte(Or(OpLuma, x))
  }

  /**
   * `(byte)((byte)(drdg + 8) << 4 | (byte)(dbdg + 8))`: the red and blue
   * deltas less the green one, biased by 8, as two nibbles.
   */
  function LumaSecondByte(drdg: int, dbdg: int): (b: byte)
    requires -8 <= drdg <= 7 && -8 <= dbdg <= 7
    ensures b == (drdg + 8) * 16 + (dbdg + 8)
  {
    var y, z := ToByte(drdg + 8), ToByte(dbdg + 8);
    assert y == drdg + 8 && z == dbdg + 8;
    Pow2Values();
    OrBelow(y * 16, y, z, 4, 16);
    SmallByte(Or(y * 16, z));
    ToByte(Or(y * 16, z))
  }

  /** The bytes the encoder writes for a chunk. */
  function ChunkBytes(c: Chunk): (s: seq<byte>)
    requires WellFormed(c)
    ensures 1 <= |s| <= 5
    ensures c.Rgb? <==> s[0] == OpRgb
    ensures c.Rgba? <==> s[0] == OpRgba
    ensures c.Run? <==> 0xC0 <= s[0] < OpRgb
  {
    match c
    case Run(len) => [RunByte(len)]
    case Index(slot) => [IndexByte(slot)]
    case Diff(dr, dg, db) => [DiffByte(dr, dg, db)]
    case Luma(dg, drdg, dbdg) => [LumaFirstByte(dg), LumaSecondByte(drdg, dbdg)]
    case Rgb(r, g, b) => [OpRgb, r, g, b]
    case Rgba(r, g, b, a) => [OpRgba, r, g, b, a]
  }

  /** The bytes of a chunk sequence, one chunk after the other. */
  function ChunksBytes(cs: seq<Chunk>): (s: seq<byte>)
    requires AllWellFormed(cs)
    ensures |cs| <= |s| <= 5 * |cs|
  {
    if cs == [] then [] else ChunkBytes(cs[0]) + ChunksBytes(cs[1..])
  }

  lemma {:induction false} ChunksBytesAppend(a: seq<Chunk>, b: seq<Chunk>)
    requires AllWellFormed(a) && AllWellFormed(b)
    ensures AllWellFormed(a + b)
    ensures ChunksBytes(a + b) == ChunksBytes(a) + ChunksBytes(b)
  {
    if a == [] {
      assert a + b == b;
    } else {
      assert (a + b)[0] == a[0] && (a + b)[1..] == a[1..] + b;
      ChunksBytesAppend(a[1..], b);
      var x, y, z := ChunkBytes(a[0]), ChunksBytes(a[1..]), ChunksBytes(b);
      assert ChunksBytes(a + b) == x + (y + z);
      AppendAssoc(x, y, z);
    }
  }

  /** The channel deltas from `prev` to `p`, each read as a signed byte, lie in [-2, 1]. */
  predicate DiffFits(p: Colour, prev: Colour) {
    && -2 <= ToSByte(p.r as int - prev.r as int) <= 1
    && -2 <= ToSByte(p.g as int - prev.g as int) <= 1
    && -2 <= ToSByte(p.b as int - prev.b as int) <= 1
  }

  /**
   * The green delta lies in [-32, 31] and the red and blue deltas, less the
   * green one, in [-8, 7], each read as a signed byte.
   */
  predicate LumaFits(p: Colour, prev: Colour) {
    var dg := ToSByte(p.g as int - prev.g as int);
    && -32 <= dg <= 31
    && -8 <= ToSByte(p.r as int - prev.r as int - dg) <= 7
    && -8 <= ToSByte(p.b as int - prev.b as int - dg) <= 7
  }

  lemma Wrap(x: byte, base: int, d: int)
    requires (x - base - d) % 256 == 0
    ensures (base + d) % 256 == x
  {
  }

  /**
   * The chunk for a pixel that does not extend a run, given the colour
   * `cached` held in the pixel's cache slot, in the priority order INDEX,
   * DIFF, LUMA, RGB, RGBA.
   */
  function ChooseChunk(p: Colour, prev: Colour, cached: Colour): (c: Chunk)
    ensures WellFormed(c)
    ensures c.Index? ==> c.slot == Hash(p)
  {
    if p == cached then Index(Hash(p))
    else if p.a == prev.a then DeltaChunk(p, prev)
    else Rgba(p.r, p.g, p.b, p.a)
  }

  /**
   * The chunk for a pixel with the previous pixel's alpha: DIFF when the
   * signed channel deltas fit in [-2, 1], else LUMA when its deltas fit, else
   * RGB.
   */
  function DeltaChunk(p: Colour, prev: Colour): (c: Chunk)
    ensures WellFormed(c)
    ensures c.Diff? || c.Luma? || c.Rgb?
  {
    var dr := ToSByte(p.r as int - prev.r as int);
    var dg := ToSByte(p.g as int - prev.g as int);
    var db := ToSByte(p.b as int - prev.b as int);
    if -2 <= dr <= 1 && -2 <= dg <= 1 && -2 <= db <= 1 then
      Diff(dr, dg, db)
    else
      var diffGreen := ToSByte(p.g as int - prev.g as int);
      var drDg := ToSByte(p.r as int - prev.r as int - diffGreen);
      var dbDg := ToSByte(p.b as int - prev.b as int - diffGreen);
      if -32 <= diffGreen <= 31 && -8 <= drDg <= 7 && -8 <= dbDg <= 7 then
        Luma(diffGreen, drDg, dbDg)
      else
        Rgb(p.r, p.g, p.b)
  }

  /** Which kind of chunk is chosen, in the priority order INDEX, DIFF, LUMA, RGB, RGBA. */
  lemma ChooseChunkKind(p: Colour, prev: Colour, cached: Colour)
    ensures var c := ChooseChunk(p, prev, cached);
      && (c.Index? <==> cached == p)
      && (c.Diff? <==> cached != p && p.a == prev.a && DiffFits(p, prev))
      && (c.Luma? <==> cached != p && p.a == prev.a && !DiffFits(p, prev) && LumaFits(p, prev))
      && (c.Rgb? <==> cached != p && p.a == prev.a && !DiffFits(p, prev) && !LumaFits(p, prev))
      && (c.Rgba? <==> cached != p && p.a != prev.a)
  {
  }

  /**
   * The chunk chosen with the colour of the pixel's own cache slot stands
   * for exactly that pixel.
   */
  lemma ChooseChunkPixels(p: Colour, prev: Colour, cache: Cache)
    ensures ChunkPixels(ChooseChunk(p, prev, cache[Hash(p)]), cache, prev) == [p]
  {
    var cached := cache[Hash(p)];
    if cached == p {
      assert ChooseChunk(p, prev, cached) == Index(Hash(p));
    } else if p.a != prev.a {
      assert ChooseChunk(p, prev, cached) == Rgba(p.r, p.g, p.b, p.a);
    } else if DiffFits(p, prev) {
      ChosenDiff(p, prev);
      DiffPixels(p, prev, cache);
    } else if LumaFits(p, prev) {
      ChosenLuma(p, prev);
      LumaPixels(p, prev, cache);
    } else {
      ChosenRgb(p, prev);
    }
  }

  /** A DIFF chunk of the signed deltas from `prev` to `p` stands for `p`. */
  lemma DiffPixels(p: Colour, prev: Colour, cache: Cache)
    requires p.a == prev.a && DiffFits(p, prev)
    ensures ChunkPixels(Diff(ToSByte(p.r as int - prev.r as int), ToSByte(p.g as int - prev.g as int), ToSByte(p.b as int - prev.b as int)), cache, prev) == [p]
  {
    var dr := ToSByte(p.r as int - prev.r as int);
    var dg := ToSByte(p.g as int - prev.g as int);
    var db := ToSByte(p.b as int - prev.b as int);
    SByteCongruent(p.r as int - prev.r as int);
    SByteCongruent(p.g as int - prev.g as int);
    SByteCongruent(p.b as int - prev.b as int);
    DiffPixelOf(p, prev, cache, dr, dg, db);
  }

  /** A DIFF chunk of deltas congruent to the true ones stands for `p`. */
  lemma DiffPixelOf(p: Colour, prev: Colour, cache: Cache, dr: int, dg: int, db: int)
    requires p.a == prev.a && -2 <= dr <= 1 && -2 <= dg <= 1 && -2 <= db <= 1
    requires (p.r as int - prev.r as int - dr) % 256 == 0
    requires (p.g as int - prev.g as int - dg) % 256 == 0
    requires (p.b as int - prev.b as int - db) % 256 == 0
    ensures ChunkPixels(Diff(dr, dg, db), cache, prev) == [p]
  {
    DeltaPixel(p, prev, dr, dg, db);
  }

  /** A LUMA chunk of the signed deltas from `prev` to `p` stands for `p`. */
  lemma LumaPixels(p: Colour, prev: Colour, cache: Cache)
    requires p.a == prev.a && LumaFits(p, prev)
    ensures var dg := ToSByte(p.g as int - prev.g as int);
      ChunkPixels(Luma(dg, ToSByte(p.r as int - prev.r as int - dg), ToSByte(p.b as int - prev.b as int - dg)), cache, prev) == [p]
  {
    var dg := ToSByte(p.g as int - prev.g as int);
    var drdg := ToSByte(p.r as int - prev.r as int - dg);
    var dbdg := ToSByte(p.b as int - prev.b as int - dg);
    SByteCongruent(p.r as int - prev.r as int - dg);
    SByteCongruent(p.g as int - prev.g as int);
    SByteCongruent(p.b as int - prev.b as int - dg);
    LumaPixelOf(p, prev, cache, dg, drdg, dbdg);
  }

  /** A LUMA chunk of deltas congruent to the true ones stands for `p`. */
  lemma LumaPixelOf(p: Colour, prev: Colour, cache: Cache, dg: int, drdg: int, dbdg: int)
    requires p.a == prev.a && -32 <= dg <= 31 && -8 <= drdg <= 7 && -8 <= dbdg <= 7
    requires (p.r as int - prev.r as int - dg - drdg) % 256 == 0
    requires (p.g as int - prev.g as int - dg) % 256 == 0
    requires (p.b as int - prev.b as int - dg - dbdg) % 256 == 0
    ensures ChunkPixels(Luma(dg, drdg, dbdg), cache, prev) == [p]
  {
    DeltaPixel(p, prev, drdg + dg, dg, dbdg + dg);
  }

  /** The conditions under which the encoder writes a DIFF chunk select one. */
  lemma ChosenDiff(p: Colour, prev: Colour)
    requires DiffFits(p, prev)
    ensures DeltaChunk(p, prev)
      == Diff(ToSByte(p.r as int - prev.r as int), ToSByte(p.g as int - prev.g as int), ToSByte(p.b as int - prev.b as int))
  {
  }

  /** The conditions under which the encoder writes a LUMA chunk select one. */
  lemma ChosenLuma(p: Colour, prev: Colour)
    requires !DiffFits(p, prev) && LumaFits(p, prev)
    ensures var dg := ToSByte(p.g as int - prev.g as int);
      DeltaChunk(p, prev)
      == Luma(dg, ToSByte(p.r as int - prev.r as int - dg), ToSByte(p.b as int - prev.b as int - dg))
  {
  }

  /** When neither delta chunk fits and alpha is unchanged, RGB is selected. */
  lemma ChosenRgb(p: Colour, prev: Colour)
    requires !DiffFits(p, prev) && !LumaFits(p, prev)
    ensures DeltaChunk(p, prev) == Rgb(p.r, p.g, p.b)
  {
  }

  // The loop account of `EncodeChunks`. Each lemma from here to
  // `FinalAccount` carries the loop's ghost bookkeeping (the chunks emitted,
  // their bytes, the chunks and the cache still to come) across one step of
  // the loop; every quantity is a parameter, so the loop body's proof stays
  // small.

  /**
   * Appending one chunk to those already emitted appends its bytes to the
   * output, and moves it from the chunks still to come to those emitted.
   */
  lemma EmitChunk(out: seq<byte>, done: seq<Chunk>, c: Chunk, tail: seq<Chunk>)
    requires AllWellFormed(done) && WellFormed(c)
    requires out == ChunksBytes(done)
    ensures AllWellFormed(done + [c])
    ensures out + ChunkBytes(c) == ChunksBytes(done + [c])
    ensures done + ([c] + tail) == (done + [c]) + tail
  {
    var x, y := ChunksBytes(done), ChunkBytes(c);
    assert [c][1..] == [];
    assert ChunksBytes([c]) == y + [];
    ChunksBytesAppend(done, [c]);
    assert ChunksBytes(done + [c]) == x + y;
    AppendAssoc(done, [c], tail);
  }

  /**
   * Emitting the first of the chunks still to come keeps the loop's
   * account: the chunks emitted, their bytes, and the whole encoding.
   */
  lemma Advance(whole: seq<Chunk>, done: seq<Chunk>, out: seq<byte>, c: Chunk, rest: seq<Chunk>, tail: seq<Chunk>)
    requires AllWellFormed(done) && WellFormed(c) && out == ChunksBytes(done)
    requires whole == done + rest && rest == [c] + tail
    ensures AllWellFormed(done + [c]) && out + ChunkBytes(c) == ChunksBytes(done + [c])
    ensures whole == (done + [c]) + tail
  {
    EmitChunk(out, done, c, tail);
  }

  /**
   * The loop's account after the pixels before `i`: the chunks emitted and
   * their bytes, the chunks and the cache still to come from the current
   * run counter, cache and previous pixel, and the whole encoding.
   */
  predicate Account(img: seq<Colour>, i: nat, run: nat, cache: Cache, prev: Colour,
                    whole: seq<Chunk>, done: seq<Chunk>, out: seq<byte>, todo: seq<Chunk>, left: Cache)
  {
    && i <= |img| && run <= 62
    && AllWellFormed(done) && out == ChunksBytes(done) && whole == done + todo
    && todo == EncodeFrom(img, i, run, cache, prev)
    && left == CacheFrom(img, i, run, cache, prev)
  }

  /** A pixel that extends the run keeps the account. */
  lemma ExtendAccount(img: seq<Colour>, i: nat, run: nat, cache: Cache, prev: Colour,
                      whole: seq<Chunk>, done: seq<Chunk>, out: seq<byte>, todo: seq<Chunk>, left: Cache)
    requires Account(img, i, run, cache, prev, whole, done, out, todo, left)
    requires i < |img| && run < 62 && img[i] == prev
    ensures Account(img, i + 1, run + 1, cache, prev, whole, done, out, EncodeFrom(img, i + 1, run + 1, cache, prev), left)
  {
    ExtendStep(img, i, run, cache, prev);
  }

  /** The flush of a pending run keeps the account, with the pixel still to look at. */
  lemma FlushAccount(img: seq<Colour>, i: nat, run: nat, cache: Cache, prev: Colour,
                     whole: seq<Chunk>, done: seq<Chunk>, out: seq<byte>, todo: seq<Chunk>, left: Cache)
    requires Account(img, i, run, cache, prev, whole, done, out, todo, left)
    requires i < |img| && 0 < run && !(run < 62 && img[i] == prev)
    ensures Account(img, i, 0, cache, prev, whole, done + [Run(run)], out + [RunByte(run)],
                    EncodeFrom(img, i, 0, cache, prev), left)
  {
    FlushStep(img, i, run, cache, prev);
    Advance(whole, done, out, Run(run), todo, EncodeFrom(img, i, 0, cache, prev));
  }

  /** The chunk for a pixel that does not extend a run keeps the account. */
  lemma ChunkAccount(img: seq<Colour>, i: nat, cache: Cache, prev: Colour,
                     whole: seq<Chunk>, done: seq<Chunk>, out: seq<byte>, todo: seq<Chunk>, left: Cache)
    requires Account(img, i, 0, cache, prev, whole, done, out, todo, left)
    requires i < |img| && img[i] != prev
    ensures var c := ChooseChunk(img[i], prev, cache[Hash(img[i])]);
      var after := Remember(cache, img[i]);
      Account(img, i + 1, 0, after, img[i], whole, done + [c], out + ChunkBytes(c),
              EncodeFrom(img, i + 1, 0, after, img[i]), left)
  {
    var c := ChooseChunk(img[i], prev, cache[Hash(img[i])]);
    var after := Remember(cache, img[i]);
    ChunkStep(img, i, cache, prev);
    Advance(whole, done, out, c, todo, EncodeFrom(img, i + 1, 0, after, img[i]));
  }

  /** After the last pixel only a pending run remains to be flushed, and the cache is final. */
  lemma FinalAccount(img: seq<Colour>, run: nat, cache: Cache, prev: Colour,
                     whole: seq<Chunk>, done: seq<Chunk>, out: seq<byte>, todo: seq<Chunk>, left: Cache)
    requires Account(img, |img|, run, cache, prev, whole, done, out, todo, left)
    ensures left == cache
    ensures run != 0 ==> out + [RunByte(run)] == ChunksBytes(whole)
    ensures run == 0 ==> out == ChunksBytes(whole)
  {
    if run != 0 {
      EmitChunk(out, done, Run(run), []);
    } else {
      assert whole == done + [] == done;
    }
  }

  /** Channel deltas equal to the true ones modulo 256 move `prev` onto `p`. */
  lemma DeltaPixel(p: Colour, prev: Colour, dr: int, dg: int, db: int)
    requires p.a == prev.a
    requires (p.r as int - prev.r as int - dr) % 256 == 0
    requires (p.g as int - prev.g as int - dg) % 256 == 0
    requires (p.b as int - prev.b as int - db) % 256 == 0
    ensures Colour((prev.r + dr) % 256, (prev.g + dg) % 256, (prev.b + db) % 256, prev.a) == p
  {
    Wrap(p.r, prev.r, dr);
    Wrap(p.g, prev.g, dg);
    Wrap(p.b, prev.b, db);
  }

  /**
   * The chunks the encoder's loop emits from pixel `i` on, with `run`
   * pixels equal to `prev` pending. A pixel equal to `prev` extends the run
   * while it is below 62; otherwise a pending run is flushed first and the
   * pixel is looked at again (the source's `i--`). Only a non-run chunk
   * updates the cache and the previous pixel.
   */
  function EncodeFrom(img: seq<Colour>, i: nat, run: nat, cache: Cache, prev: Colour): (cs: seq<Chunk>)
    requires i <= |img| && run <= 62
    ensures AllWellFormed(cs)
    ensures Spans(cs) == |img| - i + run
    decreases |img| - i, run
  {
    if i == |img| then
      if run != 0 then [Run(run)] else []
    else if run < 62 && img[i] == prev then
      EncodeFrom(img, i + 1, run + 1, cache, prev)
    else if run != 0 then
      var rest := EncodeFrom(img, i, 0, cache, prev);
      assert ([Run(run)] + rest)[1..] == rest;
      [Run(run)] + rest
    else
      var c := ChooseChunk(img[i], prev, cache[Hash(img[i])]);
      var rest := EncodeFrom(img, i + 1, 0, Remember(cache, img[i]), img[i]);
      assert ([c] + rest)[1..] == rest;
      [c] + rest
  }

  /** A pixel equal to the previous one extends a run shorter than 62. */
  lemma ExtendStep(img: seq<Colour>, i: nat, run: nat, cache: Cache, prev: Colour)
    requires i < |img| && run < 62 && img[i] == prev
    ensures EncodeFrom(img, i, run, cache, prev) == EncodeFrom(img, i + 1, run + 1, cache, prev)
  {
  }

  /** Any other pixel flushes a pending run first and is looked at again. */
  lemma FlushStep(img: seq<Colour>, i: nat, run: nat, cache: Cache, prev: Colour)
    requires i < |img| && 0 < run <= 62 && !(run < 62 && img[i] == prev)
    ensures EncodeFrom(img, i, run, cache, prev) == [Run(run)] + EncodeFrom(img, i, 0, cache, prev)
  {
  }

  /** With no run pending, a pixel that does not start one gets its own chunk. */
  lemma ChunkStep(img: seq<Colour>, i: nat, cache: Cache, prev: Colour)
    requires i < |img| && img[i] != prev
    ensures EncodeFrom(img, i, 0, cache, prev)
      == [ChooseChunk(img[i], prev, cache[Hash(img[i])])] + EncodeFrom(img, i + 1, 0, Remember(cache, img[i]), img[i])
  {
  }

  /** The chunks for a whole image: empty cache, opaque black previous pixel. */
  function EncodeImage(img: seq<Colour>): (cs: seq<Chunk>)
    ensures AllWellFormed(cs)
    ensures Spans(cs) == |img|
  {
    EncodeFrom(img, 0, 0, FreshCache(), Start)
  }

  /**
   * The encoder's cache once the pixels from `i` on have been looked at:
   * only a pixel that gets a chunk of its own is remembered, so every slot
   * keeps its colour or holds one that hashes to it.
   */
  function CacheFrom(img: seq<Colour>, i: nat, run: nat, cache: Cache, prev: Colour): (r: Cache)
    requires i <= |img| && run <= 62
    ensures forall k :: 0 <= k < 64 ==> r[k] == cache[k] || Hash(r[k]) == k
    decreases |img| - i, run
  {
    if i == |img| then cache
    else if run < 62 && img[i] == prev then CacheFrom(img, i + 1, run + 1, cache, prev)
    else if run != 0 then CacheFrom(img, i, 0, cache, prev)
    else CacheFrom(img, i + 1, 0, Remember(cache, img[i]), img[i])
  }

  /** A slot the encoder's loop changes holds one of the pixels it looked at. */
  lemma {:induction false} CacheFromPixels(img: seq<Colour>, i: nat, run: nat, cache: Cache, prev: Colour)
    requires i <= |img| && run <= 62
    ensures var r := CacheFrom(img, i, run, cache, prev);
      forall k :: 0 <= k < 64 ==> r[k] == cache[k] || r[k] in img[i..]
    decreases |img| - i, run
  {
    if i == |img| {
    } else if run < 62 && img[i] == prev {
      CacheFromPixels(img, i + 1, run + 1, cache, prev);
      assert img[i + 1..] == img[i..][1..];
    } else if run != 0 {
      CacheFromPixels(img, i, 0, cache, prev);
    } else {
      CacheFromPixels(img, i + 1, 0, Remember(cache, img[i]), img[i]);
      assert img[i + 1..] == img[i..][1..] && img[i] == img[i..][0];
    }
  }

  /**
   * The encoder's cache after a whole image: every slot is still blank or
   * holds a pixel of the image that hashes to it.
   */
  function EncoderCache(img: seq<Colour>): (r: Cache)
    ensures forall k :: 0 <= k < 64 ==> r[k] == Blank || (Hash(r[k]) == k && r[k] in img)
  {
    CacheFromPixels(img, 0, 0, FreshCache(), Start);
    assert img[0..] == img;
    CacheFrom(img, 0, 0, FreshCache(), Start)
  }

  /** Pixels equal to the previous one leave the encoder's cache as it is. */
  lemma {:induction false} RepeatedPixelsKeepCache(img: seq<Colour>, i: nat, run: nat, cache: Cache, prev: Colour)
    requires i <= |img| && run <= 62
    requires forall k :: i <= k < |img| ==> img[k] == prev
    ensures CacheFrom(img, i, run, cache, prev) == cache
    decreases |img| - i, run
  {
    if i == |img| {
    } else if run < 62 {
      RepeatedPixelsKeepCache(img, i + 1, run + 1, cache, prev);
    } else {
      RepeatedPixelsKeepCache(img, i, 0, cache, prev);
    }
  }

  /** "qoif", big-endian width and height, 4 channels, colorspace 0. */
  function HeaderBytes(width: uint32, height: uint32): (s: seq<byte>)
    ensures |s| == 14
    ensures s[..4] == [113, 111, 105, 102] && s[12..] == [4, 0]
  {
    [113, 111, 105, 102] + BigEndianBytes(width) + BigEndianBytes(height) + [4, 0]
  }

  const EndMarker: seq<byte> := [0, 0, 0, 0, 0, 0, 0, 1]

  /** The whole output of the encoder for an RGBA buffer. */
  function EncodedBytes(width: uint32, height: uint32, bitmap: seq<byte>): (s: seq<byte>)
    requires |bitmap| % 4 == 0
    ensures |s| >= 22
    ensures s[..4] == [113, 111, 105, 102] && s[|s| - 8..] == EndMarker
  {
    var header := HeaderBytes(width, height);
    var body := ChunksBytes(EncodeImage(PixelsOf(bitmap)));
    assert (header + body + EndMarker)[..4] == header[..4];
    header + body + EndMarker
  }

  /**
   * The framing of the output: the magic, the dimensions as the decoder
   * reads them back, the channel and colorspace bytes 4 and 0, and the end
   * marker of seven zero bytes and a one.
   */
  lemma EncodedLayout(width: uint32, height: uint32, bitmap: seq<byte>)
    requires |bitmap| % 4 == 0
    ensures var out := EncodedBytes(width, height, bitmap);
      && |out| >= 22
      && out[..4] == [113, 111, 105, 102]
      && BigEndianValue(out[4..8]) == width
      && BigEndianValue(out[8..12]) == height
      && out[12] == 4 && out[13] == 0
      && out[|out| - 8..] == [0, 0, 0, 0, 0, 0, 0, 1]
      && out[14..] == ChunksBytes(EncodeImage(PixelsOf(bitmap))) + EndMarker
  {
    var out := EncodedBytes(width, height, bitmap);
    var h := HeaderBytes(width, height);
    var body := ChunksBytes(EncodeImage(PixelsOf(bitmap)));
    AppendAssoc(h, body, EndMarker);
    assert out[..14] == h;
    assert out[14..] == body + EndMarker;
    assert out[4..8] == BigEndianBytes(width);
    assert out[8..12] == BigEndianBytes(height);
    BigEndianRoundTrip(width);
    BigEndianRoundTrip(height);
  }

  /**
   * The run chunks for `n` consecutive copies of the previous pixel: runs of
   * 62 and then one run of what is left.
   */
  function RunChunks(n: nat): (cs: seq<Chunk>)
    ensures AllWellFormed(cs)
    ensures Spans(cs) == n
    ensures |cs| == (n + 61) / 62
    ensures forall k :: 0 <= k < |cs| ==> cs[k].Run?
  {
    if n == 0 then []
    else if n <= 62 then [Run(n)]
    else
      var rest := RunChunks(n - 62);
      assert ([Run(62)] + rest)[1..] == rest;
      [Run(62)] + rest
  }

  /**
   * Pixels that all equal the previous one become runs capped at 62 pixels:
   * nothing but run chunks, ceil(n / 62) of them, covering the n pixels.
   */
  lemma {:induction false} RepeatedPixelsBecomeRuns(img: seq<Colour>, i: nat, run: nat, cache: Cache, prev: Colour)
    requires i <= |img| && run <= 62
    requires forall k :: i <= k < |img| ==> img[k] == prev
    ensures EncodeFrom(img, i, run, cache, prev) == RunChunks(|img| - i + run)
    decreases |img| - i, run
  {
    if i == |img| {
    } else if run < 62 {
      RepeatedPixelsBecomeRuns(img, i + 1, run + 1, cache, prev);
    } else {
      RepeatedPixelsBecomeRuns(img, i, 0, cache, prev);
    }
  }

  /**
   * Four copies of (10, 20, 30, 255) are not one run of four: the first
   * differs from the initial opaque black, so it is an RGB chunk (its red
   * delta less the green one, -10, is out of LUMA range), and the other
   * three are a run of three.
   */
  lemma FourEqualPixels(img: seq<Colour>, q: Colour)
    requires q == Colour(10, 20, 30, 255) && img == [q, q, q, q]
    ensures EncodeImage(img) == [Rgb(10, 20, 30), Run(3)]
  {
    assert Hash(q) == 9;
    FirstOfFour(q, FreshCache()[9]);
    ChunkStep(img, 0, FreshCache(), Start);
    RepeatedPixelsBecomeRuns(img, 1, 0, Remember(FreshCache(), q), q);
    assert RunChunks(3) == [Run(3)];
  }

  lemma FirstOfFour(q: Colour, cached: Colour)
    requires q == Colour(10, 20, 30, 255) && cached == Blank
    ensures ChooseChunk(q, Start, cached) == Rgb(10, 20, 30)
  {
    var prev := Colour(0, 0, 0, 255);
    assert Start == prev;
    assert q != cached && q.a == prev.a;
    assert ToSByte(10) == 10 && ToSByte(20) == 20 && ToSByte(-10) == -10;
    assert !DiffFits(q, prev) && !LumaFits(q, prev);
    ChosenRgb(q, prev);
  }

  /**
   * The encoder's loop body for a pixel that does not extend a run: the
   * chunk bytes, chosen by the same tests in the same order as
   * `ChooseChunk`.
   */
  method EncodePixel(p: Colour, previous: Colour, arrcol: Colour) returns (bytes: seq<byte>)
    ensures bytes == ChunkBytes(ChooseChunk(p, previous, arrcol))
  {
    var index := Hash(p);
    if p.r == arrcol.r && p.g == arrcol.g && p.b == arrcol.b && p.a == arrcol.a {
      bytes := [IndexByte(index)];
    } else if p.a == previous.a {
      bytes := EncodeDelta(p, previous);
    } else {
      bytes := [OpRgba, p.r, p.g, p.b, p.a];
    }
  }

  /** The DIFF, LUMA or RGB branch of the encoder's loop body. */
  method EncodeDelta(p: Colour, previous: Colour) returns (bytes: seq<byte>)
    ensures bytes == ChunkBytes(DeltaChunk(p, previous))
  {
    var dr := ToSByte(p.r as int - previous.r as int);
    var dg := ToSByte(p.g as int - previous.g as int);
    var db := ToSByte(p.b as int - previous.b as int);
    if -2 <= dr <= 1 && -2 <= dg <= 1 && -2 <= db <= 1 {
      ChosenDiff(p, previous);
      bytes := [DiffByte(dr, dg, db)];
    } else {
      bytes := EncodeLumaOrRgb(p, previous);
    }
  }

  /** The part of `EncodeDelta` reached when the deltas do not fit a DIFF. */
  method EncodeLumaOrRgb(p: Colour, previous: Colour) returns (bytes: seq<byte>)
    requires !DiffFits(p, previous)
    ensures bytes == ChunkBytes(DeltaChunk(p, previous))
  {
    var diffGreen := ToSByte(p.g as int - previous.g as int);
    var drDg := ToSByte(p.r as int - previous.r as int - diffGreen);
    var dbDg := ToSByte(p.b as int - previous.b as int - diffGreen);
    if -32 <= diffGreen <= 31 && -8 <= drDg <= 7 && -8 <= dbDg <= 7 {
      ChosenLuma(p, previous);
      assert DeltaChunk(p, previous) == Luma(diffGreen, drDg, dbDg);
      bytes := [LumaFirstByte(diffGreen), LumaSecondByte(drDg, dbDg)];
    } else {
      ChosenRgb(p, previous);
      assert DeltaChunk(p, previous) == Rgb(p.r, p.g, p.b);
      bytes := [OpRgb, p.r, p.g, p.b];
    }
  }

  /**
   * The encoder: header, conversion of the RGBA buffer into pixels, the
   * chunk loop (`EncodeChunks`) and the end marker. The image library hands
   * over exactly `width * height * 4` bytes; the conversion loop indexes
   * them with the 32-bit `int` expression `4 * i + 3`, so there are at most
   * 2^31 of them.
   */
  method Encode(width: uint32, height: uint32, bitmap: seq<byte>) returns (byteData: seq<byte>)
    requires width * height * 4 <= IntLimit
    requires |bitmap| == width * height * 4
    ensures byteData == EncodedBytes(width, height, bitmap)
  {
    byteData := WriteHeader(width, height);
    var img := ToPixels(bitmap, width * height);
    var body, _ := EncodeChunks(img);
    byteData := byteData + body;

    ghost var beforeEnd := byteData;
    for j := 0 to 7
      invariant byteData == beforeEnd + seq(j, _ => 0)
    {
      byteData := byteData + [0];
    }
    byteData := byteData + [1];
  }

  /** The header the encoder writes first: the magic, the two dimensions, 4 channels and colour space 0. */
  method WriteHeader(width: uint32, height: uint32) returns (byteData: seq<byte>)
    ensures byteData == HeaderBytes(width, height)
  {
    byteData := [113, 111, 105, 102];
    byteData := byteData + [ToByte(width / 0x100_0000), ToByte(width / 0x1_0000), ToByte(width / 0x100), ToByte(width)];
    byteData := byteData + [ToByte(height / 0x100_0000), ToByte(height / 0x1_0000), ToByte(height / 0x100), ToByte(height)];
    byteData := byteData + [4, 0];
  }

  /** The conversion of the RGBA buffer into an array of pixels, four bytes each. */
  method ToPixels(bitmap: seq<byte>, n: nat) returns (img: array<Colour>)
    requires |bitmap| == 4 * n
    ensures fresh(img)
    ensures img[..] == PixelsOf(bitmap)
  {
    ghost var pixels := PixelsOf(bitmap);
    img := new Colour[n](_ => Blank);
    for i := 0 to n
      invariant forall k :: 0 <= k < i ==> img[k] == pixels[k]
    {
      img[i] := NewColour(bitmap[4 * i], bitmap[4 * i + 1], bitmap[4 * i + 2], bitmap[4 * i + 3]);
    }
  }

  /**
   * The encoder's chunk loop over the pixels, with its run counter, 64-slot
   * cache and previous pixel, and the flush of a run left at the end.
   */
  method EncodeChunks(img: array<Colour>) returns (byteData: seq<byte>, ghost cacheLeft: Cache)
    ensures byteData == ChunksBytes(EncodeImage(img[..]))
    ensures cacheLeft == EncoderCache(img[..])
  {
    ghost var pixels := img[..];
    var cache := new Colour[64](_ => Blank);
    assert cache[..] == FreshCache();
    var previous := NewColour(0, 0, 0);
    var curRunLen := 0;
    byteData := [];
    ghost var done: seq<Chunk> := [];
    ghost var whole := EncodeImage(pixels);
    ghost var todo := whole;
    ghost var left := EncoderCache(pixels);

    var i := 0;
    while i < img.Length
      invariant 0 <= i <= img.Length
      invariant Account(pixels, i, curRunLen, cache[..], previous, whole, done, byteData, todo, left)
      decreases img.Length - i, curRunLen
    {
      var p := img[i];
      assert p == pixels[i];
      ghost var before := cache[..];
      if curRunLen < 62 && p.r == previous.r && p.g == previous.g && p.b == previous.b && p.a == previous.a {
        assert p == previous;
        ExtendAccount(pixels, i, curRunLen, before, previous, whole, done, byteData, todo, left);
        todo := EncodeFrom(pixels, i + 1, curRunLen + 1, before, previous);
        curRunLen := curRunLen + 1;
        i := i + 1;
        continue;
      }

      if curRunLen != 0 {
        FlushAccount(pixels, i, curRunLen, before, previous, whole, done, byteData, todo, left);
        todo := EncodeFrom(pixels, i, 0, before, previous);
        byteData := byteData + [RunByte(curRunLen)];
        done := done + [Run(curRunLen)];
        curRunLen := 0;
        // the source's `i--` cancels the loop's `i++`: the pixel is looked at again
        continue;
      }

      var index := Hash(p);
      var bytes := EncodePixel(p, previous, cache[index]);
      ghost var after := Remember(before, p);
      ChunkAccount(pixels, i, before, previous, whole, done, byteData, todo, left);
      todo := EncodeFrom(pixels, i + 1, 0, after, p);
      byteData := byteData + bytes;
      done := done + [ChooseChunk(p, previous, before[index])];

      previous := p;
      cache[index] := p;
      assert cache[..] == after;
      assert Account(pixels, i + 1, 0, cache[..], previous, whole, done, byteData, todo, left);
      i := i + 1;
    }

    FinalAccount(pixels, curRunLen, cache[..], previous, whole, done, byteData, todo, left);
    if curRunLen != 0 {
      byteData := byteData + [RunByte(curRunLen)];
    }
    cacheLeft := cache[..];
  }
}
