/**
 * The decoder against the encoder: each chunk's bytes decode to the pixels
 * the chunk stands for, the two caches stay in step where it matters, and
 * decoding an encoder output gives back the image, with the six-bit LUMA
 * reading always and with the source's two-bit reading exactly when every
 * LUMA chunk of the encoding has the green delta -32.
 */
module RoundTrip {
  import opened Bits
  import opened Results
  import opened Colours
  import opened Chunks
  import opened Encoder
  import opened Decoder

  /** A chunk the given LUMA reading decodes correctly. */
  predicate Faithful(rule: LumaRule, c: Chunk) {
    rule == Corrected || !c.Luma? || c.dg == -32
  }

  // Two facts about remainders modulo 256 that the chunk inverses below rest
  // on: equal channel sums leave equal bytes, and two sums less than 256
  // apart that differ leave different bytes.

  /** Equal values have equal remainders; callers name the two channel sums. */
  lemma SameRemainder(x: int, y: int)
    requires x == y
    ensures x % 256 == y % 256
  {
  }

  /** Two values less than 256 apart have the same remainder only if equal. */
  lemma DistinctRemainders(x: int, y: int)
    requires x != y && -256 < x - y < 256
    ensures x % 256 != y % 256
  {
    var qx, qy := x / 256, y / 256;
    assert x - y == 256 * (qx - qy) + (x % 256 - y % 256);
  }

  lemma RunInverse(rule: LumaRule, len: int, data: seq<byte>, i: int, cache: Cache, prev: Colour)
    requires 1 <= len <= 62
    requires 0 <= i < |data| - 8 && data[i] == RunByte(len)
    ensures ParseChunk(rule, data, i, cache, prev) == Step(i + 1, prev, len)
  {
    var b1 := data[i];
    Quot64(b1, 3, len - 1);
    TagLayout();
  }

  lemma IndexInverse(rule: LumaRule, slot: int, data: seq<byte>, i: int, cache: Cache, prev: Colour)
    requires 0 <= slot < 64
    requires 0 <= i < |data| - 8 && data[i] == IndexByte(slot)
    ensures ParseChunk(rule, data, i, cache, prev) == Step(i + 1, cache[slot], 1)
  {
    TagLayout();
  }

  /** A first byte with the two-bit tag 0b01 is read as a DIFF chunk. */
  lemma ParsesAsDiff(rule: LumaRule, data: seq<byte>, i: int, cache: Cache, prev: Colour)
    requires 0 <= i < |data| - 8 && 0x40 <= data[i] < 0x80
    ensures ParseChunk(rule, data, i, cache, prev) == Step(i + 1, DiffColour(data[i], prev), 1)
  {
    TagLayout();
    assert LeadingBits(data[i]) == OpDiff / 64;
  }

  /** A first byte with the two-bit tag 0b10 is read as a LUMA chunk. */
  lemma ParsesAsLuma(rule: LumaRule, data: seq<byte>, i: int, cache: Cache, prev: Colour)
    requires 0 <= i < |data| - 8 && 0x80 <= data[i] < 0xC0
    ensures ParseChunk(rule, data, i, cache, prev) == Step(i + 2, LumaColour(rule, data[i], data[i + 1], prev), 1)
  {
    TagLayout();
    assert LeadingBits(data[i]) == OpLuma / 64;
  }

  /** The three 2-bit fields of a DIFF byte. */
  lemma DiffFields(b1: int, x: int, y: int, z: int)
    requires 0 <= x < 4 && 0 <= y < 4 && 0 <= z < 4 && b1 == 0x40 + x * 16 + y * 4 + z
    ensures (b1 / 16) % 4 == x && (b1 / 4) % 4 == y && b1 % 4 == z
  {
    Quot4(b1, 16 + x * 4 + y, z);
    Quot4(b1 / 4, 4 + x, y);
    Quot16(b1, 4 + x, y * 4 + z);
    Quot4(b1 / 16, 1, x);
  }

  /** The decoder's reading of a DIFF byte undoes the encoder's packing. */
  lemma DiffDecodes(b1: byte, dr: int, dg: int, db: int, cache: Cache, prev: Colour)
    requires WellFormed(Diff(dr, dg, db)) && b1 == 0x40 + (dr + 2) * 16 + (dg + 2) * 4 + (db + 2)
    ensures DiffColour(b1, prev) == ChunkPixels(Diff(dr, dg, db), cache, prev)[0]
  {
    DiffFields(b1, dr + 2, dg + 2, db + 2);
    DiffColourOf(b1, prev, dr + 2, dg + 2, db + 2);
  }

  /** `DiffColour` with the three two-bit fields of its byte given. */
  lemma DiffColourOf(b1: byte, prev: Colour, x: int, y: int, z: int)
    requires x == (b1 / 16) % 4 && y == (b1 / 4) % 4 && z == b1 % 4
    ensures DiffColour(b1, prev) == Colour((prev.r + x - 2) % 256, (prev.g + y - 2) % 256, (prev.b + z - 2) % 256, prev.a)
  {
  }

  lemma DiffInverse(rule: LumaRule, dr: int, dg: int, db: int, data: seq<byte>, i: int, cache: Cache, prev: Colour)
    requires WellFormed(Diff(dr, dg, db))
    requires 0 <= i < |data| - 8 && data[i] == DiffByte(dr, dg, db)
    ensures ParseChunk(rule, data, i, cache, prev) == Step(i + 1, ChunkPixels(Diff(dr, dg, db), cache, prev)[0], 1)
  {
    ParsesAsDiff(rule, data, i, cache, prev);
    DiffDecodes(data[i], dr, dg, db, cache, prev);
  }

  /** The decoder's reading of the two LUMA bytes undoes the encoder's packing when it reads the green delta right. */
  lemma LumaDecodes(rule: LumaRule, dg: int, drdg: int, dbdg: int, cache: Cache, prev: Colour)
    requires WellFormed(Luma(dg, drdg, dbdg)) && Faithful(rule, Luma(dg, drdg, dbdg))
    ensures LumaColour(rule, LumaFirstByte(dg), LumaSecondByte(drdg, dbdg), prev)
      == ChunkPixels(Luma(dg, drdg, dbdg), cache, prev)[0]
  {
    var b1, b2 := LumaFirstByte(dg), LumaSecondByte(drdg, dbdg);
    LumaGreenOf(b1, dg);
    Quot16(b2, drdg + 8, dbdg + 8);
    LumaColourValue(rule, b1, b2, prev, dg, drdg, dbdg);
    LumaMeaning(dg, drdg, dbdg, cache, prev);
  }

  lemma LumaInverse(rule: LumaRule, dg: int, drdg: int, dbdg: int, data: seq<byte>, i: int, cache: Cache, prev: Colour)
    requires WellFormed(Luma(dg, drdg, dbdg)) && Faithful(rule, Luma(dg, drdg, dbdg))
    requires 0 <= i < |data| - 8
    requires data[i] == LumaFirstByte(dg) && data[i + 1] == LumaSecondByte(drdg, dbdg)
    ensures ParseChunk(rule, data, i, cache, prev) == Step(i + 2, ChunkPixels(Luma(dg, drdg, dbdg), cache, prev)[0], 1)
  {
    ParsesAsLuma(rule, data, i, cache, prev);
    LumaDecodes(rule, dg, drdg, dbdg, cache, prev);
  }

  lemma LumaColourValue(rule: LumaRule, b1: byte, b2: byte, prev: Colour, dg: int, drdg: int, dbdg: int)
    requires LumaGreen(rule, b1) == dg && b2 / 16 == drdg + 8 && b2 % 16 == dbdg + 8
    ensures LumaColour(rule, b1, b2, prev)
      == Colour((prev.r + drdg + dg) % 256, (prev.g + dg) % 256, (prev.b + dbdg + dg) % 256, prev.a)
  {
    SameRemainder(prev.r + b2 / 16 - 8 + dg, prev.r + drdg + dg);
    SameRemainder(prev.b + b2 % 16 - 8 + dg, prev.b + dbdg + dg);
  }

  /**
   * Each chunk's bytes decode to the chunk's meaning: the next chunk starts
   * right after them, and the pixel and count are those the chunk stands
   * for.
   */
  lemma ChunkInverse(rule: LumaRule, c: Chunk, data: seq<byte>, i: int, cache: Cache, prev: Colour)
    requires WellFormed(c) && Faithful(rule, c)
    requires 0 <= i < |data| - 8 && i + |ChunkBytes(c)| <= |data|
    requires data[i..i + |ChunkBytes(c)|] == ChunkBytes(c)
    ensures var px := ChunkPixels(c, cache, prev);
      ParseChunk(rule, data, i, cache, prev) == Step(i + |ChunkBytes(c)|, px[|px| - 1], |px|)
  {
    var bs := ChunkBytes(c);
    ByteAt(data, i, bs, 0);
    match c
    case Run(len) =>
      RunInverse(rule, len, data, i, cache, prev);
    case Index(slot) =>
      IndexInverse(rule, slot, data, i, cache, prev);
    case Diff(dr, dg, db) =>
      DiffInverse(rule, dr, dg, db, data, i, cache, prev);
    case Luma(dg, drdg, dbdg) =>
      ByteAt(data, i, bs, 1);
      LumaInverse(rule, dg, drdg, dbdg, data, i, cache, prev);
    case Rgb(r, g, b) =>
      ByteAt(data, i, bs, 1);
      ByteAt(data, i, bs, 2);
      ByteAt(data, i, bs, 3);
      RgbInverse(rule, r, g, b, data, i, cache, prev);
    case Rgba(r, g, b, a) =>
      ByteAt(data, i, bs, 1);
      ByteAt(data, i, bs, 2);
      ByteAt(data, i, bs, 3);
      ByteAt(data, i, bs, 4);
      RgbaInverse(rule, r, g, b, a, data, i, cache, prev);
  }

  /** Byte `k` of a slice that equals `bs`. */
  lemma ByteAt(data: seq<byte>, i: int, bs: seq<byte>, k: int)
    requires 0 <= i && i + |bs| <= |data| && data[i..i + |bs|] == bs && 0 <= k < |bs|
    ensures data[i + k] == bs[k]
  {
    assert data[i..i + |bs|][k] == data[i + k];
  }

  lemma RgbInverse(rule: LumaRule, r: byte, g: byte, b: byte, data: seq<byte>, i: int, cache: Cache, prev: Colour)
    requires 0 <= i < |data| - 8 && data[i] == OpRgb && data[i + 1] == r && data[i + 2] == g && data[i + 3] == b
    ensures ParseChunk(rule, data, i, cache, prev) == Step(i + 4, Colour(r, g, b, prev.a), 1)
  {
  }

  lemma RgbaInverse(rule: LumaRule, r: byte, g: byte, b: byte, a: byte, data: seq<byte>, i: int, cache: Cache, prev: Colour)
    requires 0 <= i < |data| - 8 && data[i] == OpRgba
    requires data[i + 1] == r && data[i + 2] == g && data[i + 3] == b && data[i + 4] == a
    ensures ParseChunk(rule, data, i, cache, prev) == Step(i + 5, Colour(r, g, b, a), 1)
  {
  }

  predicate AllFaithful(rule: LumaRule, cs: seq<Chunk>) {
    forall k :: 0 <= k < |cs| ==> Faithful(rule, cs[k])
  }

  /** The decoder's state after the pixels of one chunk are written. */
  function After(c: Chunk, st: DecodeState): (r: DecodeState)
    requires WellFormed(c) && st.imgIndex + Span(c) <= |st.img|
    ensures |r.img| == |st.img| && r.imgIndex == st.imgIndex + Span(c)
  {
    var px := ChunkPixels(c, st.cache, st.prev);
    var last := px[|px| - 1];
    DecodeState(Overwrite(st.img, st.imgIndex, px), st.imgIndex + |px|, Remember(st.cache, last), last)
  }

  /** The decoder's state after the pixels of a chunk sequence are written. */
  function Replayed(cs: seq<Chunk>, st: DecodeState): (r: DecodeState)
    requires AllWellFormed(cs) && st.imgIndex + Spans(cs) <= |st.img|
    ensures |r.img| == |st.img| && r.imgIndex == st.imgIndex + Spans(cs)
    decreases |cs|
  {
    if cs == [] then st
    else
      assert AllWellFormed(cs[1..]) by { assert forall k :: 0 <= k < |cs| - 1 ==> cs[1..][k] == cs[k + 1]; }
      Replayed(cs[1..], After(cs[0], st))
  }

  /** Replaying chunks writes the pixels they stand for from `imgIndex` on. */
  lemma {:induction false} ReplayedImage(cs: seq<Chunk>, st: DecodeState)
    requires AllWellFormed(cs) && st.imgIndex + Spans(cs) <= |st.img|
    ensures Replayed(cs, st).img == Overwrite(st.img, st.imgIndex, Play(cs, st.cache, st.prev))
    decreases |cs|
  {
    if cs == [] {
      OverwriteNothing(st.img, st.imgIndex);
    } else {
      TailWellFormed(cs);
      ReplayedImage(cs[1..], After(cs[0], st));
      ReplayedFirst(cs, st, Replayed(cs[1..], After(cs[0], st)).img);
    }
  }

  /** Overwriting with no pixels changes nothing. */
  lemma OverwriteNothing(img: seq<Colour>, k: nat)
    requires k <= |img|
    ensures Overwrite(img, k, []) == img
  {
  }

  /** The chunks after the first of a well-formed sequence are well formed. */
  lemma TailWellFormed(cs: seq<Chunk>)
    requires AllWellFormed(cs) && cs != []
    ensures AllWellFormed(cs[1..]) && Spans(cs) == Span(cs[0]) + Spans(cs[1..])
  {
    var rest := cs[1..];
    assert forall k :: 0 <= k < |rest| ==> rest[k] == cs[k + 1];
  }

  /** The step of `ReplayedImage`: the first chunk's pixels, then the rest's. */
  lemma ReplayedFirst(cs: seq<Chunk>, st: DecodeState, img: seq<Colour>)
    requires AllWellFormed(cs) && cs != [] && st.imgIndex + Spans(cs) <= |st.img|
    requires AllWellFormed(cs[1..])
    requires var st' := After(cs[0], st);
      st'.imgIndex + Spans(cs[1..]) <= |st'.img|
      && img == Overwrite(st'.img, st'.imgIndex, Play(cs[1..], st'.cache, st'.prev))
    ensures img == Overwrite(st.img, st.imgIndex, Play(cs, st.cache, st.prev))
  {
    var st' := After(cs[0], st);
    var px := ChunkPixels(cs[0], st.cache, st.prev);
    AfterPlay(cs, st);
    OverwriteSplit(st.img, st.imgIndex, px, Play(cs[1..], st'.cache, st'.prev), Play(cs, st.cache, st.prev), st'.img, img);
  }

  /** What `After` does to the image and to `Play`. */
  lemma AfterPlay(cs: seq<Chunk>, st: DecodeState)
    requires AllWellFormed(cs) && cs != [] && AllWellFormed(cs[1..]) && st.imgIndex + Span(cs[0]) <= |st.img|
    ensures var st', px := After(cs[0], st), ChunkPixels(cs[0], st.cache, st.prev);
      && Play(cs, st.cache, st.prev) == px + Play(cs[1..], st'.cache, st'.prev)
      && st'.img == Overwrite(st.img, st.imgIndex, px) && st'.imgIndex == st.imgIndex + |px|
  {
    PlayUnfold(cs, st.cache, st.prev);
  }

  /** `OverwriteAppend` with every part named. */
  lemma OverwriteSplit(img0: seq<Colour>, k: nat, px: seq<Colour>, later: seq<Colour>, whole: seq<Colour>, mid: seq<Colour>, img: seq<Colour>)
    requires whole == px + later && k + |whole| <= |img0|
    requires mid == Overwrite(img0, k, px) && img == Overwrite(mid, k + |px|, later)
    ensures img == Overwrite(img0, k, whole)
  {
    OverwriteAppend(img0, k, px, later);
  }

  /** `Play` of a non-empty sequence, one step. */
  lemma PlayUnfold(cs: seq<Chunk>, cache: Cache, prev: Colour)
    requires AllWellFormed(cs) && cs != [] && AllWellFormed(cs[1..])
    ensures var px := ChunkPixels(cs[0], cache, prev);
      Play(cs, cache, prev) == px + Play(cs[1..], Remember(cache, px[|px| - 1]), px[|px| - 1])
  {
  }

  /**
   * The byte blocks lie one after another from byte `i`, and the last
   * eight bytes follow the last block.
   */
  predicate Blocks(bss: seq<seq<byte>>, data: seq<byte>, i: int)
    decreases |bss|
  {
    if bss == [] then i == |data| - 8
    else
      && 0 <= i && i + |bss[0]| <= |data| - 8 && data[i..i + |bss[0]|] == bss[0]
      && Blocks(bss[1..], data, i + |bss[0]|)
  }

  /** What `Blocks` says of a non-empty sequence of blocks. */
  lemma BlocksFirst(bss: seq<seq<byte>>, data: seq<byte>, i: int, b: seq<byte>, rest: seq<seq<byte>>, j: int)
    requires bss != [] && b == bss[0] && rest == bss[1..] && j == i + |b| && Blocks(bss, data, i)
    ensures 0 <= i && j <= |data| - 8 && data[i..j] == b && Blocks(rest, data, j)
  {
  }

  /** A block at `i` followed by the remaining blocks. */
  lemma BlocksCons(bss: seq<seq<byte>>, data: seq<byte>, i: int, b: seq<byte>, rest: seq<seq<byte>>, j: int)
    requires bss != [] && b == bss[0] && rest == bss[1..] && 0 <= i && j == i + |b| && j <= |data| - 8
    requires data[i..j] == b && Blocks(rest, data, j)
    ensures Blocks(bss, data, i)
  {
  }

  /** The bytes of each chunk, as separate blocks. */
  function BlocksOf(cs: seq<Chunk>): (bss: seq<seq<byte>>)
    requires AllWellFormed(cs)
    ensures |bss| == |cs| && forall k :: 0 <= k < |cs| ==> bss[k] == ChunkBytes(cs[k])
  {
    seq(|cs|, k requires 0 <= k < |cs| => ChunkBytes(cs[k]))
  }

  /** The blocks of a non-empty chunk sequence: its first chunk's, then the rest's. */
  lemma BlocksOfTail(cs: seq<Chunk>, bss: seq<seq<byte>>, rest: seq<seq<byte>>)
    requires AllWellFormed(cs) && cs != [] && AllWellFormed(cs[1..])
    requires bss == BlocksOf(cs) && rest == BlocksOf(cs[1..])
    ensures bss[0] == ChunkBytes(cs[0]) && bss[1..] == rest
  {
    assert forall k :: 0 <= k < |rest| ==> bss[1..][k] == bss[k + 1];
  }

  /** The chunks' bytes lie one after another from byte `i`, up to the last eight bytes. */
  predicate LaidOut(cs: seq<Chunk>, data: seq<byte>, i: int)
    requires AllWellFormed(cs)
  {
    Blocks(BlocksOf(cs), data, i)
  }

  /** What `LaidOut` says of a non-empty sequence. */
  lemma LaidOutFirst(cs: seq<Chunk>, data: seq<byte>, i: int, bs: seq<byte>, j: int)
    requires AllWellFormed(cs) && cs != [] && AllWellFormed(cs[1..]) && LaidOut(cs, data, i)
    requires bs == ChunkBytes(cs[0]) && j == i + |bs|
    ensures 0 <= i && j <= |data| - 8
    ensures data[i..j] == bs
    ensures LaidOut(cs[1..], data, j)
  {
    var bss, rest := BlocksOf(cs), BlocksOf(cs[1..]);
    BlocksOfTail(cs, bss, rest);
    BlocksFirst(bss, data, i, bs, rest, j);
  }

  /** The two parts of a slice that is a concatenation. */
  lemma SliceParts<T>(data: seq<T>, i: int, whole: seq<T>, x: seq<T>, y: seq<T>)
    requires whole == x + y && 0 <= i && i + |whole| <= |data| && data[i..i + |whole|] == whole
    ensures data[i..i + |x|] == x && data[i + |x|..i + |x| + |y|] == y
  {
    assert forall j :: 0 <= j < |x| ==> data[i + j] == whole[j] == x[j];
    assert forall j :: 0 <= j < |y| ==> data[i + |x| + j] == whole[|x| + j] == y[j];
  }

  /** The bytes of a chunk sequence: its first chunk's, then the rest's. */
  lemma ChunksBytesFirst(cs: seq<Chunk>)
    requires AllWellFormed(cs) && cs != [] && AllWellFormed(cs[1..])
    ensures ChunksBytes(cs) == ChunkBytes(cs[0]) + ChunksBytes(cs[1..])
  {
  }

  /** Chunk bytes written from byte `i` up to the last eight bytes are laid out chunk by chunk. */
  lemma LaidOutFrom(cs: seq<Chunk>, data: seq<byte>, i: int, whole: seq<byte>)
    requires AllWellFormed(cs) && whole == ChunksBytes(cs)
    requires 0 <= i && i + |whole| == |data| - 8 && data[i..i + |whole|] == whole
    ensures LaidOut(cs, data, i)
  {
    ChunksBytesConcat(cs);
    BlocksFrom(BlocksOf(cs), data, i, whole);
  }

  /** The blocks one after the other. */
  function Concat(bss: seq<seq<byte>>): (s: seq<byte>)
    decreases |bss|
  {
    if bss == [] then [] else bss[0] + Concat(bss[1..])
  }

  /** The concatenation of blocks written from byte `i` up to the last eight bytes lays them out. */
  lemma {:induction false} BlocksFrom(bss: seq<seq<byte>>, data: seq<byte>, i: int, whole: seq<byte>)
    requires whole == Concat(bss)
    requires 0 <= i && i + |whole| == |data| - 8 && data[i..i + |whole|] == whole
    ensures Blocks(bss, data, i)
    decreases |bss|
  {
    if bss != [] {
      var b, rest := bss[0], bss[1..];
      var y := Concat(rest);
      SliceParts(data, i, whole, b, y);
      BlocksFrom(rest, data, i + |b|, y);
      BlocksCons(bss, data, i, b, rest, i + |b|);
    }
  }

  /** The bytes of a chunk sequence are its blocks one after the other. */
  lemma {:induction false} ChunksBytesConcat(cs: seq<Chunk>)
    requires AllWellFormed(cs)
    ensures ChunksBytes(cs) == Concat(BlocksOf(cs))
    decreases |cs|
  {
    if cs != [] {
      TailWellFormed(cs);
      ChunksBytesConcat(cs[1..]);
      BlocksOfTail(cs, BlocksOf(cs), BlocksOf(cs[1..]));
      ChunksBytesFirst(cs);
    }
  }

  /** At the last eight bytes the decoder stops with the image it holds. */
  lemma AtTheEnd(rule: LumaRule, data: seq<byte>, j: int, st: DecodeState)
    requires 0 <= j && j == |data| - 8
    ensures DecodeFrom(rule, data, j, st) == Ok(st.img)
  {
  }

  /** The chunks after the first of a faithful sequence are faithful. */
  lemma TailFaithful(rule: LumaRule, cs: seq<Chunk>)
    requires AllFaithful(rule, cs) && cs != []
    ensures Faithful(rule, cs[0]) && AllFaithful(rule, cs[1..])
  {
    var rest := cs[1..];
    assert forall k :: 0 <= k < |rest| ==> rest[k] == cs[k + 1];
  }

  /** Replaying a non-empty sequence, one step. */
  lemma ReplayedUnfold(cs: seq<Chunk>, st: DecodeState)
    requires AllWellFormed(cs) && cs != [] && st.imgIndex + Spans(cs) <= |st.img| && AllWellFormed(cs[1..])
    ensures st.imgIndex + Span(cs[0]) <= |st.img|
    ensures After(cs[0], st).imgIndex + Spans(cs[1..]) <= |st.img|
    ensures Replayed(cs, st) == Replayed(cs[1..], After(cs[0], st))
  {
  }

  /**
   * Chunks laid out from byte `i` decode to the state that replaying them
   * gives, when their pixels fit.
   */
  lemma {:induction false} ChunksDecode(rule: LumaRule, cs: seq<Chunk>, data: seq<byte>, i: int, st: DecodeState)
    requires AllWellFormed(cs) && AllFaithful(rule, cs) && 0 <= i && LaidOut(cs, data, i)
    requires st.imgIndex + Spans(cs) <= |st.img|
    ensures DecodeFrom(rule, data, i, st) == Ok(Replayed(cs, st).img)
    decreases |cs|
  {
    if cs == [] {
      AtTheEnd(rule, data, i, st);
    } else {
      TailWellFormed(cs);
      TailFaithful(rule, cs);
      ReplayedUnfold(cs, st);
      var c := cs[0];
      var bs := ChunkBytes(c);
      var j, st' := i + |bs|, After(c, st);
      LaidOutFirst(cs, data, i, bs, j);
      DecodeChunkAt(rule, c, data, i, bs, j, st, st');
      ChunksDecode(rule, cs[1..], data, j, st');
    }
  }

  /**
   * The encoder's chunk bytes from byte `i` up to the last eight bytes
   * decode to the pixels they stand for, written from `imgIndex` on, when
   * they fit.
   */
  lemma ChunksInverse(rule: LumaRule, cs: seq<Chunk>, data: seq<byte>, i: int, st: DecodeState)
    requires AllWellFormed(cs) && AllFaithful(rule, cs)
    requires 0 <= i && i + |ChunksBytes(cs)| == |data| - 8
    requires data[i..i + |ChunksBytes(cs)|] == ChunksBytes(cs)
    requires st.imgIndex + Spans(cs) <= |st.img|
    ensures DecodeFrom(rule, data, i, st) == Ok(Overwrite(st.img, st.imgIndex, Play(cs, st.cache, st.prev)))
  {
    LaidOutFrom(cs, data, i, ChunksBytes(cs));
    ChunksDecode(rule, cs, data, i, st);
    ReplayedImage(cs, st);
  }

  /** One chunk's bytes at `i` move the decoder to the byte after them, with the chunk's pixels written. */
  lemma DecodeChunkAt(rule: LumaRule, c: Chunk, data: seq<byte>, i: int, bs: seq<byte>, j: int, st: DecodeState, st': DecodeState)
    requires WellFormed(c) && Faithful(rule, c) && bs == ChunkBytes(c)
    requires 0 <= i < |data| - 8 && j == i + |bs| && j <= |data| && data[i..j] == bs
    requires st.imgIndex + Span(c) <= |st.img| && st' == After(c, st)
    ensures DecodeFrom(rule, data, i, st) == DecodeFrom(rule, data, j, st')
  {
    var s := ParseChunk(rule, data, i, st.cache, st.prev);
    ChunkInverse(rule, c, data, i, st.cache, st.prev);
    PlaceChunk(c, s, st);
    DecodeStepTo(rule, data, i, st, s, j, st');
  }

  /** A chunk parsed at `i` that places into `st'` moves the decoder to its end with `st'`. */
  lemma DecodeStepTo(rule: LumaRule, data: seq<byte>, i: int, st: DecodeState, s: Step, j: int, st': DecodeState)
    requires 0 <= i < |data| - 8 && s == ParseChunk(rule, data, i, st.cache, st.prev)
    requires s.next == j && Place(st, s) == Ok(st')
    ensures DecodeFrom(rule, data, i, st) == DecodeFrom(rule, data, j, st')
  {
    DecodeFromStep(rule, data, i, st);
  }

  /** Placing a step that repeats a chunk's last pixel as often as the chunk spans writes the chunk. */
  lemma PlaceChunk(c: Chunk, s: Step, st: DecodeState)
    requires WellFormed(c) && st.imgIndex + Span(c) <= |st.img|
    requires var px := ChunkPixels(c, st.cache, st.prev); s.pixel == px[|px| - 1] && s.count == |px|
    ensures Place(st, s) == Ok(After(c, st))
  {
    ChunkPixelsRepeat(c, st.cache, st.prev);
  }

  /** The encoder's and the decoder's caches agree on every slot the encoder can match. */
  predicate Agree(enc: Cache, dec: Cache) {
    forall k :: 0 <= k < 64 && Hash(enc[k]) == k ==> dec[k] == enc[k]
  }

  /**
   * The encoder's slot for the previous pixel holds that pixel, unless it
   * holds a colour that belongs to another slot (the blank colour before
   * the first non-run chunk).
   */
  predicate Owns(enc: Cache, prev: Colour) {
    Hash(enc[Hash(prev)]) == Hash(prev) ==> enc[Hash(prev)] == prev
  }

  /**
   * The decoder remembers the previous pixel after a run and the encoder
   * does not: after a leading run of the initial colour, which the encoder
   * emits as run chunks only, the decoder's cache differs from the
   * encoder's untouched one in slot 53, yet they agree on every slot the
   * encoder can match.
   */
  lemma CacheAsymmetry(img: seq<Colour>)
    requires forall k :: 0 <= k < |img| ==> img[k] == Start
    ensures forall c :: c in EncodeImage(img) ==> c.Run?
    ensures EncoderCache(img) == FreshCache()
    ensures img != [] ==> Replayed(EncodeImage(img), InitialState(|img|)).cache == Remember(FreshCache(), Start)
    ensures img != [] ==> Replayed(EncodeImage(img), InitialState(|img|)).cache[53] == Start != EncoderCache(img)[53]
    ensures Agree(EncoderCache(img), Replayed(EncodeImage(img), InitialState(|img|)).cache)
  {
    HashOfInitialColours();
    RepeatedPixelsBecomeRuns(img, 0, 0, FreshCache(), Start);
    RepeatedPixelsKeepCache(img, 0, 0, FreshCache(), Start);
    if img != [] {
      RunsRemember(EncodeImage(img), InitialState(|img|));
    }
  }

  /** Replaying run chunks only remembers the previous pixel, and keeps it as the previous pixel. */
  lemma {:induction false} RunsRemember(cs: seq<Chunk>, st: DecodeState)
    requires AllWellFormed(cs) && st.imgIndex + Spans(cs) <= |st.img|
    requires cs != [] && forall k :: 0 <= k < |cs| ==> cs[k].Run?
    ensures Replayed(cs, st).cache == Remember(st.cache, st.prev)
    ensures Replayed(cs, st).prev == st.prev
    decreases |cs|
  {
    TailWellFormed(cs);
    var next := After(cs[0], st);
    assert next.prev == st.prev && next.cache == Remember(st.cache, st.prev);
    if cs[1..] != [] {
      RunsRemember(cs[1..], next);
      assert Remember(next.cache, st.prev) == next.cache;
    }
  }

  /** The chunk chosen for a pixel stands for that pixel in the decoder's cache too. */
  lemma ChosenPixelsAgree(p: Colour, prev: Colour, enc: Cache, dec: Cache)
    requires Agree(enc, dec)
    ensures ChunkPixels(ChooseChunk(p, prev, enc[Hash(p)]), dec, prev) == [p]
  {
    var c := ChooseChunk(p, prev, enc[Hash(p)]);
    ChooseChunkKind(p, prev, enc[Hash(p)]);
    ChooseChunkPixels(p, prev, enc);
    if c.Index? {
      assert enc[Hash(p)] == p;
    } else {
      assert ChunkPixels(c, dec, prev) == ChunkPixels(c, enc, prev);
    }
  }

  /** Playing a run chunk and then `rest`: the run's copies, then `rest` from the run's pixel remembered. */
  lemma PlayRun(run: int, rest: seq<Chunk>, dec: Cache, prev: Colour, tail: seq<Colour>)
    requires 0 < run <= 62 && AllWellFormed(rest) && Play(rest, Remember(dec, prev), prev) == tail
    ensures Play([Run(run)] + rest, dec, prev) == seq(run, _ => prev) + tail
  {
    assert ([Run(run)] + rest)[0] == Run(run) && ([Run(run)] + rest)[1..] == rest;
  }

  /** Playing a one-pixel chunk that stands for `p` and then `rest`. */
  lemma PlaySingle(c: Chunk, rest: seq<Chunk>, dec: Cache, prev: Colour, p: Colour, tail: seq<Colour>)
    requires WellFormed(c) && AllWellFormed(rest) && ChunkPixels(c, dec, prev) == [p]
    requires Play(rest, Remember(dec, p), p) == tail
    ensures Play([c] + rest, dec, prev) == [p] + tail
  {
    assert ([c] + rest)[0] == c && ([c] + rest)[1..] == rest;
  }

  /** A suffix is its first element followed by the next suffix. */
  lemma Uncons<T>(s: seq<T>, i: int)
    requires 0 <= i < |s|
    ensures s[i..] == [s[i]] + s[i + 1..]
  {
  }

  /** A pixel equal to `prev` moves from the remaining pixels into the pending copies. */
  lemma ShiftIntoRun(img: seq<Colour>, i: int, run: nat, prev: Colour)
    requires 0 <= i < |img| && img[i] == prev
    ensures seq(run + 1, _ => prev) + img[i + 1..] == seq(run, _ => prev) + img[i..]
  {
    assert seq(run + 1, _ => prev) == seq(run, _ => prev) + [img[i]];
    Uncons(img, i);
  }

  /** A run leaves the encoder's cache alone and makes the decoder remember the previous pixel. */
  lemma AgreeAfterRun(enc: Cache, dec: Cache, prev: Colour)
    requires Agree(enc, dec) && Owns(enc, prev)
    ensures Agree(enc, Remember(dec, prev))
  {
  }

  /** A non-run chunk makes both remember its pixel. */
  lemma AgreeAfterChunk(enc: Cache, dec: Cache, p: Colour)
    requires Agree(enc, dec)
    ensures Agree(Remember(enc, p), Remember(dec, p)) && Owns(Remember(enc, p), p)
  {
  }

  /** Lockstep at the end of the image: the pending run is flushed. */
  lemma LockstepEnd(img: seq<Colour>, run: nat, enc: Cache, dec: Cache, prev: Colour)
    requires run <= 62
    ensures Play(EncodeFrom(img, |img|, run, enc, prev), dec, prev) == seq(run, _ => prev) + img[|img|..]
  {
    if run != 0 {
      assert EncodeFrom(img, |img|, run, enc, prev) == [Run(run)] + [];
      PlayRun(run, [], dec, prev, []);
    }
  }

  /** Lockstep when the pixel extends the pending run. */
  lemma {:induction false} LockstepExtend(img: seq<Colour>, i: nat, run: nat, enc: Cache, dec: Cache, prev: Colour)
    requires i < |img| && run < 62 && img[i] == prev
    requires Agree(enc, dec) && Owns(enc, prev)
    ensures Play(EncodeFrom(img, i, run, enc, prev), dec, prev) == seq(run, _ => prev) + img[i..]
    decreases |img| - i, run, 0
  {
    Lockstep(img, i + 1, run + 1, enc, dec, prev);
    ExtendStep(img, i, run, enc, prev);
    ShiftIntoRun(img, i, run, prev);
  }

  /** Lockstep when the pixel ends the pending run: the decoder remembers the run's pixel. */
  lemma {:induction false} LockstepFlush(img: seq<Colour>, i: nat, run: nat, enc: Cache, dec: Cache, prev: Colour)
    requires i < |img| && 0 < run <= 62 && !(run < 62 && img[i] == prev)
    requires Agree(enc, dec) && Owns(enc, prev)
    ensures Play(EncodeFrom(img, i, run, enc, prev), dec, prev) == seq(run, _ => prev) + img[i..]
    decreases |img| - i, run, 0
  {
    AgreeAfterRun(enc, dec, prev);
    Lockstep(img, i, 0, enc, Remember(dec, prev), prev);
    FlushStep(img, i, run, enc, prev);
    PlayRun(run, EncodeFrom(img, i, 0, enc, prev), dec, prev, img[i..]);
  }

  /** Lockstep when the pixel gets a chunk of its own. */
  lemma {:induction false} LockstepChunk(img: seq<Colour>, i: nat, enc: Cache, dec: Cache, prev: Colour)
    requires i < |img| && img[i] != prev && Agree(enc, dec)
    ensures Play(EncodeFrom(img, i, 0, enc, prev), dec, prev) == img[i..]
    decreases |img| - i, 0, 0
  {
    var p := img[i];
    AgreeAfterChunk(enc, dec, p);
    Lockstep(img, i + 1, 0, Remember(enc, p), Remember(dec, p), p);
    var c := ChooseChunk(p, prev, enc[Hash(p)]);
    ChunkStep(img, i, enc, prev);
    ChosenPixelsAgree(p, prev, enc, dec);
    PlaySingle(c, EncodeFrom(img, i + 1, 0, Remember(enc, p), p), dec, prev, p, img[i + 1..]);
    Uncons(img, i);
  }

  /**
   * Lockstep: from any point of the encoder's loop, with `run` copies of
   * `prev` pending, a decoder whose cache agrees with the encoder's
   * reproduces the pending copies and the remaining pixels.
   */
  lemma {:induction false} Lockstep(img: seq<Colour>, i: nat, run: nat, enc: Cache, dec: Cache, prev: Colour)
    requires i <= |img| && run <= 62
    requires Agree(enc, dec) && Owns(enc, prev)
    ensures Play(EncodeFrom(img, i, run, enc, prev), dec, prev) == seq(run, _ => prev) + img[i..]
    decreases |img| - i, run, 1
  {
    if i == |img| {
      LockstepEnd(img, run, enc, dec, prev);
    } else if run < 62 && img[i] == prev {
      LockstepExtend(img, i, run, enc, dec, prev);
    } else if run != 0 {
      LockstepFlush(img, i, run, enc, dec, prev);
    } else {
      LockstepChunk(img, i, enc, dec, prev);
    }
  }

  /** Before the first pixel both caches are blank; the blank colour belongs to slot 0, not to the initial pixel's slot 53. */
  lemma InitialCaches()
    ensures Agree(FreshCache(), FreshCache()) && Owns(FreshCache(), Start)
  {
    HashOfInitialColours();
  }

  /** Playing the encoder's chunks from the initial state gives back the pixels. */
  lemma PlayEncodeImage(img: seq<Colour>)
    ensures Play(EncodeImage(img), FreshCache(), Start) == img
  {
    InitialCaches();
    Lockstep(img, 0, 0, FreshCache(), FreshCache(), Start);
    assert seq(0, _ => Start) + img[0..] == img;
  }

  /** The chunk bytes of an encoding, followed by the end marker, decode to the encoded pixels. */
  lemma BodyDecodes(rule: LumaRule, px: seq<Colour>)
    requires AllFaithful(rule, EncodeImage(px))
    ensures DecodeFrom(rule, ChunksBytes(EncodeImage(px)) + EndMarker, 0, InitialState(|px|)) == Ok(px)
  {
    var cs := EncodeImage(px);
    var body := ChunksBytes(cs);
    var st := InitialState(|px|);
    assert (body + EndMarker)[0..|body|] == body;
    PlayEncodeImage(px);
    ChunksInverse(rule, cs, body + EndMarker, 0, st);
    assert Overwrite(st.img, 0, px) == px;
  }

  /**
   * What the decoder makes of the framing the encoder writes: it accepts
   * the magic, reads the dimensions back, and decodes the chunk bytes with
   * the end marker into a blank image of `width * height` pixels.
   */
  lemma FramingDecodes(rule: LumaRule, width: uint32, height: uint32, bitmap: seq<byte>)
    requires width * height * 4 <= IntLimit && |bitmap| == width * height * 4
    ensures |bitmap| % 4 == 0 && |PixelsOf(bitmap)| == width * height
    ensures var body := ChunksBytes(EncodeImage(PixelsOf(bitmap))) + EndMarker;
      var r := DecodeFrom(rule, body, 0, InitialState(width * height));
      DecodeFile(rule, EncodedBytes(width, height, bitmap))
        == if r.Err? then Err(r.error) else Ok(Image(width, height, Flatten(r.value)))
  {
    assert |bitmap| == (width * height) * 4;
    var out := EncodedBytes(width, height, bitmap);
    EncodedLayout(width, height, bitmap);
    MagicIsQoif();
    NoWrap(width * height);
  }

  /** A pixel count whose RGBA size fits in an `int` is unchanged by the `uint` wrap-around. */
  lemma NoWrap(n: int)
    requires 0 <= n && n * 4 <= IntLimit
    ensures n % TwoTo32 == n
  {
  }

  /**
   * Decoding an encoder output whose chunks the given LUMA reading decodes
   * correctly gives back the dimensions and the RGBA buffer.
   */
  lemma RoundTripUnder(rule: LumaRule, width: uint32, height: uint32, bitmap: seq<byte>)
    requires width * height * 4 <= IntLimit && |bitmap| == width * height * 4
    requires AllFaithful(rule, EncodeImage(PixelsOf(bitmap)))
    ensures DecodeFile(rule, EncodedBytes(width, height, bitmap)) == Ok(Image(width, height, bitmap))
  {
    FramingDecodes(rule, width, height, bitmap);
    BodyDecodes(rule, PixelsOf(bitmap));
    FlattenPixelsOf(bitmap);
  }

  /** With the six-bit LUMA reading, every encoder output decodes to its image. */
  lemma RoundTrip(width: uint32, height: uint32, bitmap: seq<byte>)
    requires width * height * 4 <= IntLimit && |bitmap| == width * height * 4
    ensures DecodeFile(Corrected, EncodedBytes(width, height, bitmap)) == Ok(Image(width, height, bitmap))
  {
    RoundTripUnder(Corrected, width, height, bitmap);
  }

  /**
   * With the source's two-bit LUMA reading, an encoder output decodes to its
   * image when the green delta of each of its LUMA chunks is -32.
   */
  lemma RoundTripAsWritten(width: uint32, height: uint32, bitmap: seq<byte>)
    requires width * height * 4 <= IntLimit && |bitmap| == width * height * 4
    requires forall c :: c in EncodeImage(PixelsOf(bitmap)) && c.Luma? ==> c.dg == -32
    ensures DecodeFile(AsWritten, EncodedBytes(width, height, bitmap)) == Ok(Image(width, height, bitmap))
  {
    LumaFreeFaithful(EncodeImage(PixelsOf(bitmap)));
    RoundTripUnder(AsWritten, width, height, bitmap);
  }

  /** Chunks whose LUMA chunks all have green delta -32 are read faithfully by the two-bit rule. */
  lemma LumaFreeFaithful(cs: seq<Chunk>)
    requires forall c :: c in cs && c.Luma? ==> c.dg == -32
    ensures AllFaithful(AsWritten, cs)
  {
    assert forall k :: 0 <= k < |cs| ==> cs[k] in cs;
  }

  /**
   * The two-bit reading decodes a LUMA chunk to the pixel it stands for
   * exactly when its green delta is -32; the six-bit reading always does.
   */
  lemma LumaReadings(dg: int, drdg: int, dbdg: int, cache: Cache, prev: Colour)
    requires WellFormed(Luma(dg, drdg, dbdg))
    ensures var b1, b2 := LumaFirstByte(dg), LumaSecondByte(drdg, dbdg);
      var meant := ChunkPixels(Luma(dg, drdg, dbdg), cache, prev)[0];
      && (LumaColour(AsWritten, b1, b2, prev) == meant <==> dg == -32)
      && LumaColour(Corrected, b1, b2, prev) == meant
  {
    var b1, b2 := LumaFirstByte(dg), LumaSecondByte(drdg, dbdg);
    var meant := Colour((prev.r + drdg + dg) % 256, (prev.g + dg) % 256, (prev.b + dbdg + dg) % 256, prev.a);
    LumaMeaning(dg, drdg, dbdg, cache, prev);
    LumaGreenOf(b1, dg);
    Quot16(b2, drdg + 8, dbdg + 8);
    LumaColourValue(Corrected, b1, b2, prev, dg, drdg, dbdg);
    if dg == -32 {
      LumaColourValue(AsWritten, b1, b2, prev, dg, drdg, dbdg);
    } else {
      LumaMisreadsGreen(b1, b2, prev, dg);
    }
  }

  lemma LumaMeaning(dg: int, drdg: int, dbdg: int, cache: Cache, prev: Colour)
    requires WellFormed(Luma(dg, drdg, dbdg))
    ensures ChunkPixels(Luma(dg, drdg, dbdg), cache, prev)
      == [Colour((prev.r + drdg + dg) % 256, (prev.g + dg) % 256, (prev.b + dbdg + dg) % 256, prev.a)]
  {
  }

  /** The six-bit reading of the green delta is exact; the two-bit one only for -32. */
  lemma LumaGreenOf(b1: byte, dg: int)
    requires -32 <= dg <= 31 && b1 == 0x80 + dg + 32
    ensures LumaGreen(Corrected, b1) == dg
    ensures LumaGreen(AsWritten, b1) == dg <==> dg == -32
  {
    Quot64(b1, 2, dg + 32);
    var x := dg + 32;
    Quot16(b1, 8 + x / 16, x % 16);
    Quot4(8 + x / 16, 2, x / 16);
  }

  /** A misread green delta yields a different green channel. */
  lemma LumaMisreadsGreen(b1: byte, b2: byte, prev: Colour, dg: int)
    requires -32 <= dg <= 31 && LumaGreen(AsWritten, b1) != dg
    ensures LumaColour(AsWritten, b1, b2, prev).g != (prev.g + dg) % 256
  {
    DistinctRemainders(prev.g + LumaGreen(AsWritten, b1), prev.g + dg);
  }

  /**
   * A LUMA chunk the two-bit reading misreads, laid out first: the decoder
   * writes a pixel other than the chunk's into the slot at `imgIndex`, and
   * as nothing writes that slot again, it cannot end with the chunks' image.
   */
  lemma MisreadChunk(cs: seq<Chunk>, data: seq<byte>, i: int, st: DecodeState)
    requires AllWellFormed(cs) && cs != [] && AllWellFormed(cs[1..]) && !Faithful(AsWritten, cs[0])
    requires LaidOut(cs, data, i) && st.imgIndex + Spans(cs) <= |st.img|
    ensures DecodeFrom(AsWritten, data, i, st) != Ok(Overwrite(st.img, st.imgIndex, Play(cs, st.cache, st.prev)))
  {
    var c := cs[0];
    var bs := ChunkBytes(c);
    LaidOutFirst(cs, data, i, bs, i + |bs|);
    ByteAt(data, i, bs, 0);
    ByteAt(data, i, bs, 1);
    ParsesAsLuma(AsWritten, data, i, st.cache, st.prev);
    var w := LumaColour(AsWritten, data[i], data[i + 1], st.prev);
    var meant := ChunkPixels(c, st.cache, st.prev)[0];
    LumaReadings(c.dg, c.drdg, c.dbdg, st.cache, st.prev);
    assert w != meant;
    PlayUnfold(cs, st.cache, st.prev);
    var played := Play(cs, st.cache, st.prev);
    var target := Overwrite(st.img, st.imgIndex, played);
    assert target[st.imgIndex] == target[st.imgIndex..st.imgIndex + |played|][0] == played[0] == meant;
    DecodeFromStep(AsWritten, data, i, st);
    var placed := Place(st, Step(i + 2, w, 1));
    if placed.Ok? {
      var st' := placed.value;
      assert st'.img[st.imgIndex] == st'.img[st.imgIndex..st.imgIndex + 1][0] == w;
      DecodeKeepsWritten(AsWritten, data, i + 2, st');
    }
  }

  /**
   * Chunks laid out from byte `i` of which one is a LUMA chunk the two-bit
   * reading misreads never decode to the image they stand for.
   */
  lemma {:induction false} MisreadChunks(cs: seq<Chunk>, data: seq<byte>, i: int, st: DecodeState, k: nat)
    requires AllWellFormed(cs) && LaidOut(cs, data, i) && st.imgIndex + Spans(cs) <= |st.img|
    requires k < |cs| && !Faithful(AsWritten, cs[k])
    ensures DecodeFrom(AsWritten, data, i, st) != Ok(Overwrite(st.img, st.imgIndex, Play(cs, st.cache, st.prev)))
    decreases |cs|
  {
    TailWellFormed(cs);
    if !Faithful(AsWritten, cs[0]) {
      MisreadChunk(cs, data, i, st);
    } else {
      ReplayedUnfold(cs, st);
      var c := cs[0];
      var bs := ChunkBytes(c);
      var j, st' := i + |bs|, After(c, st);
      LaidOutFirst(cs, data, i, bs, j);
      DecodeChunkAt(AsWritten, c, data, i, bs, j, st, st');
      assert cs[1..][k - 1] == cs[k];
      MisreadChunks(cs[1..], data, j, st', k - 1);
      ReplayedFirst(cs, st, Overwrite(st'.img, st'.imgIndex, Play(cs[1..], st'.cache, st'.prev)));
    }
  }

  /**
   * The chunk bytes of an encoding, followed by the end marker, do not
   * decode to the encoded pixels under the two-bit reading once one of its
   * LUMA chunks has a green delta other than -32.
   */
  lemma MisreadBody(px: seq<Colour>)
    requires exists c :: c in EncodeImage(px) && c.Luma? && c.dg != -32
    ensures DecodeFrom(AsWritten, ChunksBytes(EncodeImage(px)) + EndMarker, 0, InitialState(|px|)) != Ok(px)
    ensures var r := DecodeFrom(AsWritten, ChunksBytes(EncodeImage(px)) + EndMarker, 0, InitialState(|px|));
      r.Ok? ==> Flatten(r.value) != Flatten(px)
  {
    var cs := EncodeImage(px);
    var c :| c in cs && c.Luma? && c.dg != -32;
    var k :| 0 <= k < |cs| && cs[k] == c;
    var body := ChunksBytes(cs);
    var st := InitialState(|px|);
    assert (body + EndMarker)[0..|body|] == body;
    LaidOutFrom(cs, body + EndMarker, 0, body);
    PlayEncodeImage(px);
    MisreadChunks(cs, body + EndMarker, 0, st, k);
    assert Overwrite(st.img, 0, px) == px;
    var r := DecodeFrom(AsWritten, body + EndMarker, 0, st);
    if r.Ok? {
      PixelsOfFlatten(r.value);
      PixelsOfFlatten(px);
    }
  }

  /**
   * With the source's two-bit LUMA reading, an encoder output whose
   * encoding holds a LUMA chunk with a green delta other than -32 does not
   * decode to its image.
   */
  lemma AsWrittenMisdecodes(width: uint32, height: uint32, bitmap: seq<byte>)
    requires width * height * 4 <= IntLimit && |bitmap| == width * height * 4
    requires exists c :: c in EncodeImage(PixelsOf(bitmap)) && c.Luma? && c.dg != -32
    ensures DecodeFile(AsWritten, EncodedBytes(width, height, bitmap)) != Ok(Image(width, height, bitmap))
  {
    FramingDecodes(AsWritten, width, height, bitmap);
    MisreadBody(PixelsOf(bitmap));
    FlattenPixelsOf(bitmap);
  }

  /**
   * The source's two-bit LUMA reading decodes an encoder output to its
   * image exactly when every LUMA chunk of the encoding has the green delta
   * -32.
   */
  lemma AsWrittenRoundTripExactly(width: uint32, height: uint32, bitmap: seq<byte>)
    requires width * height * 4 <= IntLimit && |bitmap| == width * height * 4
    ensures DecodeFile(AsWritten, EncodedBytes(width, height, bitmap)) == Ok(Image(width, height, bitmap))
      <==> forall c :: c in EncodeImage(PixelsOf(bitmap)) && c.Luma? ==> c.dg == -32
  {
    if forall c :: c in EncodeImage(PixelsOf(bitmap)) && c.Luma? ==> c.dg == -32 {
      RoundTripAsWritten(width, height, bitmap);
    } else {
      AsWrittenMisdecodes(width, height, bitmap);
    }
  }

  /**
   * A one-pixel image that shows the two-bit LUMA reading going wrong:
   * (5, 5, 5, 255) after opaque black is the LUMA chunk with green delta 5,
   * the bytes 0xA5 0x88; the two-bit reading takes the green delta for -30
   * and yields (226, 226, 226, 255), while the six-bit reading gives back
   * the pixel.
   */
  lemma LumaCounterexample()
    ensures EncodeImage(PixelsOf([5, 5, 5, 255])) == [Luma(5, 0, 0)]
    ensures ChunksBytes([Luma(5, 0, 0)]) == [0xA5, 0x88]
    ensures DecodeFile(AsWritten, EncodedBytes(1, 1, [5, 5, 5, 255])) == Ok(Image(1, 1, [226, 226, 226, 255]))
    ensures DecodeFile(Corrected, EncodedBytes(1, 1, [5, 5, 5, 255])) == Ok(Image(1, 1, [5, 5, 5, 255]))
  {
    var bitmap := [5, 5, 5, 255];
    var c := Colour(226, 226, 226, 255);
    ExampleEncodes(bitmap);
    ExampleBytes();
    var body := [0xA5, 0x88] + EndMarker;
    ExampleDecodes(body, c);
    FramingDecodes(AsWritten, 1, 1, bitmap);
    ExampleFlatten([c], c);
    RoundTrip(1, 1, bitmap);
  }

  lemma ExampleFlatten(px: seq<Colour>, c: Colour)
    requires px == [c]
    ensures Flatten(px) == [c.r, c.g, c.b, c.a]
  {
    FlattenAt(px, 0);
  }

  lemma ExampleEncodes(bitmap: seq<byte>)
    requires bitmap == [5, 5, 5, 255]
    ensures PixelsOf(bitmap) == [Colour(5, 5, 5, 255)]
    ensures EncodeImage([Colour(5, 5, 5, 255)]) == [Luma(5, 0, 0)]
  {
    var p := Colour(5, 5, 5, 255);
    var px := PixelsOf(bitmap);
    assert px[0] == p;
    assert Hash(p) == 0;
    ChunkStep([p], 0, FreshCache(), Start);
    ExampleChoice(p, FreshCache()[0]);
  }

  lemma ExampleChoice(p: Colour, cached: Colour)
    requires p == Colour(5, 5, 5, 255) && cached == Blank
    ensures ChooseChunk(p, Start, cached) == Luma(5, 0, 0)
  {
    var prev := Colour(0, 0, 0, 255);
    assert Start == prev;
    ExampleDelta(p, prev);
  }

  lemma ExampleDelta(p: Colour, prev: Colour)
    requires p == Colour(5, 5, 5, 255) && prev == Colour(0, 0, 0, 255)
    ensures DeltaChunk(p, prev) == Luma(5, 0, 0)
  {
    assert ToSByte(5) == 5 && ToSByte(0) == 0;
  }

  lemma ExampleBytes()
    ensures ChunksBytes([Luma(5, 0, 0)]) == [0xA5, 0x88]
  {
    var cs := [Luma(5, 0, 0)];
    assert ChunksBytes(cs) == ChunkBytes(cs[0]) + ChunksBytes(cs[1..]);
  }

  lemma ExampleLuma(c: Colour)
    requires c == Colour(226, 226, 226, 255)
    ensures LumaColour(AsWritten, 0xA5, 0x88, Start) == c
  {
    assert Start == Colour(0, 0, 0, 255);
    assert 0xA5 / 16 == 10 && 0x88 / 16 == 8 && 0x88 % 16 == 8;
    assert LumaGreen(AsWritten, 0xA5) == -30;
  }

  lemma ExampleDecodes(body: seq<byte>, c: Colour)
    requires body == [0xA5, 0x88] + EndMarker && c == Colour(226, 226, 226, 255)
    ensures DecodeFrom(AsWritten, body, 0, InitialState(1)) == Ok([c])
  {
    var st := InitialState(1);
    ExampleLuma(c);
    assert LeadingBits(0xA5) == 2;
    var s := ParseChunk(AsWritten, body, 0, st.cache, st.prev);
    assert s == Step(2, c, 1);
    var st' := DecodeState([c], 1, Remember(st.cache, c), c);
    assert Overwrite(st.img, 0, seq(1, _ => c)) == [c];
    assert Place(st, s) == Ok(st');
  }
}
