/**
 * The decoder (QOIDecoder/DecoderProgram.cs, from the point where the file's
 * bytes are in memory): the magic and dimension checks, the chunk loop
 * bounded by byte offset, and the flattening of the pixels into an RGBA
 * buffer. `DecodeFile` is the specification and `Decode` the imperative
 * program proved to compute it.
 *
 * The source reads the six bits of a LUMA chunk's green delta with the
 * two-bit DIFF expression. `LumaRule` selects between that reading
 * (`AsWritten`, the program's behaviour) and the six-bit one the encoder
 * writes (`Corrected`).
 */
module Decoder {
  import opened Bits
  import opened Results
  import opened Colours
  import opened Chunks

  datatype LumaRule = AsWritten | Corrected

  /** The exceptions the decoder can raise on malformed input. */
  datatype Error =
    | EndOfStream      // `ReadUInt32` on fewer than four bytes
    | InvalidData      // a magic other than "qoif"
    | IndexOutOfRange  // a missing dimension byte, or more pixels than `img` holds

  /** A decoded image: its dimensions and the RGBA buffer handed to the image library. */
  datatype Image = Image(width: uint32, height: uint32, rgba: seq<byte>)

  /** "qoif" read as a little-endian `uint`. */
  const Magic: uint32 := 0x66696F71

  lemma MagicIsQoif()
    ensures LittleEndianValue([113, 111, 105, 102]) == Magic
  {
  }

  // Literal-divisor facts used to read bit fields.
  lemma Quot4(x: int, q: int, r: int)
    requires x == q * 4 + r && 0 <= r < 4
    ensures x / 4 == q && x % 4 == r
  {
  }

  lemma Quot16(x: int, q: int, r: int)
    requires x == q * 16 + r && 0 <= r < 16
    ensures x / 16 == q && x % 16 == r
  {
  }

  lemma Quot64(x: int, q: int, r: int)
    requires x == q * 64 + r && 0 <= r < 64
    ensures x / 64 == q && x % 64 == r
  {
  }

  /**
   * What the source's shift-and-cast expressions take out of a byte: with
   * `b = [t:2][u:2][v:2][w:2]`, `(byte)(b << 2) >> 6` is `u`,
   * `(byte)(b << 4) >> 6` is `v`, `(byte)(b << 6) >> 6` is `w`,
   * `(byte)(b << 2) >> 2` is the low six bits and `(byte)(b << 4) >> 4` the
   * low four.
   */
  lemma ByteFields(b: byte)
    ensures ToByte(b * 4) / 64 == (b / 16) % 4
    ensures ToByte(b * 16) / 64 == (b / 4) % 4
    ensures ToByte(b * 64) / 64 == b % 4
    ensures ToByte(b * 4) / 4 == b % 64
    ensures ToByte(b * 16) / 16 == b % 16
  {
    ShiftTwo(b);
    ShiftFour(b);
    ShiftSix(b);
  }

  /** `(byte)(b << 2)` keeps the low six bits, moved up by two. */
  lemma ShiftTwo(b: byte)
    ensures ToByte(b * 4) / 64 == (b / 16) % 4 && ToByte(b * 4) / 4 == b % 64
  {
    var q, x := b / 64, b % 64;
    var a, c := x / 16, x % 16;
    Quot64(b, q, x);
    Quot16(x, a, c);
    Split(b * 4, q, 4 * x);
    Quot4(4 * x, x, 0);
    Quot64(4 * x, a, 4 * c);
    Quot16(b, 4 * q + a, c);
    Quot4(4 * q + a, q, a);
  }

  /** `(byte)(b << 4)` keeps the low four bits, moved up by four. */
  lemma ShiftFour(b: byte)
    ensures ToByte(b * 16) / 64 == (b / 4) % 4 && ToByte(b * 16) / 16 == b % 16
  {
    var p, y := b / 16, b % 16;
    var e, f := y / 4, y % 4;
    Quot16(b, p, y);
    Quot4(y, e, f);
    Split(b * 16, p, 16 * y);
    Quot16(16 * y, y, 0);
    Quot64(16 * y, e, 16 * f);
    Quot4(b, 4 * p + e, f);
    Quot4(4 * p + e, p, e);
  }

  /** `(byte)(b << 6)` keeps the low two bits, moved up by six. */
  lemma ShiftSix(b: byte)
    ensures ToByte(b * 64) / 64 == b % 4
  {
    var p, f := b / 4, b % 4;
    Quot4(b, p, f);
    Split(b * 64, p, 64 * f);
    Quot64(64 * f, f, 0);
  }

  /** `(byte)(b >> 4)` and `(byte)(b << 4) >> 4`: the high and the low nibble. */
  lemma Nibbles(b: byte)
    ensures ToByte(b / 16) == b / 16 && ToByte(b * 16) / 16 == b % 16
  {
    var q, x := b / 16, b % 16;
    Quot16(b, q, x);
    Split(b * 16, q, 16 * x);
    Quot16(16 * x, x, 0);
  }

  /** `(byte)((byte)x % 256)` with C#'s `%` is `x` modulo 256. */
  lemma Rewrap(x: int)
    ensures ToByte(CRem256(ToByte(x))) == x % 256
  {
    var y := ToByte(x);
    CastOfRemainder(y);
    assert y % 256 == y;
  }

  /** `(byte)(b1 >> 6)`: the two-bit tag, which places `b1` in one of four blocks of 64. */
  function LeadingBits(b1: byte): (t: byte)
    ensures t < 4 && t * 64 <= b1 < t * 64 + 64
  {
    ToByte(b1 / 64)
  }

  /** `(byte)((b1 << 2) >> 2)`: the shifts happen in `int`, so no bit is lost. */
  function IndexSlot(b1: byte): (slot: byte)
    ensures slot == b1
  {
    ToByte((b1 * 4) / 4)
  }

  /** `((byte)(b1 << 2) >> 2) + 1`: the low six bits, biased by one. */
  function RunLength(b1: byte): (n: int)
    ensures n == b1 % 64 + 1
  {
    ByteFields(b1);
    ToByte(b1 * 4) / 4 + 1
  }

  /**
   * A DIFF chunk: the deltas are bits 5-4, 3-2 and 1-0, each less 2, added
   * to the previous channel modulo 256; alpha is kept.
   */
  function DiffColour(b1: byte, prev: Colour): (c: Colour)
    ensures c == Colour((prev.r + (b1 / 16) % 4 - 2) % 256, (prev.g + (b1 / 4) % 4 - 2) % 256,
                        (prev.b + b1 % 4 - 2) % 256, prev.a)
  {
    var dr := ToByte(b1 * 4) / 64 - 2;
    var dg := ToByte(b1 * 16) / 64 - 2;
    var db := ToByte(b1 * 64) / 64 - 2;
    ByteFields(b1);
    CastOfRemainder(prev.r + dr);
    CastOfRemainder(prev.g + dg);
    CastOfRemainder(prev.b + db);
    NewColour(ToByte(CRem256(prev.r + dr)), ToByte(CRem256(prev.g + dg)), ToByte(CRem256(prev.b + db)), prev.a)
  }

  /**
   * The green delta of a LUMA chunk. As written, the source reuses the DIFF
   * expression `(byte)(b1 << 2) >> 6`, which yields bits 5-4 only, so the
   * delta lies in [-32, -29]; the six bits the encoder writes are
   * `(byte)(b1 << 2) >> 2`.
   */
  function LumaGreen(rule: LumaRule, b1: byte): (dg: int)
    ensures rule == AsWritten ==> dg == (b1 / 16) % 4 - 32 && -32 <= dg <= -29
    ensures rule == Corrected ==> dg == b1 % 64 - 32 && -32 <= dg <= 31
  {
    ByteFields(b1);
    match rule
    case AsWritten => ToByte(b1 * 4) / 64 - 32
    case Corrected => ToByte(b1 * 4) / 4 - 32
  }

  /**
   * A LUMA chunk: the red and blue deltas less the green one are the high
   * and low nibbles of the second byte, less 8; each channel moves by its
   * delta modulo 256 and alpha is kept.
   */
  function LumaColour(rule: LumaRule, b1: byte, b2: byte, prev: Colour): (c: Colour)
    ensures var dg := LumaGreen(rule, b1);
      c == Colour((prev.r + b2 / 16 - 8 + dg) % 256, (prev.g + dg) % 256,
                  (prev.b + b2 % 16 - 8 + dg) % 256, prev.a)
  {
    var diffGreen := LumaGreen(rule, b1);
    var drDg := ToByte(b2 / 16) - 8;
    var dbDg := ToByte(b2 * 16) / 16 - 8;
    var curG := CRem256(ToByte(prev.g + diffGreen));
    var curR := CRem256(ToByte(drDg + diffGreen + prev.r));
    var curB := CRem256(ToByte(dbDg + diffGreen + prev.b));
    Nibbles(b2);
    Rewrap(prev.g + diffGreen);
    Rewrap(drDg + diffGreen + prev.r);
    Rewrap(dbDg + diffGreen + prev.b);
    NewColour(ToByte(curR), ToByte(curG), ToByte(curB), prev.a)
  }

  /**
   * What one chunk starting at byte `i` stands for: the offset of the next
   * chunk, the pixel it yields and how many copies of it.
   */
  datatype Step = Step(next: int, pixel: Colour, count: nat)

  /**
   * The dispatch on a chunk's first byte: the two full-byte tags first, then
   * the two-bit tag. The loop bound leaves eight bytes after `i`, so every
   * payload byte exists.
   */
  function ParseChunk(rule: LumaRule, data: seq<byte>, i: int, cache: Cache, prev: Colour): (s: Step)
    requires 0 <= i < |data| - 8
    ensures i < s.next <= i + 5 && 1 <= s.count <= 62
  {
    var b1 := data[i];
    if b1 == OpRgba then Step(i + 5, NewColour(data[i + 1], data[i + 2], data[i + 3], data[i + 4]), 1)
    else if b1 == OpRgb then Step(i + 4, NewColour(data[i + 1], data[i + 2], data[i + 3], prev.a), 1)
    else
      var leadingBits := LeadingBits(b1);
      TagLayout();
      if leadingBits == OpIndex / 64 then Step(i + 1, cache[IndexSlot(b1)], 1)
      else if leadingBits == OpDiff / 64 then Step(i + 1, DiffColour(b1, prev), 1)
      else if leadingBits == OpLuma / 64 then Step(i + 2, LumaColour(rule, b1, data[i + 1], prev), 1)
      else Step(i + 1, prev, RunLength(b1))
  }

  /** `img` with the slots from `k` on replaced by `px`. */
  function Overwrite(img: seq<Colour>, k: nat, px: seq<Colour>): (r: seq<Colour>)
    requires k + |px| <= |img|
    ensures |r| == |img|
    ensures r[..k] == img[..k] && r[k..k + |px|] == px && r[k + |px|..] == img[k + |px|..]
  {
    img[..k] + px + img[k + |px|..]
  }

  /** The decoder's loop state besides the byte offset. */
  datatype DecodeState = DecodeState(img: seq<Colour>, imgIndex: nat, cache: Cache, prev: Colour)

  /**
   * Writing a chunk's pixels at `imgIndex`, which throws when they do not
   * fit; then the last of them becomes `previous` and is remembered in the
   * cache.
   */
  function Place(st: DecodeState, s: Step): (r: Result<DecodeState, Error>)
    ensures r.Err? <==> st.imgIndex + s.count > |st.img|
    ensures r.Ok? ==> |r.value.img| == |st.img| && r.value.imgIndex == st.imgIndex + s.count
  {
    if st.imgIndex + s.count > |st.img| then Err(IndexOutOfRange)
    else Ok(DecodeState(Overwrite(st.img, st.imgIndex, seq(s.count, _ => s.pixel)),
                        st.imgIndex + s.count, Remember(st.cache, s.pixel), s.pixel))
  }

  /** The chunk loop from byte offset `i` on: it stops when fewer than nine bytes remain. */
  function DecodeFrom(rule: LumaRule, data: seq<byte>, i: int, st: DecodeState): (r: Result<seq<Colour>, Error>)
    requires 0 <= i
    ensures r.Ok? ==> |r.value| == |st.img|
    decreases |data| - i
  {
    if i >= |data| - 8 then Ok(st.img)
    else
      var s := ParseChunk(rule, data, i, st.cache, st.prev);
      match Place(st, s)
      case Err(e) => Err(e)
      case Ok(st') => DecodeFrom(rule, data, s.next, st')
  }

  /** The state before the first chunk: a blank image, a blank cache, opaque black. */
  function InitialState(count: nat): (st: DecodeState)
    ensures |st.img| == count && st.imgIndex == 0
    ensures forall k :: 0 <= k < count ==> st.img[k] == Blank
    ensures forall k :: 0 <= k < 64 ==> st.cache[k] == Blank
    ensures st.cache == FreshCache() && st.prev == Start
  {
    DecodeState(seq(count, _ => Blank), 0, FreshCache(), Start)
  }

  /**
   * The whole decoder. The magic is read little-endian (fewer than four
   * bytes end the stream), the dimensions big-endian from the next eight
   * bytes (a missing one is an index error), and two more bytes are
   * skipped. `img` has `width * height` slots, a product that wraps around
   * as a `uint`; the flattening loop's `4 * i + 3`, an `int`, leaves the
   * range of indices once there are more than 2^29 pixels. A decoded image
   * has the width and height of bytes 4-7 and 8-11, read most significant
   * first, and four bytes per pixel of the wrapped-around pixel count.
   */
  function DecodeFile(rule: LumaRule, file: seq<byte>): (r: Result<Image, Error>)
    ensures r.Ok? ==> |file| >= 12
    ensures r.Ok? ==> r.value.width == BigEndianValue(file[4..8]) && r.value.height == BigEndianValue(file[8..12])
    ensures r.Ok? ==> |r.value.rgba| == 4 * ((r.value.width * r.value.height) % TwoTo32) <= IntLimit
  {
    if |file| < 4 then Err(EndOfStream)
    else if LittleEndianValue(file[..4]) != Magic then Err(InvalidData)
    else if |file| < 12 then Err(IndexOutOfRange)
    else
      var width := BigEndianValue(file[4..8]);
      var height := BigEndianValue(file[8..12]);
      var body := file[if |file| < 14 then |file| else 14..];
      var count := (width * height) % TwoTo32;
      match DecodeFrom(rule, body, 0, InitialState(count))
      case Err(e) => Err(e)
      case Ok(img) =>
        if 4 * count > IntLimit then Err(IndexOutOfRange)
        else Ok(Image(width, height, Flatten(img)))
  }

  /**
   * The decoder's failures on the framing: fewer than four bytes end the
   * stream, a first word other than "qoif" is invalid data, and a file cut
   * inside the dimensions is an index error.
   */
  lemma FramingErrors(rule: LumaRule, file: seq<byte>)
    ensures |file| < 4 ==> DecodeFile(rule, file) == Err(EndOfStream)
    ensures |file| >= 4 && file[..4] != [113, 111, 105, 102] ==> DecodeFile(rule, file) == Err(InvalidData)
    ensures |file| >= 4 && file[..4] == [113, 111, 105, 102] && |file| < 12
      ==> DecodeFile(rule, file) == Err(IndexOutOfRange)
  {
    MagicIsQoif();
    if |file| >= 4 {
      LittleEndianInjective(file[..4], [113, 111, 105, 102]);
    }
  }

  /** Bytes 12 and 13 (channels and colorspace) are skipped: they never change the result. */
  lemma SkippedBytesIgnored(rule: LumaRule, file: seq<byte>, file': seq<byte>)
    requires |file| == |file'| && 14 <= |file|
    requires file[..12] == file'[..12] && file[14..] == file'[14..]
    ensures DecodeFile(rule, file) == DecodeFile(rule, file')
  {
    assert file[..4] == file[..12][..4] && file'[..4] == file'[..12][..4];
    assert file[4..8] == file[..12][4..8] && file'[4..8] == file'[..12][4..8];
    assert file[8..12] == file[..12][8..12] && file'[8..12] == file'[..12][8..12];
  }

  /** Extending a run of writes by one slot. */
  lemma OverwriteExtend(img: seq<Colour>, k: nat, n: nat, p: Colour)
    requires k + n < |img|
    ensures Overwrite(img, k, seq(n, _ => p))[k + n := p] == Overwrite(img, k, seq(n + 1, _ => p))
  {
    var a := Overwrite(img, k, seq(n, _ => p))[k + n := p];
    var b := Overwrite(img, k, seq(n + 1, _ => p));
    forall j | 0 <= j < |img|
      ensures a[j] == b[j]
    {
      if j < k {
        assert a[j] == img[..k][j];
      } else if j <= k + n {
        assert b[k..k + n + 1][j - k] == p;
      } else {
        assert a[j] == img[k + n..][j - k - n] && b[j] == img[k + n + 1..][j - k - n - 1];
      }
    }
  }

  /** Two writes side by side are one write of both. */
  lemma OverwriteAppend(img: seq<Colour>, k: nat, a: seq<Colour>, b: seq<Colour>)
    requires k + |a| + |b| <= |img|
    ensures Overwrite(Overwrite(img, k, a), k + |a|, b) == Overwrite(img, k, a + b)
  {
    var x := Overwrite(Overwrite(img, k, a), k + |a|, b);
    var y := Overwrite(img, k, a + b);
    forall j | 0 <= j < |img|
      ensures x[j] == y[j]
    {
      if j < k {
        assert x[j] == img[..k][j] == y[j];
      } else if j < k + |a| {
        assert x[j] == a[j - k] == y[j];
      } else if j < k + |a| + |b| {
        assert x[j] == b[j - k - |a|] == y[j];
      } else {
        assert x[j] == img[j] == y[j];
      }
    }
  }

  /** The last slot written holds the pixel written. */
  lemma OverwriteLast(img: seq<Colour>, k: nat, n: nat, p: Colour)
    requires 1 <= n && k + n <= |img|
    ensures Overwrite(img, k, seq(n, _ => p))[k + n - 1] == p
  {
    var r := Overwrite(img, k, seq(n, _ => p));
    assert r[k..k + n][n - 1] == p;
  }

  /** One iteration of the chunk loop. */
  lemma DecodeFromStep(rule: LumaRule, data: seq<byte>, i: int, st: DecodeState)
    requires 0 <= i < |data| - 8
    ensures var s := ParseChunk(rule, data, i, st.cache, st.prev);
      var placed := Place(st, s);
      DecodeFrom(rule, data, i, st)
        == if placed.Err? then Err(placed.error) else DecodeFrom(rule, data, s.next, placed.value)
  {
  }

  /**
   * `imgIndex` only moves forward, so a pixel once written is never written
   * again: a decoded image keeps every slot below the current index.
   */
  lemma {:induction false} DecodeKeepsWritten(rule: LumaRule, data: seq<byte>, i: int, st: DecodeState)
    requires 0 <= i
    ensures var r := DecodeFrom(rule, data, i, st);
      r.Ok? ==> forall k :: 0 <= k < st.imgIndex && k < |st.img| ==> r.value[k] == st.img[k]
    decreases |data| - i
  {
    if i < |data| - 8 {
      var s := ParseChunk(rule, data, i, st.cache, st.prev);
      DecodeFromStep(rule, data, i, st);
      var placed := Place(st, s);
      if placed.Ok? {
        var st' := placed.value;
        DecodeKeepsWritten(rule, data, s.next, st');
        assert forall k :: 0 <= k < st.imgIndex ==> st'.img[k] == st'.img[..st.imgIndex][k] == st.img[k];
      }
    }
  }

  /** `img[imgIndex] = c`, which throws when `imgIndex` is past the end. */
  method Store(img: array<Colour>, imgIndex: int, c: Colour) returns (failure: Option<Error>)
    requires 0 <= imgIndex
    modifies img
    ensures failure.Some? <==> imgIndex >= img.Length
    ensures failure.Some? ==> failure.value == IndexOutOfRange
    ensures failure.None? ==> img[..] == Overwrite(old(img[..]), imgIndex, seq(1, _ => c))
  {
    if imgIndex >= img.Length {
      return Some(IndexOutOfRange);
    }
    img[imgIndex] := c;
    OverwriteExtend(old(img[..]), imgIndex, 0, c);
    assert Overwrite(old(img[..]), imgIndex, seq(0, _ => c)) == old(img[..]);
    failure := None;
  }

  /**
   * The RUN case's inner loop: `run` copies of `previous` from `imgIndex`
   * on, one `img[imgIndex++]` at a time.
   */
  method WriteRun(img: array<Colour>, start: int, run: int, previous: Colour)
    returns (failure: Option<Error>, imgIndex: int)
    requires 0 <= start <= img.Length && 1 <= run
    modifies img
    ensures failure.Some? <==> start + run > img.Length
    ensures failure.Some? ==> failure.value == IndexOutOfRange
    ensures failure.None? ==>
      img[..] == Overwrite(old(img[..]), start, seq(run, _ => previous)) && imgIndex == start + run
  {
    imgIndex := start;
    var left := run;
    assert Overwrite(old(img[..]), start, seq(0, _ => previous)) == old(img[..]);
    while left > 0
      invariant start <= imgIndex <= img.Length && 0 <= left && imgIndex - start + left == run
      invariant img[..] == Overwrite(old(img[..]), start, seq(imgIndex - start, _ => previous))
    {
      if imgIndex >= img.Length {
        return Some(IndexOutOfRange), imgIndex;
      }
      OverwriteExtend(old(img[..]), start, imgIndex - start, previous);
      img[imgIndex] := previous;
      imgIndex := imgIndex + 1;
      left := left - 1;
    }
    failure := None;
  }

  /**
   * The body of the chunk loop up to its common tail: the dispatch on the
   * first byte, the payload read with `++i`, and the writes into `img`.
   * Returns the offset of the chunk's last byte and the index of its last
   * pixel.
   */
  method DecodeChunk(rule: LumaRule, byteData: seq<byte>, i0: int, img: array<Colour>, imgIndex0: int,
                     cache: array<Colour>, previous: Colour)
    returns (failure: Option<Error>, i: int, imgIndex: int)
    requires 0 <= i0 < |byteData| - 8 && 0 <= imgIndex0 <= img.Length
    requires cache.Length == 64 && cache != img
    modifies img
    ensures var s := ParseChunk(rule, byteData, i0, cache[..], previous);
      && (failure.Some? <==> imgIndex0 + s.count > img.Length)
      && (failure.Some? ==> failure.value == IndexOutOfRange)
      && (failure.None? ==>
            && img[..] == Overwrite(old(img[..]), imgIndex0, seq(s.count, _ => s.pixel))
            && i == s.next - 1 && imgIndex == imgIndex0 + s.count - 1)
  {
    i, imgIndex := i0, imgIndex0;
    var b1 := byteData[i];
    if b1 == OpRgba {
      i := i + 1;
      var r := byteData[i];
      i := i + 1;
      var g := byteData[i];
      i := i + 1;
      var b := byteData[i];
      i := i + 1;
      var a := byteData[i];
      failure := Store(img, imgIndex, NewColour(r, g, b, a));
    } else if b1 == OpRgb {
      i := i + 1;
      var r := byteData[i];
      i := i + 1;
      var g := byteData[i];
      i := i + 1;
      var b := byteData[i];
      failure := Store(img, imgIndex, NewColour(r, g, b, previous.a));
    } else {
      failure, i, imgIndex := DecodeTagged(rule, byteData, i, img, imgIndex, cache, previous);
    }
  }

  /** The part of `DecodeChunk` that dispatches on the two-bit tag. */
  method DecodeTagged(rule: LumaRule, byteData: seq<byte>, i0: int, img: array<Colour>, imgIndex0: int,
                      cache: array<Colour>, previous: Colour)
    returns (failure: Option<Error>, i: int, imgIndex: int)
    requires 0 <= i0 < |byteData| - 8 && 0 <= imgIndex0 <= img.Length
    requires byteData[i0] != OpRgba && byteData[i0] != OpRgb
    requires cache.Length == 64 && cache != img
    modifies img
    ensures var s := ParseChunk(rule, byteData, i0, cache[..], previous);
      && (failure.Some? <==> imgIndex0 + s.count > img.Length)
      && (failure.Some? ==> failure.value == IndexOutOfRange)
      && (failure.None? ==>
            && img[..] == Overwrite(old(img[..]), imgIndex0, seq(s.count, _ => s.pixel))
            && i == s.next - 1 && imgIndex == imgIndex0 + s.count - 1)
  {
    i, imgIndex := i0, imgIndex0;
    var b1 := byteData[i];
    var leadingBits := LeadingBits(b1);
    TagLayout();
    if leadingBits == OpIndex / 64 {
      var index := IndexSlot(b1);
      failure := Store(img, imgIndex, cache[index]);
    } else if leadingBits == OpDiff / 64 {
      failure := Store(img, imgIndex, DiffColour(b1, previous));
    } else if leadingBits == OpLuma / 64 {
      i := i + 1;
      var b2 := byteData[i];
      failure := Store(img, imgIndex, LumaColour(rule, b1, b2, previous));
    } else {
      var run := RunLength(b1);
      failure, imgIndex := WriteRun(img, imgIndex, run, previous);
      imgIndex := imgIndex - 1;
    }
  }

  /**
   * The chunk loop `for (i = 0; i < byteData.Length - 8; i++)` with its
   * 64-slot cache, `previous` and `imgIndex`: after each chunk the last
   * pixel written becomes `previous` and is stored in its slot.
   */
  method DecodeChunks(rule: LumaRule, byteData: seq<byte>, img: array<Colour>) returns (failure: Option<Error>)
    modifies img
    ensures var r := DecodeFrom(rule, byteData, 0, DecodeState(old(img[..]), 0, FreshCache(), Start));
      && (r.Err? ==> failure == Some(r.error))
      && (r.Ok? ==> failure == None && img[..] == r.value)
  {
    ghost var spec := DecodeFrom(rule, byteData, 0, DecodeState(img[..], 0, FreshCache(), Start));
    var cache := new Colour[64](_ => Blank);
    var previous := NewColour(0, 0, 0);
    assert cache[..] == FreshCache();
    var imgIndex := 0;
    var i := 0;
    while i < |byteData| - 8
      invariant 0 <= i && 0 <= imgIndex <= img.Length
      invariant spec == DecodeFrom(rule, byteData, i, DecodeState(img[..], imgIndex, cache[..], previous))
      decreases |byteData| - i
    {
      ghost var st := DecodeState(img[..], imgIndex, cache[..], previous);
      ghost var s := ParseChunk(rule, byteData, i, cache[..], previous);
      DecodeFromStep(rule, byteData, i, st);
      failure, i, imgIndex := DecodeChunk(rule, byteData, i, img, imgIndex, cache, previous);
      if failure.Some? {
        return;
      }
      OverwriteLast(st.img, st.imgIndex, s.count, s.pixel);
      previous := img[imgIndex];
      cache[Hash(previous)] := previous;
      imgIndex := imgIndex + 1;
      i := i + 1;
      assert cache[..] == Remember(st.cache, s.pixel);
      ghost var st' := DecodeState(img[..], imgIndex, cache[..], previous);
      assert st' == Place(st, s).value && i == s.next;
      assert spec == DecodeFrom(rule, byteData, i, st');
    }
    failure := None;
  }

  /** The flattening loop: pixel `i` becomes bytes `4i` to `4i + 3`. */
  method FlattenImage(img: array<Colour>) returns (imgBytes: seq<byte>)
    ensures imgBytes == Flatten(img[..])
  {
    var buffer := new byte[4 * img.Length](_ => 0);
    for i := 0 to img.Length
      invariant forall k :: 0 <= k < i ==>
        buffer[4 * k] == img[k].r && buffer[4 * k + 1] == img[k].g &&
        buffer[4 * k + 2] == img[k].b && buffer[4 * k + 3] == img[k].a
    {
      buffer[4 * i] := img[i].r;
      buffer[4 * i + 1] := img[i].g;
      buffer[4 * i + 2] := img[i].b;
      buffer[4 * i + 3] := img[i].a;
    }
    imgBytes := buffer[..];
    assert PixelsOf(imgBytes) == img[..];
    FlattenPixelsOf(imgBytes);
  }

  /** The decoder, from the file's bytes to the image's dimensions and RGBA buffer. */
  method Decode(rule: LumaRule, file: seq<byte>) returns (r: Result<Image, Error>)
    ensures r == DecodeFile(rule, file)
  {
    if |file| < 4 {
      return Err(EndOfStream);
    }
    var magic := LittleEndianValue(file[..4]);
    if magic != Magic {
      return Err(InvalidData);
    }
    if |file| < 12 {
      return Err(IndexOutOfRange);
    }
    var size := file[4..12];
    assert size[0..4] == file[4..8] && size[4..8] == file[8..12];
    var width := BigEndianValue(size[0..4]);
    var height := BigEndianValue(size[4..8]);
    var skipped := if |file| < 14 then |file| else 14;
    var byteData := file[skipped..];

    var img := new Colour[(width * height) % TwoTo32](_ => Blank);
    assert img[..] == InitialState(img.Length).img;
    var failure := DecodeChunks(rule, byteData, img);
    if failure.Some? {
      return Err(failure.value);
    }
    if 4 * img.Length > IntLimit {
      return Err(IndexOutOfRange);
    }
    var imgBytes := FlattenImage(img);
    return Ok(Image(width, height, imgBytes));
  }
}
