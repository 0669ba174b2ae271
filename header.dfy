/**
 * The `QOIHeader` struct and its validating constructor
 * (QOIShared/QOIHeader.cs). Neither the encoder nor the decoder uses it.
 */
module Header {
  import opened Bits
  import opened Results

  datatype QoiHeader = QoiHeader(width: uint32, height: uint32, channels: byte, colorspace: byte)

  /** An `ArgumentException`, identified by the parameter it names. */
  datatype ArgumentException = ArgumentException(paramName: string)

  /**
   * The constructor as written: the checks run in the order width, height,
   * channels, colour space, and each field is stored once its check has
   * passed. The channels and colour-space conditions carry one negation too
   * many, so they reject exactly the values their messages call valid.
   */
  function NewHeaderAsWritten(width: uint32, height: uint32, channels: byte, colorspace: byte)
    : (r: Result<QoiHeader, ArgumentException>)
    ensures r.Ok? <==> width != 0 && height != 0 && channels !in {3, 4} && colorspace !in {0, 1}
    ensures r.Ok? ==> r.value == QoiHeader(width, height, channels, colorspace)
  {
    if width <= 0 then Err(ArgumentException("width"))
    else if height <= 0 then Err(ArgumentException("height"))
    else if !(channels != 3 && channels != 4) then Err(ArgumentException("channels"))
    else if !(colorspace != 0 && colorspace != 1) then Err(ArgumentException("colorspace"))
    else Ok(QoiHeader(width, height, channels, colorspace))
  }

  /**
   * The constructor as its messages and field comments describe it: channels
   * must be 3 (RGB) or 4 (RGBA) and the colour space 0 (sRGB with linear
   * alpha) or 1 (all linear).
   */
  function NewHeader(width: uint32, height: uint32, channels: byte, colorspace: byte)
    : (r: Result<QoiHeader, ArgumentException>)
    ensures r.Ok? <==> width != 0 && height != 0 && channels in {3, 4} && colorspace in {0, 1}
    ensures r.Ok? ==> r.value == QoiHeader(width, height, channels, colorspace)
  {
    if width <= 0 then Err(ArgumentException("width"))
    else if height <= 0 then Err(ArgumentException("height"))
    else if channels != 3 && channels != 4 then Err(ArgumentException("channels"))
    else if colorspace != 0 && colorspace != 1 then Err(ArgumentException("colorspace"))
    else Ok(QoiHeader(width, height, channels, colorspace))
  }

  /**
   * As written, the first failing check names the parameter: width, then
   * height, then channels in {3, 4}, then colour space in {0, 1}.
   */
  lemma AsWrittenRejects(width: uint32, height: uint32, channels: byte, colorspace: byte)
    ensures var r := NewHeaderAsWritten(width, height, channels, colorspace);
      && (r == Err(ArgumentException("width")) <==> width == 0)
      && (r == Err(ArgumentException("height")) <==> width != 0 && height == 0)
      && (r == Err(ArgumentException("channels")) <==> width != 0 && height != 0 && channels in {3, 4})
      && (r == Err(ArgumentException("colorspace")) <==>
            width != 0 && height != 0 && channels !in {3, 4} && colorspace in {0, 1})
  {
  }

  /**
   * The header every encoder output describes (4 channels, colour space 0)
   * is refused as written, whatever its size: for its channels when both
   * dimensions are non-zero, and for the first zero dimension otherwise;
   * a bogus channel count is refused for its colour space 0 and a bogus
   * colour space is accepted.
   */
  lemma AsWrittenRefusesFormatHeader(width: uint32, height: uint32)
    ensures NewHeaderAsWritten(width, height, 4, 0).Err?
    ensures width != 0 && height != 0 ==>
      NewHeaderAsWritten(width, height, 4, 0) == Err(ArgumentException("channels"))
    ensures width == 0 ==> NewHeaderAsWritten(width, height, 4, 0) == Err(ArgumentException("width"))
    ensures width != 0 && height == 0 ==>
      NewHeaderAsWritten(width, height, 4, 0) == Err(ArgumentException("height"))
    ensures width != 0 && height != 0 ==>
      NewHeaderAsWritten(width, height, 5, 0) == Err(ArgumentException("colorspace"))
    ensures width != 0 && height != 0 ==> NewHeaderAsWritten(width, height, 5, 2).Ok?
  {
  }

  /** The intended constructor names the first field at fault, in the same order. */
  lemma NewHeaderRejects(width: uint32, height: uint32, channels: byte, colorspace: byte)
    ensures var r := NewHeader(width, height, channels, colorspace);
      && (r == Err(ArgumentException("width")) <==> width == 0)
      && (r == Err(ArgumentException("height")) <==> width != 0 && height == 0)
      && (r == Err(ArgumentException("channels")) <==> width != 0 && height != 0 && channels !in {3, 4})
      && (r == Err(ArgumentException("colorspace")) <==>
            width != 0 && height != 0 && channels in {3, 4} && colorspace !in {0, 1})
  {
  }

  /** The two constructors agree on width and height and disagree on every other decision. */
  lemma GuardsInverted(width: uint32, height: uint32, channels: byte, colorspace: byte)
    requires width != 0 && height != 0
    ensures NewHeaderAsWritten(width, height, channels, colorspace).Err?
      <==> channels in {3, 4} || colorspace in {0, 1}
    ensures NewHeader(width, height, channels, colorspace).Ok? ==>
      NewHeaderAsWritten(width, height, channels, colorspace).Err?
  {
  }
}
