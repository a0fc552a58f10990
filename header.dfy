/**
 * The CRLSet framing read by `getHeader` (crlset.go:311-339): a
 * little-endian `uint16` header length, that many bytes of JSON header, and
 * the body that follows.
 */
module Header {
  import opened Wrappers
  import opened Bytes
  import opened Errors

  /**
   * The JSON header of a CRLSet file. Decoding the JSON is not modelled:
   * callers supply the decoder as a function from header bytes to a header,
   * or `None` when `json.Unmarshal` reports an error.
   */
  datatype CrlSetHeader = CrlSetHeader(
    sequence: int,
    numParents: int,
    blockedSpkis: seq<string>,
    knownInterceptionSpkis: seq<string>,
    blockedInterceptionSpkis: seq<string>)

  /** The raw header bytes and the body after them. */
  datatype Framed = Framed(headerBytes: seq<byte>, rest: seq<byte>)

  /** A decoded header and the body after it, as `getHeader` returns them. */
  datatype Decoded = Decoded(header: CrlSetHeader, rest: seq<byte>)

  /**
   * Splits a CRLSet file into header bytes and body. The length prefix is
   * two bytes (a `uint16`), not four.
   */
  function SplitHeader(c: seq<byte>): (r: Result<Framed, Stage>)
    ensures |c| < 2 <==> r == Failure(HeaderLength)
    ensures 2 <= |c| ==>
      var n := c[0] as int + 0x100 * c[1] as int;
      && (|c| < 2 + n <==> r == Failure(Header))
      && (2 + n <= |c| ==> r == Success(Framed(c[2..2 + n], c[2 + n..])))
  {
    if |c| < 2 then Failure(HeaderLength)
    else
      var headerLen := U16LE(c[0], c[1]);
      var tail := c[2..];
      if |tail| < headerLen then Failure(Header)
      else
        assert tail[..headerLen] == c[2..2 + headerLen] && tail[headerLen..] == c[2 + headerLen..];
        Success(Framed(tail[..headerLen], tail[headerLen..]))
  }

  /** Framing a header and a body and splitting them again gives both back. */
  lemma SplitHeaderRoundTrip(h: seq<byte>, body: seq<byte>)
    requires |h| < 0x1_0000
    ensures SplitHeader(LE16(|h|) + h + body) == Success(Framed(h, body))
  {
    var c := LE16(|h|) + h + body;
    LE16RoundTrip(|h|);
    assert c[2..2 + |h|] == h;
    assert c[2 + |h|..] == body;
  }

  /** `getHeader` as a value: framing first, then the JSON decoder. */
  function DecodeHeader(c: seq<byte>, parse: seq<byte> -> Option<CrlSetHeader>): (r: Result<Decoded, Failure>)
    ensures r.Success? <==> SplitHeader(c).Success? && parse(SplitHeader(c).value.headerBytes).Some?
    ensures SplitHeader(c).Failure? ==> r == Failure(Truncated(SplitHeader(c).error))
    ensures SplitHeader(c).Success? && parse(SplitHeader(c).value.headerBytes).None? ==> r == Failure(HeaderUnparsable)
    ensures r.Success? ==> r.value.header == parse(SplitHeader(c).value.headerBytes).value
    ensures r.Success? ==> r.value.rest == SplitHeader(c).value.rest
  {
    match SplitHeader(c)
    case Failure(stage) => Failure(Truncated(stage))
    case Success(framed) =>
      match parse(framed.headerBytes)
      case None => Failure(HeaderUnparsable)
      case Some(header) => Success(Decoded(header, framed.rest))
  }

  /**
   * `getHeader` after the file has been read: advances the cursor `c` past
   * the length prefix and the header bytes, then decodes the header.
   */
  method GetHeader(file: seq<byte>, parse: seq<byte> -> Option<CrlSetHeader>) returns (r: Result<Decoded, Failure>)
    ensures r == DecodeHeader(file, parse)
  {
    var c := file;
    if |c| < 2 {
      return Failure(Truncated(HeaderLength));
    }
    var headerLen := U16LE(c[0], c[1]);
    c := c[2..];
    if |c| < headerLen {
      return Failure(Truncated(Header));
    }
    var headerBytes := c[..headerLen];
    c := c[headerLen..];
    var header := parse(headerBytes);
    if header.None? {
      return Failure(HeaderUnparsable);
    }
    return Success(Decoded(header.value, c));
  }
}
