/**
 * The `dump` command (crlset.go:197-273): read the header, optionally turn a
 * certificate into the SPKI hash used as a filter, then walk the body.
 *
 * Reading files, PEM and DER decoding and SHA-256 are not modelled: the
 * file arrives as bytes, and the certificate as a `Certificate` value that
 * says whether it could be read and parsed and, if so, gives the hash of
 * its SubjectPublicKeyInfo.
 */
module Dump {
  import opened Wrappers
  import opened Bytes
  import opened Errors
  import opened Header
  import opened Walk
  import opened Blocks
  import opened BodyProperties
  import opened OutputModes

  /** A SHA-256 digest: always 32 bytes. */
  type Digest = d: seq<byte> | |d| == SpkiHashLen witness seq(32, _ => 0)

  /** The certificate argument of `dump`, after reading and parsing it. */
  datatype Certificate =
    | NoCertificate                // no certificate file was named
    | Unreadable                   // the certificate file could not be read
    | Unparsable                   // neither PEM-wrapped nor raw DER parsed as X.509
    | Parsed(spkiHash: Digest)     // SHA-256 of the certificate's SubjectPublicKeyInfo

  /** Everything `dump` printed, and why it returned false, `None` when it returned true. */
  datatype Dumped = Dumped(out: seq<Line>, err: Option<Failure>)

  /** The filter a certificate gives: empty when there is none. */
  function FilterOf(cert: Certificate): (r: Result<seq<byte>, Failure>)
    ensures r.Failure? <==> cert.Unreadable? || cert.Unparsable?
    ensures cert.Unreadable? ==> r == Failure(CertificateUnreadable)
    ensures cert.Unparsable? ==> r == Failure(CertificateUnparsable)
    ensures r.Success? ==> (|r.value| == 0 <==> cert.NoCertificate?)
    ensures cert.Parsed? ==> r == Success(cert.spkiHash)
  {
    match cert
    case NoCertificate => Success([])
    case Unreadable => Failure(CertificateUnreadable)
    case Unparsable => Failure(CertificateUnparsable)
    case Parsed(h) => Success(h)
  }

  /** `dump` as a value. */
  function DumpFile(file: seq<byte>, parse: seq<byte> -> Option<CrlSetHeader>, cert: Certificate): (d: Dumped)
    ensures DecodeHeader(file, parse).Failure? ==> d == Dumped([], Some(DecodeHeader(file, parse).error))
    ensures DecodeHeader(file, parse).Success? && FilterOf(cert).Failure? ==> d == Dumped([], Some(FilterOf(cert).error))
    ensures d.err.Some? && !d.err.value.Truncated? ==> d.out == []
    ensures d.err.Some? && d.err.value in {Truncated(HeaderLength), Truncated(Header)} ==> d.out == []
  {
    match DecodeHeader(file, parse)
    case Failure(f) => Dumped([], Some(f))
    case Success(decoded) =>
      match FilterOf(cert)
      case Failure(f) => Dumped([], Some(f))
      case Success(filter) =>
        var w := WalkBody(decoded.rest, filter);
        assert w.err.Some? ==> w.err.value !in {HeaderLength, Header} by {
          WalkBodyAgree(decoded.rest, filter);
        }
        Dumped(w.out, if w.err.Some? then Some(Truncated(w.err.value)) else None)
  }

  /** `dump` itself: the header, then the certificate, then the body loop. */
  method Dump(file: seq<byte>, parse: seq<byte> -> Option<CrlSetHeader>, cert: Certificate)
    returns (out: seq<Line>, err: Option<Failure>)
    ensures Dumped(out, err) == DumpFile(file, parse, cert)
  {
    var r := GetHeader(file, parse);
    if r.Failure? {
      return [], Some(r.error);
    }
    var filter: seq<byte> := [];
    match cert {
      case NoCertificate =>
      case Unreadable =>
        return [], Some(CertificateUnreadable);
      case Unparsable =>
        return [], Some(CertificateUnparsable);
      case Parsed(h) =>
        filter := h;
    }
    var stage;
    out, stage := DumpBody(r.value.rest, filter);
    err := if stage.Some? then Some(Truncated(stage.value)) else None;
  }

  /**
   * `dump` returns true exactly when the header decodes, the certificate
   * (if any) is usable and the body decodes into whole blocks.
   */
  lemma DumpSucceeds(file: seq<byte>, parse: seq<byte> -> Option<CrlSetHeader>, cert: Certificate)
    ensures DumpFile(file, parse, cert).err.None?
            <==> && DecodeHeader(file, parse).Success?
                 && FilterOf(cert).Success?
                 && ParseBody(DecodeHeader(file, parse).value.rest).Success?
  {
    if DecodeHeader(file, parse).Success? && FilterOf(cert).Success? {
      WalkBodyAgree(DecodeHeader(file, parse).value.rest, FilterOf(cert).value);
    }
  }

  /** A CRLSet file framed from a header and well-formed blocks. */
  function CrlSetFile(h: seq<byte>, bs: seq<Block>): seq<byte>
    requires |h| < 0x1_0000 && AllWellFormed(bs)
  {
    LE16(|h|) + h + EncodeBody(bs)
  }

  /** A framed file decodes to its header and exactly its body: `DecodeExtended` with nothing appended. */
  lemma DecodeFramed(h: seq<byte>, bs: seq<Block>, parse: seq<byte> -> Option<CrlSetHeader>)
    requires |h| < 0x1_0000 && parse(h).Some? && AllWellFormed(bs)
    ensures DecodeHeader(CrlSetFile(h, bs), parse) == Success(Decoded(parse(h).value, EncodeBody(bs)))
  {
    DecodeExtended(h, bs, parse, []);
    assert CrlSetFile(h, bs) + [] == CrlSetFile(h, bs) && EncodeBody(bs) + [] == EncodeBody(bs);
  }

  /** Without a certificate, a well-formed file prints every (hash, serial) pair in order. */
  lemma DumpUnfiltered(h: seq<byte>, bs: seq<Block>, parse: seq<byte> -> Option<CrlSetHeader>)
    requires |h| < 0x1_0000 && parse(h).Some? && AllWellFormed(bs)
    ensures DumpFile(CrlSetFile(h, bs), parse, NoCertificate) == Dumped(Revocations(bs), None)
  {
    DecodeFramed(h, bs, parse);
    WalkEncodedBody(bs, []);
    UnfilteredRender(bs);
  }

  /**
   * With a certificate, a well-formed file prints the serials of exactly
   * the blocks whose hash is the certificate's SPKI hash, in order.
   */
  lemma DumpFiltered(h: seq<byte>, bs: seq<Block>, parse: seq<byte> -> Option<CrlSetHeader>, spkiHash: Digest)
    requires |h| < 0x1_0000 && parse(h).Some? && AllWellFormed(bs)
    ensures DumpFile(CrlSetFile(h, bs), parse, Parsed(spkiHash))
            == Dumped(MatchedLines(AllSerials(Matching(bs, spkiHash))), None)
  {
    DecodeFramed(h, bs, parse);
    WalkEncodedBody(bs, spkiHash);
    FilteredRender(bs, spkiHash);
  }

  /** Once the header is decoded and the filter known, `dump` reports what the body walk gives. */
  lemma DumpOfWalk(file: seq<byte>, parse: seq<byte> -> Option<CrlSetHeader>, cert: Certificate,
                   body: seq<byte>, filter: seq<byte>, out: seq<Line>, stage: Option<Stage>)
    requires DecodeHeader(file, parse).Success? && DecodeHeader(file, parse).value.rest == body
    requires FilterOf(cert) == Success(filter) && WalkBody(body, filter) == Walked(out, stage)
    ensures DumpFile(file, parse, cert) == Dumped(out, if stage.Some? then Some(Truncated(stage.value)) else None)
  {
  }

  /** Bytes appended after a framed file become part of the body the header decoder hands on. */
  lemma DecodeExtended(h: seq<byte>, bs: seq<Block>, parse: seq<byte> -> Option<CrlSetHeader>, cut: seq<byte>)
    requires |h| < 0x1_0000 && parse(h).Some? && AllWellFormed(bs)
    ensures DecodeHeader(CrlSetFile(h, bs) + cut, parse) == Success(Decoded(parse(h).value, EncodeBody(bs) + cut))
  {
    var file := CrlSetFile(h, bs) + cut;
    assert file == LE16(|h|) + h + (EncodeBody(bs) + cut) by {
      Assoc(LE16(|h|) + h, EncodeBody(bs), cut);
    }
    assert SplitHeader(file) == Success(Framed(h, EncodeBody(bs) + cut)) by {
      SplitHeaderRoundTrip(h, EncodeBody(bs) + cut);
    }
  }

  /** The unfiltered walk of whole blocks followed by a block cut inside a serial. */
  lemma WalkCutInSerial(bs: seq<Block>, spki: seq<byte>, n: nat, serials: seq<seq<byte>>,
                        serialLen: byte, partial: seq<byte>)
    requires AllWellFormed(bs)
    requires |spki| == SpkiHashLen && SerialsFit(serials) && |serials| < n < 0x1_0000_0000
    requires |partial| < serialLen as int
    ensures WalkBody(EncodeBody(bs) + (spki + LE32(n) + EncodeSerials(serials) + [serialLen] + partial), [])
            == Walked(Revocations(bs + [Block(spki, serials)]), Some(Serial))
  {
    TruncatedAtSerial(bs, spki, n, serials, serialLen, partial, []);
    RevocationsThenBlock(bs, spki, serials);
  }

  /**
   * A file cut inside an entry's serial bytes still prints the blocks and
   * serials before the cut, then reports "truncated at serial".
   */
  lemma DumpCutInSerial(h: seq<byte>, bs: seq<Block>, parse: seq<byte> -> Option<CrlSetHeader>,
                        spki: seq<byte>, n: nat, serials: seq<seq<byte>>, serialLen: byte, partial: seq<byte>)
    requires |h| < 0x1_0000 && parse(h).Some? && AllWellFormed(bs)
    requires |spki| == SpkiHashLen && SerialsFit(serials) && |serials| < n < 0x1_0000_0000
    requires |partial| < serialLen as int
    ensures var cut := spki + LE32(n) + EncodeSerials(serials) + [serialLen] + partial;
            DumpFile(CrlSetFile(h, bs) + cut, parse, NoCertificate)
            == Dumped(Revocations(bs + [Block(spki, serials)]), Some(Truncated(Serial)))
  {
    var cut := spki + LE32(n) + EncodeSerials(serials) + [serialLen] + partial;
    DecodeExtended(h, bs, parse, cut);
    WalkCutInSerial(bs, spki, n, serials, serialLen, partial);
    DumpOfWalk(CrlSetFile(h, bs) + cut, parse, NoCertificate, EncodeBody(bs) + cut, [],
               Revocations(bs + [Block(spki, serials)]), Some(Serial));
  }

  lemma RevocationsThenBlock(bs: seq<Block>, spki: seq<byte>, serials: seq<seq<byte>>)
    ensures Render(bs, []) + RenderSerials(spki, [], serials) == Revocations(bs + [Block(spki, serials)])
  {
    UnfilteredRender(bs);
    UnfilteredBlock(spki, serials);
    RevocationsAppend(bs, [Block(spki, serials)]);
    assert Revocations([Block(spki, serials)]) == RevokedLines(Block(spki, serials)) + [];
  }

  lemma {:induction false} RevocationsAppend(a: seq<Block>, b: seq<Block>)
    ensures Revocations(a + b) == Revocations(a) + Revocations(b)
  {
    if a == [] {
      assert a + b == b;
    } else {
      assert (a + b)[1..] == a[1..] + b;
      RevocationsAppend(a[1..], b);
    }
  }

  /** The JSON text `{}`: the smallest header `json.Unmarshal` accepts. */
  const EmptyObject: seq<byte> := [0x7B, 0x7D]

  /**
   * A header length of zero frames no JSON at all. `json.Unmarshal` rejects
   * empty input, so such a file fails with "Failed to parse header" and
   * prints nothing, whatever its body and certificate.
   */
  lemma EmptyHeaderRejected(body: seq<byte>, parse: seq<byte> -> Option<CrlSetHeader>, cert: Certificate)
    requires parse([]).None?
    ensures DumpFile([0, 0] + body, parse, cert) == Dumped([], Some(HeaderUnparsable))
  {
    assert DecodeHeader([0, 0] + body, parse) == Failure(HeaderUnparsable) by {
      SplitHeaderRoundTrip([], body);
      assert LE16(0) == [0, 0];
      assert LE16(0) + [] == [0, 0];
    }
  }

  /** The block of the worked file: hash `spki` with two serials, AB and 0102. */
  function ExampleBlock(spki: Digest): (b: Block)
    ensures WellFormed(b)
  {
    Block(spki, [[0xAB], [1, 2]])
  }

  /** A worked file: the header `{}`, then one block of hash `spki` whose count is `count`. */
  function ExampleFile(spki: Digest, count: byte): seq<byte>
  {
    [2, 0] + EmptyObject + spki + [count, 0, 0, 0, 1, 0xAB, 2, 1, 2]
  }

  lemma ExampleFraming(spki: Digest, count: byte)
    ensures ExampleFile(spki, count)
            == LE16(2) + EmptyObject + (spki + LE32(count as nat) + EncodeSerials([[0xAB], [1, 2]]))
    ensures count == 2 ==> ExampleFile(spki, count) == CrlSetFile(EmptyObject, [ExampleBlock(spki)])
  {
    var b := ExampleBlock(spki);
    assert EncodeSerials(b.serials) == [1, 0xAB, 2, 1, 2];
    assert LE32(count as nat) == [count, 0, 0, 0];
    assert EncodeBody([b]) == EncodeBlock(b) + [];
  }

  /** Unfiltered, the worked file prints both (hash, serial) pairs. */
  lemma ExampleUnfiltered(spki: Digest, parse: seq<byte> -> Option<CrlSetHeader>)
    requires parse(EmptyObject).Some?
    ensures DumpFile(ExampleFile(spki, 2), parse, NoCertificate)
            == Dumped([Revoked(spki, [0xAB]), Revoked(spki, [1, 2])], None)
  {
    ExampleFraming(spki, 2);
    DumpUnfiltered(EmptyObject, [ExampleBlock(spki)], parse);
    ExampleRevocations(spki);
  }

  lemma ExampleRevocations(spki: Digest)
    ensures Revocations([ExampleBlock(spki)]) == [Revoked(spki, [0xAB]), Revoked(spki, [1, 2])]
  {
    var b := ExampleBlock(spki);
    assert Revocations([b]) == RevokedLines(b) + Revocations([]);
    assert RevokedLines(b) == [Revoked(spki, [0xAB]), Revoked(spki, [1, 2])];
  }

  /** With the block's own hash as filter, the worked file prints both serials alone. */
  lemma ExampleMatching(spki: Digest, parse: seq<byte> -> Option<CrlSetHeader>)
    requires parse(EmptyObject).Some?
    ensures DumpFile(ExampleFile(spki, 2), parse, Parsed(spki)) == Dumped([Matched([0xAB]), Matched([1, 2])], None)
  {
    ExampleFraming(spki, 2);
    DumpFiltered(EmptyObject, [ExampleBlock(spki)], parse, spki);
    ExampleMatchedLines(spki);
  }

  lemma ExampleMatchedLines(spki: Digest)
    ensures MatchedLines(AllSerials(Matching([ExampleBlock(spki)], spki))) == [Matched([0xAB]), Matched([1, 2])]
  {
    var b := ExampleBlock(spki);
    assert Matching([b], spki) == [b] + Matching([], spki);
    assert AllSerials([b]) == b.serials + [];
  }

  /** With any other hash as filter, the worked file prints nothing and succeeds. */
  lemma ExampleOtherHash(spki: Digest, other: Digest, parse: seq<byte> -> Option<CrlSetHeader>)
    requires other != spki && parse(EmptyObject).Some?
    ensures DumpFile(ExampleFile(spki, 2), parse, Parsed(other)) == Dumped([], None)
  {
    ExampleFraming(spki, 2);
    DumpFiltered(EmptyObject, [ExampleBlock(spki)], parse, other);
    ExampleNoMatch(spki, other);
  }

  lemma ExampleNoMatch(spki: Digest, other: Digest)
    requires other != spki
    ensures MatchedLines(AllSerials(Matching([ExampleBlock(spki)], other))) == []
  {
    assert Matching([ExampleBlock(spki)], other) == Matching([], other);
  }

  /** The body of the worked file with the count raised to 3. */
  function RaisedBody(spki: Digest): seq<byte>
  {
    spki + LE32(3) + EncodeSerials([[0xAB], [1, 2]])
  }

  lemma RaisedHeader(spki: Digest, parse: seq<byte> -> Option<CrlSetHeader>)
    requires parse(EmptyObject).Some?
    ensures DecodeHeader(ExampleFile(spki, 3), parse) == Success(Decoded(parse(EmptyObject).value, RaisedBody(spki)))
  {
    ExampleFraming(spki, 3);
    SplitHeaderRoundTrip(EmptyObject, RaisedBody(spki));
  }

  /** Unfiltered, the worked block prints both (hash, serial) pairs. */
  lemma ExampleLines(spki: Digest)
    ensures RenderSerials(spki, [], [[0xAB], [1, 2]]) == [Revoked(spki, [0xAB]), Revoked(spki, [1, 2])]
  {
    var b := ExampleBlock(spki);
    UnfilteredBlock(spki, b.serials);
    assert RevokedLines(b) == [Revoked(spki, [0xAB]), Revoked(spki, [1, 2])];
  }

  lemma RaisedWalk(spki: Digest)
    ensures WalkBody(RaisedBody(spki), []) == Walked([Revoked(spki, [0xAB]), Revoked(spki, [1, 2])], Some(SerialLength))
  {
    TruncatedAtSerialLength([], spki, 3, [[0xAB], [1, 2]], []);
    assert EncodeBody([]) + RaisedBody(spki) == RaisedBody(spki);
    assert Render([], []) == [];
    ExampleLines(spki);
  }

  /** With the count raised to 3, both serials print and then "truncated at serial length". */
  lemma ExampleRaisedCount(spki: Digest, parse: seq<byte> -> Option<CrlSetHeader>)
    requires parse(EmptyObject).Some?
    ensures DumpFile(ExampleFile(spki, 3), parse, NoCertificate)
            == Dumped([Revoked(spki, [0xAB]), Revoked(spki, [1, 2])], Some(Truncated(SerialLength)))
  {
    RaisedHeader(spki, parse);
    RaisedWalk(spki);
    DumpOfWalk(ExampleFile(spki, 3), parse, NoCertificate, RaisedBody(spki), [],
               [Revoked(spki, [0xAB]), Revoked(spki, [1, 2])], Some(SerialLength));
  }
}
