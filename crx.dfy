/**
 * The CRX container check inside `fetch` (crlset.go:135-155), the zip entry
 * lookup after it (crlset.go:163-169) and `zipReader.ReadAt`
 * (crlset.go:79-86).
 *
 * A CRX file starts with a 12-byte little-endian header: the magic "Cr24",
 * a `uint32` version that is read but never checked, and a `uint32` length
 * of the signed header that follows. The zip archive is everything after
 * the signed header.
 */
module Crx {
  import opened Wrappers
  import opened Bytes

  /** Why a downloaded file was rejected. */
  datatype CrxError =
    | HeaderUnreadable  // "Failed to parse CRX header": fewer than 12 bytes
    | NotACrx           // "Downloaded file doesn't look like a CRX"

  /** "Cr24" in ASCII. */
  const Magic: seq<byte> := [0x43, 0x72, 0x32, 0x34]

  /** Size of the fixed header: magic, version and signed-header length. */
  const CrxHeaderLen: nat := 12

  /** The zip payload of a CRX file, or why there is none. */
  function ParseCrx(x: seq<byte>): (r: Result<seq<byte>, CrxError>)
    ensures |x| < CrxHeaderLen <==> r == Failure(HeaderUnreadable)
    ensures CrxHeaderLen <= |x| && x[..4] != Magic ==> r == Failure(NotACrx)
    ensures CrxHeaderLen <= |x| && x[..4] == Magic ==>
              var signedLen := x[8] as int + 0x100 * x[9] as int + 0x1_0000 * x[10] as int + 0x100_0000 * x[11] as int;
              && (|x| - CrxHeaderLen < signedLen <==> r == Failure(NotACrx))
              && (signedLen <= |x| - CrxHeaderLen ==> r == Success(x[CrxHeaderLen + signedLen..]))
  {
    if |x| < CrxHeaderLen then Failure(HeaderUnreadable)
    else if x[..4] != Magic then Failure(NotACrx)
    else
      var signedLen := U32LE(x[8], x[9], x[10], x[11]);
      if |x| - CrxHeaderLen < signedLen then Failure(NotACrx)
      else Success(x[CrxHeaderLen + signedLen..])
  }

  /** Wrapping a zip archive in a CRX header and a signed header gives the archive back. */
  lemma CrxRoundTrip(version: nat, signed: seq<byte>, zip: seq<byte>)
    requires version < 0x1_0000_0000 && |signed| < 0x1_0000_0000
    ensures ParseCrx(Magic + LE32(version) + LE32(|signed|) + signed + zip) == Success(zip)
  {
    var x := Magic + LE32(version) + LE32(|signed|) + signed + zip;
    assert x[..4] == Magic;
    assert x[8..12] == LE32(|signed|);
    LE32RoundTrip(|signed|);
    assert x[CrxHeaderLen + |signed|..] == zip;
  }

  /** The version field plays no part in the verdict. */
  lemma VersionIgnored(x: seq<byte>, version: seq<byte>)
    requires CrxHeaderLen <= |x| && |version| == 4
    ensures ParseCrx(x[..4] + version + x[8..]) == ParseCrx(x)
  {
    var y := x[..4] + version + x[8..];
    assert y[..4] == x[..4];
    assert y[8..] == x[8..];
    assert y[8] == x[8] && y[9] == x[9] && y[10] == x[10] && y[11] == x[11];
    var signedLen := U32LE(x[8], x[9], x[10], x[11]);
    if signedLen <= |x| - CrxHeaderLen {
      assert y[CrxHeaderLen + signedLen..] == y[8..][4 + signedLen..] == x[8..][4 + signedLen..];
    }
  }

  /**
   * The `bytes.Buffer` that `fetch` reads the CRX through: the downloaded
   * bytes and how many of them have been consumed.
   */
  class Buffer {
    var data: seq<byte>
    var off: nat

    ghost predicate Valid()
      reads this
    {
      off <= |data|
    }

    /** The unread portion, which `Bytes` returns. */
    function Unread(): (u: seq<byte>)
      reads this
      requires Valid()
      ensures |u| == |data| - off
      ensures data[..off] + u == data
    {
      data[off..]
    }

    constructor(bytes: seq<byte>)
      ensures Valid() && Unread() == bytes
    {
      data := bytes;
      off := 0;
    }

    /**
     * `io.ReadFull` on the buffer, as `binary.Read` uses it: consumes up to
     * `n` bytes and succeeds only when all `n` were there.
     */
    method ReadFull(n: nat) returns (p: seq<byte>, ok: bool)
      requires Valid()
      modifies this
      ensures Valid()
      ensures ok <==> n <= |old(Unread())|
      ensures p == old(Unread())[..Min(n, |old(Unread())|)]
      ensures Unread() == old(Unread())[Min(n, |old(Unread())|)..]
    {
      var k := Min(n, |data| - off);
      p := data[off..off + k];
      off := off + k;
      ok := k == n;
    }

    /** `Next`: the next `n` bytes, or all that is left when fewer remain. */
    method Next(n: nat) returns (p: seq<byte>)
      requires Valid()
      modifies this
      ensures Valid()
      ensures p == old(Unread())[..Min(n, |old(Unread())|)]
      ensures Unread() == old(Unread())[Min(n, |old(Unread())|)..]
    {
      var k := Min(n, |data| - off);
      p := data[off..off + k];
      off := off + k;
    }
  }

  /**
   * The container check of `fetch`: read the 12-byte header, check the
   * magic, skip the signed header and keep what is left.
   */
  method ExtractZip(crx: seq<byte>) returns (r: Result<seq<byte>, CrxError>)
    ensures r == ParseCrx(crx)
  {
    var buf := new Buffer(crx);
    var header, ok := buf.ReadFull(CrxHeaderLen);
    if !ok {
      return Failure(HeaderUnreadable);
    }
    assert header == crx[..CrxHeaderLen];
    // The version, header[4..8], is never looked at. With a 64-bit `int`,
    // `int(HeaderLen) < 0` never holds, so only the magic is checked here.
    var signedLen := U32LE(header[8], header[9], header[10], header[11]);
    if header[..4] != Magic {
      return Failure(NotACrx);
    }
    var signed := buf.Next(signedLen);
    if |signed| != signedLen {
      return Failure(NotACrx);
    }
    assert buf.Unread() == crx[CrxHeaderLen..][signedLen..];
    return Success(buf.Unread());
  }

  /** The name of the archive entry that holds the CRLSet. */
  const CrlSetEntry: string := "crl-set"

  /** The first entry named "crl-set", as the lookup loop of `fetch` finds it. */
  method FindCrlSet(names: seq<string>) returns (found: Option<nat>)
    ensures found.None? <==> CrlSetEntry !in names
    ensures found.Some? ==>
              && found.value < |names| && names[found.value] == CrlSetEntry
              && forall k :: 0 <= k < found.value ==> names[k] != CrlSetEntry
  {
    var i := 0;
    while i < |names|
      invariant 0 <= i <= |names|
      invariant forall k :: 0 <= k < i ==> names[k] != CrlSetEntry
    {
      if names[i] == CrlSetEntry {
        return Some(i);
      }
      i := i + 1;
    }
    return None;
  }

  /** `zipReader`: the zip payload, read at arbitrary offsets by the zip library. */
  datatype ZipReader = ZipReader(z: seq<byte>)
  {
    /**
     * `ReadAt`: a negative offset reads nothing; otherwise as many bytes as
     * fit in `p` and remain after `pos` are copied to the front of `p`. The
     * error result is always nil and is not modelled. Go panics when `pos`
     * lies beyond the end of `z`, so callers must not do that.
     */
    method ReadAt(p: array<byte>, pos: int) returns (n: int)
      requires pos <= |z|
      modifies p
      ensures pos < 0 ==> n == 0 && p[..] == old(p[..])
      ensures 0 <= pos ==> n == Min(p.Length, |z| - pos)
      ensures 0 <= pos ==> p[..n] == z[pos..pos + n] && p[n..] == old(p[n..])
    {
      if pos < 0 {
        return 0;
      }
      n := Min(p.Length, |z| - pos);
      forall i | 0 <= i < n {
        p[i] := z[pos + i];
      }
    }
  }
}
