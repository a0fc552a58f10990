/**
 * The CRLSet body as structured data: blocks of an SPKI hash and the serials
 * revoked under it. `ParseBody` decodes a body into blocks, `EncodeBody`
 * writes blocks back as bytes, and `Render` is what `dump` prints for a list
 * of blocks. The lemmas tie these to `Walk.WalkBody`, the byte-level walk
 * that `dump` performs.
 */
module Blocks {
  import opened Wrappers
  import opened Bytes
  import opened Errors
  import opened Walk

  /** One SPKI block of the body. */
  datatype Block = Block(spki: seq<byte>, serials: seq<seq<byte>>)

  /** Entries decoded for one block and the bytes after them. */
  datatype Entries = Entries(serials: seq<seq<byte>>, rest: seq<byte>)

  /** A serial fits its one-byte length prefix. */
  predicate SerialsFit(serials: seq<seq<byte>>)
  {
    forall i :: 0 <= i < |serials| ==> |serials[i]| < 0x100
  }

  /** A block the format can carry: a 32-byte hash, a `uint32` count, short serials. */
  predicate WellFormed(b: Block)
  {
    |b.spki| == SpkiHashLen && |b.serials| < 0x1_0000_0000 && SerialsFit(b.serials)
  }

  predicate AllWellFormed(bs: seq<Block>)
  {
    forall i :: 0 <= i < |bs| ==> WellFormed(bs[i])
  }

  // ----- Decoding -----

  /** Decodes `n` entries `{len:u8, serial[len]}`. */
  function ParseSerials(c: seq<byte>, n: nat): (r: Result<Entries, Stage>)
    ensures r.Success? ==> |r.value.serials| == n && SerialsFit(r.value.serials) && |r.value.rest| <= |c|
    ensures r.Failure? ==> r.error in {SerialLength, Serial}
    decreases n
  {
    if n == 0 then Success(Entries([], c))
    else if |c| < 1 then Failure(SerialLength)
    else
      var serialLen := c[0] as int;
      var tail := c[1..];
      if |tail| < serialLen then Failure(Serial)
      else
        match ParseSerials(tail[serialLen..], n - 1)
        case Failure(stage) => Failure(stage)
        case Success(e) => Success(Entries([tail[..serialLen]] + e.serials, e.rest))
  }

  /** Decodes a whole body into blocks, or names the field that is cut short. */
  function ParseBody(c: seq<byte>): (r: Result<seq<Block>, Stage>)
    ensures r.Success? ==> AllWellFormed(r.value)
    ensures r.Failure? ==> r.error in {SpkiHash, SerialCount, SerialLength, Serial}
    decreases |c|
  {
    if |c| == 0 then Success([])
    else if |c| < SpkiHashLen then Failure(SpkiHash)
    else
      var spki := c[..SpkiHashLen];
      var tail := c[SpkiHashLen..];
      if |tail| < 4 then Failure(SerialCount)
      else
        match ParseSerials(tail[4..], U32LE(tail[0], tail[1], tail[2], tail[3]))
        case Failure(stage) => Failure(stage)
        case Success(e) =>
          match ParseBody(e.rest)
          case Failure(stage) => Failure(stage)
          case Success(bs) => Success([Block(spki, e.serials)] + bs)
  }

  // ----- Encoding -----

  function EncodeSerials(serials: seq<seq<byte>>): seq<byte>
    requires SerialsFit(serials)
  {
    if serials == [] then []
    else [|serials[0]| as byte] + serials[0] + EncodeSerials(serials[1..])
  }

  function EncodeBlock(b: Block): seq<byte>
    requires WellFormed(b)
  {
    b.spki + LE32(|b.serials|) + EncodeSerials(b.serials)
  }

  function EncodeBody(bs: seq<Block>): seq<byte>
    requires AllWellFormed(bs)
  {
    if bs == [] then [] else EncodeBlock(bs[0]) + EncodeBody(bs[1..])
  }

  /** Bytes taken by the entries of a block: a length byte plus the serial, each. */
  function EntriesSize(serials: seq<seq<byte>>): nat
  {
    if serials == [] then 0 else 1 + |serials[0]| + EntriesSize(serials[1..])
  }

  /** Bytes taken by a body: per block, 32 + 4 + the size of its entries. */
  function BodySize(bs: seq<Block>): nat
  {
    if bs == [] then 0 else SpkiHashLen + 4 + EntriesSize(bs[0].serials) + BodySize(bs[1..])
  }

  // ----- Output -----

  /** The lines printed for the serials of one block. */
  function RenderSerials(spki: seq<byte>, filter: seq<byte>, serials: seq<seq<byte>>): seq<Line>
  {
    if serials == [] then [] else Emit(spki, filter, serials[0]) + RenderSerials(spki, filter, serials[1..])
  }

  /** The lines printed for a list of blocks. */
  function Render(bs: seq<Block>, filter: seq<byte>): seq<Line>
  {
    if bs == [] then [] else RenderSerials(bs[0].spki, filter, bs[0].serials) + Render(bs[1..], filter)
  }

  // ----- Byte accounting and round trips -----

  /** The encoding of the entries has exactly the size counted by `EntriesSize`. */
  lemma {:induction false} EncodeSerialsSize(serials: seq<seq<byte>>)
    requires SerialsFit(serials)
    ensures |EncodeSerials(serials)| == EntriesSize(serials)
  {
    if serials != [] {
      EncodeSerialsSize(serials[1..]);
    }
  }

  /** A body of blocks takes `32 + 4 + sum(1 + len)` bytes per block, nothing more. */
  lemma {:induction false} EncodeBodySize(bs: seq<Block>)
    requires AllWellFormed(bs)
    ensures |EncodeBody(bs)| == BodySize(bs)
  {
    if bs != [] {
      assert bs[0] in bs;
      EncodeSerialsSize(bs[0].serials);
      EncodeBodySize(bs[1..]);
    }
  }

  /** One entry: a length byte and that many serial bytes, then `rest`. */
  lemma ParseSerialsEntry(s: seq<byte>, rest: seq<byte>, n: nat)
    requires |s| < 0x100 && n > 0
    ensures ParseSerials([|s| as byte] + s + rest, n)
            == match ParseSerials(rest, n - 1)
               case Failure(stage) => Failure(stage)
               case Success(e) => Success(Entries([s] + e.serials, e.rest))
  {
    var c := [|s| as byte] + s + rest;
    assert c[1..] == s + rest;
    assert (s + rest)[..|s|] == s;
    assert (s + rest)[|s|..] == rest;
  }

  /** The first entry of an encoding: its length byte, its bytes, then the later entries. */
  lemma EncodedFirst(serials: seq<seq<byte>>, rest: seq<byte>)
    requires SerialsFit(serials) && |serials| > 0
    ensures var c := EncodeSerials(serials) + rest;
            && 1 <= |c| && c[0] as int == |serials[0]| <= |c| - 1
            && c[1..][..c[0]] == serials[0]
            && c[1..][c[0]..] == EncodeSerials(serials[1..]) + rest
  {
    var s := serials[0];
    var later := EncodeSerials(serials[1..]) + rest;
    assert EncodeSerials(serials) == [|s| as byte] + s + EncodeSerials(serials[1..]);
    Assoc([|s| as byte] + s, EncodeSerials(serials[1..]), rest);
    LengthPrefixed(|s| as byte, s, later);
  }

  /** A length byte, that many bytes, and what follows, taken apart again. */
  lemma LengthPrefixed(len: byte, s: seq<byte>, later: seq<byte>)
    requires |s| == len as int
    ensures var c := [len] + s + later;
            && 1 <= |c| && c[0] == len && c[1..][..len] == s && c[1..][len..] == later
  {
    var c := [len] + s + later;
    assert c[1..] == s + later;
  }

  /** Entries decode back from their encoding, whatever follows them. */
  lemma {:induction false} ParseEncodedSerials(serials: seq<seq<byte>>, tail: seq<byte>)
    requires SerialsFit(serials)
    ensures ParseSerials(EncodeSerials(serials) + tail, |serials|) == Success(Entries(serials, tail))
  {
    if serials != [] {
      var s := serials[0];
      var rest := EncodeSerials(serials[1..]) + tail;
      assert EncodeSerials(serials) == [|s| as byte] + s + EncodeSerials(serials[1..]);
      Assoc([|s| as byte] + s, EncodeSerials(serials[1..]), tail);
      ParseEncodedSerials(serials[1..], tail);
      assert ParseSerials(rest, |serials| - 1) == Success(Entries(serials[1..], tail));
      ParseSerialsEntry(s, rest, |serials|);
      assert [s] + serials[1..] == serials;
    } else {
      assert EncodeSerials(serials) + tail == tail;
    }
  }

  /** Splitting an encoded block into its fields. */
  lemma EncodeBlockFields(b: Block, tail: seq<byte>)
    requires WellFormed(b)
    ensures var c := EncodeBlock(b) + tail;
            && |c| >= SpkiHashLen + 4
            && c[..SpkiHashLen] == b.spki
            && c[SpkiHashLen..][..4] == LE32(|b.serials|)
            && c[SpkiHashLen..][4..] == EncodeSerials(b.serials) + tail
  {
    var c := EncodeBlock(b) + tail;
    assert c == b.spki + (LE32(|b.serials|) + (EncodeSerials(b.serials) + tail));
  }

  /** Every well-formed list of blocks decodes back from its encoding. */
  lemma {:induction false} ParseEncodedBody(bs: seq<Block>)
    requires AllWellFormed(bs)
    ensures ParseBody(EncodeBody(bs)) == Success(bs)
  {
    if bs != [] {
      var b := bs[0];
      var rest := EncodeBody(bs[1..]);
      var c := EncodeBody(bs);
      assert c == EncodeBlock(b) + rest;
      EncodeBlockFields(b, rest);
      var tail := c[SpkiHashLen..];
      LE32RoundTrip(|b.serials|);
      assert U32LE(tail[0], tail[1], tail[2], tail[3]) == |b.serials|;
      ParseEncodedSerials(b.serials, rest);
      ParseEncodedBody(bs[1..]);
      assert [b] + bs[1..] == bs;
    }
  }

  /** A successful decode of `n > 0` entries starts with one whole entry. */
  lemma ParseSerialsFirst(c: seq<byte>, n: nat, serials: seq<seq<byte>>, rest: seq<byte>)
    requires n > 0 && ParseSerials(c, n) == Success(Entries(serials, rest))
    ensures 1 <= |c| && c[0] as int <= |c| - 1 && |serials| > 0
    ensures serials[0] == c[1..][..c[0]]
    ensures ParseSerials(c[1..][c[0]..], n - 1) == Success(Entries(serials[1..], rest))
  {
    var later := c[1..][c[0]..];
    var e := ParseSerials(later, n - 1).value;
    assert serials == [c[1..][..c[0]]] + e.serials;
    assert serials[1..] == e.serials;
  }

  /** Decoded entries are exactly the bytes they were decoded from. */
  lemma {:induction false} ParsedSerialsEncode(c: seq<byte>, n: nat, serials: seq<seq<byte>>, rest: seq<byte>)
    requires ParseSerials(c, n) == Success(Entries(serials, rest))
    ensures EncodeSerials(serials) + rest == c
    decreases n
  {
    if n > 0 {
      ParseSerialsFirst(c, n, serials, rest);
      var later := c[1..][c[0]..];
      ParsedSerialsEncode(later, n - 1, serials[1..], rest);
      EntryBytes(c, serials, EncodeSerials(serials[1..]), rest);
    }
  }

  /** Reassembles the bytes of a first entry and of what follows it. */
  lemma EntryBytes(c: seq<byte>, serials: seq<seq<byte>>, encodedLater: seq<byte>, rest: seq<byte>)
    requires 1 <= |c| && c[0] as int <= |c| - 1 && |serials| > 0 && SerialsFit(serials)
    requires serials[0] == c[1..][..c[0]]
    requires encodedLater == EncodeSerials(serials[1..]) && encodedLater + rest == c[1..][c[0]..]
    ensures EncodeSerials(serials) + rest == c
  {
    var s := serials[0];
    var tail := c[1..];
    assert |s| as byte == c[0];
    assert EncodeSerials(serials) == [c[0]] + s + encodedLater;
    Regroup([c[0]], s, encodedLater, rest);
    SliceSplit(tail, c[0] as int);
    assert [c[0]] + tail == c;
  }

  lemma Regroup(a: seq<byte>, b: seq<byte>, x: seq<byte>, y: seq<byte>)
    ensures a + b + x + y == a + (b + (x + y))
  {
  }

  lemma SliceSplit(t: seq<byte>, k: nat)
    requires k <= |t|
    ensures t[..k] + t[k..] == t
  {
  }

  lemma Assoc(a: seq<byte>, b: seq<byte>, c: seq<byte>)
    ensures a + b + c == a + (b + c)
  {
  }

  /** A decoded block re-encodes to the bytes it was decoded from. */
  lemma ParsedBlockEncode(c: seq<byte>, serials: seq<seq<byte>>, rest: seq<byte>)
    requires |c| >= SpkiHashLen + 4
    requires var tail := c[SpkiHashLen..];
             ParseSerials(tail[4..], U32LE(tail[0], tail[1], tail[2], tail[3])) == Success(Entries(serials, rest))
    ensures WellFormed(Block(c[..SpkiHashLen], serials))
    ensures EncodeBlock(Block(c[..SpkiHashLen], serials)) + rest == c
  {
    var tail := c[SpkiHashLen..];
    var n := U32LE(tail[0], tail[1], tail[2], tail[3]);
    assert EncodeSerials(serials) + rest == tail[4..] by {
      ParsedSerialsEncode(tail[4..], n, serials, rest);
    }
    assert LE32(|serials|) == tail[..4] by {
      LE32OfU32LE(tail[0], tail[1], tail[2], tail[3]);
      assert tail[..4] == [tail[0], tail[1], tail[2], tail[3]];
    }
    assert tail[..4] + tail[4..] == tail;
    assert c[..SpkiHashLen] + tail == c;
    Regroup(c[..SpkiHashLen], LE32(|serials|), EncodeSerials(serials), rest);
  }

  /**
   * A successful decode consumes every byte of the body exactly once: the
   * blocks it yields re-encode to the very same bytes.
   */
  lemma {:induction false} ParsedBodyEncode(c: seq<byte>)
    requires ParseBody(c).Success?
    ensures EncodeBody(ParseBody(c).value) == c
    ensures BodySize(ParseBody(c).value) == |c|
    decreases |c|
  {
    var bs := ParseBody(c).value;
    if |c| > 0 {
      var tail := c[SpkiHashLen..];
      var n := U32LE(tail[0], tail[1], tail[2], tail[3]);
      var e := ParseSerials(tail[4..], n).value;
      ParsedBlockEncode(c, e.serials, e.rest);
      ParsedBodyEncode(e.rest);
      assert bs == [Block(c[..SpkiHashLen], e.serials)] + ParseBody(e.rest).value;
      assert bs[1..] == ParseBody(e.rest).value;
    }
    EncodeBodySize(bs);
  }
}
