/**
 * What the body walk of `dump` guarantees, stated over the block view of
 * the body: agreement with the block decoder, output of blocks already
 * read surviving a later truncation, the stage reported for each kind of
 * truncation, and the two output modes.
 */
module BodyProperties {
  import opened Wrappers
  import opened Bytes
  import opened Errors
  import opened Walk
  import opened Blocks

  /** The stage a decode failed at, `None` when it succeeded. */
  function ErrOf<T>(r: Result<T, Stage>): Option<Stage>
  {
    if r.Success? then None else Some(r.error)
  }

  // ----- The walk agrees with the block decoder -----

  /**
   * The inner loop fails exactly when the entry decoder does, at the same
   * stage; on success it prints the decoded serials and stops where the
   * decoder stops.
   */
  lemma {:induction false} WalkSerialsAgree(spki: seq<byte>, filter: seq<byte>, c: seq<byte>, n: nat)
    ensures WalkSerials(spki, filter, c, n).err == ErrOf(ParseSerials(c, n))
    ensures ParseSerials(c, n).Success? ==>
              && WalkSerials(spki, filter, c, n).out == RenderSerials(spki, filter, ParseSerials(c, n).value.serials)
              && WalkSerials(spki, filter, c, n).rest == ParseSerials(c, n).value.rest
    decreases n
  {
    if n > 0 && 1 <= |c| && c[0] as int <= |c| - 1 {
      var later := c[1..][c[0]..];
      WalkSerialsAgree(spki, filter, later, n - 1);
      WalkSerialsEntry(spki, filter, c, n);
      if ParseSerials(c, n).Success? {
        var e := ParseSerials(c, n).value;
        ParseSerialsFirst(c, n, e.serials, e.rest);
      }
    }
  }

  /**
   * `dump` reports success exactly when the body decodes into blocks, and
   * fails at the same stage otherwise; on success it prints `Render` of
   * those blocks.
   */
  lemma {:induction false} WalkBodyAgree(c: seq<byte>, filter: seq<byte>)
    ensures WalkBody(c, filter).err == ErrOf(ParseBody(c))
    ensures ParseBody(c).Success? ==> WalkBody(c, filter).out == Render(ParseBody(c).value, filter)
    decreases |c|
  {
    if |c| >= SpkiHashLen + 4 {
      var tail := c[SpkiHashLen..];
      var n := U32LE(tail[0], tail[1], tail[2], tail[3]);
      var spki := c[..SpkiHashLen];
      WalkBodyBlock(c, filter);
      WalkSerialsAgree(spki, filter, tail[4..], n);
      var p := ParseSerials(tail[4..], n);
      if p.Success? {
        WalkBodyAgree(p.value.rest, filter);
        if ParseBody(c).Success? {
          var bs := ParseBody(c).value;
          assert bs == [Block(spki, p.value.serials)] + ParseBody(p.value.rest).value;
          assert bs[1..] == ParseBody(p.value.rest).value;
        }
      }
    }
  }

  /** Whether the walk succeeds, and where it fails, does not depend on the filter. */
  lemma FilterKeepsOutcome(c: seq<byte>, filter: seq<byte>, other: seq<byte>)
    ensures WalkBody(c, filter).err == WalkBody(c, other).err
  {
    WalkBodyAgree(c, filter);
    WalkBodyAgree(c, other);
  }

  // ----- Well-formed bodies and incremental output -----

  /** The first entry's line goes in front of what the walk of the later entries prints. */
  lemma WalkSerialsStep(spki: seq<byte>, filter: seq<byte>, c: seq<byte>, n: nat, serials: seq<seq<byte>>,
                        after: SerialsWalked)
    requires n > 0 && 1 <= |c| && c[0] as int <= |c| - 1 && |serials| > 0
    requires serials[0] == c[1..][..c[0]]
    requires WalkSerials(spki, filter, c[1..][c[0]..], n - 1) == Prepend(RenderSerials(spki, filter, serials[1..]), after)
    ensures WalkSerials(spki, filter, c, n) == Prepend(RenderSerials(spki, filter, serials), after)
  {
    WalkSerialsEntry(spki, filter, c, n);
    PrependTwice(Emit(spki, filter, serials[0]), RenderSerials(spki, filter, serials[1..]), after);
  }

  /** Encoded entries are walked through, printing each; the loop then goes on with what follows. */
  lemma {:induction false} WalkEncodedSerials(spki: seq<byte>, filter: seq<byte>, serials: seq<seq<byte>>,
                                              rest: seq<byte>, n: nat)
    requires SerialsFit(serials) && |serials| <= n
    ensures WalkSerials(spki, filter, EncodeSerials(serials) + rest, n)
            == Prepend(RenderSerials(spki, filter, serials), WalkSerials(spki, filter, rest, n - |serials|))
    decreases |serials|
  {
    if serials == [] {
      assert EncodeSerials(serials) + rest == rest;
      assert [] + WalkSerials(spki, filter, rest, n).out == WalkSerials(spki, filter, rest, n).out;
    } else {
      WalkEncodedSerials(spki, filter, serials[1..], rest, n - 1);
      WalkEncodedFirst(spki, filter, serials, rest, n);
    }
  }

  /** The inductive step of `WalkEncodedSerials`: from the later entries to all of them. */
  lemma WalkEncodedFirst(spki: seq<byte>, filter: seq<byte>, serials: seq<seq<byte>>, rest: seq<byte>, n: nat)
    requires SerialsFit(serials) && 0 < |serials| <= n
    requires WalkSerials(spki, filter, EncodeSerials(serials[1..]) + rest, n - 1)
             == Prepend(RenderSerials(spki, filter, serials[1..]), WalkSerials(spki, filter, rest, n - 1 - |serials[1..]|))
    ensures WalkSerials(spki, filter, EncodeSerials(serials) + rest, n)
            == Prepend(RenderSerials(spki, filter, serials), WalkSerials(spki, filter, rest, n - |serials|))
  {
    assert n - 1 - |serials[1..]| == n - |serials|;
    EncodedFirst(serials, rest);
    WalkSerialsStep(spki, filter, EncodeSerials(serials) + rest, n, serials, WalkSerials(spki, filter, rest, n - |serials|));
  }

  /**
   * A block whose hash, count and first entries are all present: those
   * entries are printed, and the walk carries on with the entries still owed.
   */
  lemma WalkPartialBlock(c: seq<byte>, spki: seq<byte>, n: nat, serials: seq<seq<byte>>, rest: seq<byte>,
                         filter: seq<byte>)
    requires |spki| == SpkiHashLen && SerialsFit(serials) && |serials| <= n < 0x1_0000_0000
    requires c == spki + LE32(n) + (EncodeSerials(serials) + rest)
    ensures var s := WalkSerials(spki, filter, rest, n - |serials|);
            var printed := RenderSerials(spki, filter, serials) + s.out;
            WalkBody(c, filter)
            == if s.err.Some? then Walked(printed, s.err) else Then(printed, WalkBody(s.rest, filter))
  {
    assert c[..SpkiHashLen] == spki;
    var tail := c[SpkiHashLen..];
    assert tail == LE32(n) + (EncodeSerials(serials) + rest);
    assert tail[4..] == EncodeSerials(serials) + rest;
    assert U32LE(tail[0], tail[1], tail[2], tail[3]) == n by {
      LE32RoundTrip(n);
    }
    WalkBodyBlock(c, filter);
    WalkEncodedSerials(spki, filter, serials, rest, n);
  }

  /** A whole encoded block is printed, then the walk goes on with what follows it. */
  lemma WalkBlockAt(c: seq<byte>, b: Block, rest: seq<byte>, filter: seq<byte>)
    requires WellFormed(b) && c == EncodeBlock(b) + rest
    ensures WalkBody(c, filter) == Then(RenderSerials(b.spki, filter, b.serials), WalkBody(rest, filter))
  {
    assert c == b.spki + LE32(|b.serials|) + (EncodeSerials(b.serials) + rest);
    WalkPartialBlock(c, b.spki, |b.serials|, b.serials, rest, filter);
    assert RenderSerials(b.spki, filter, b.serials) + [] == RenderSerials(b.spki, filter, b.serials);
  }

  /**
   * Whole blocks are printed as they are read: a walk over well-formed
   * blocks followed by anything prints those blocks, then whatever the
   * walk of the remainder prints, and ends as that walk ends. Lines printed
   * before a later truncation are therefore never taken back.
   */
  lemma {:induction false} WalkAfterBlocks(bs: seq<Block>, tail: seq<byte>, filter: seq<byte>)
    requires AllWellFormed(bs)
    ensures WalkBody(EncodeBody(bs) + tail, filter) == Then(Render(bs, filter), WalkBody(tail, filter))
  {
    if bs == [] {
      assert EncodeBody(bs) + tail == tail;
    } else {
      var b := bs[0];
      assert b in bs;
      var rest := EncodeBody(bs[1..]) + tail;
      assert EncodeBody(bs) + tail == EncodeBlock(b) + rest;
      WalkBlockAt(EncodeBody(bs) + tail, b, rest, filter);
      WalkAfterBlocks(bs[1..], tail, filter);
      ThenTwice(RenderSerials(b.spki, filter, b.serials), Render(bs[1..], filter), WalkBody(tail, filter));
    }
  }

  /** A well-formed body is walked to its end without error, printing `Render` of its blocks. */
  lemma WalkEncodedBody(bs: seq<Block>, filter: seq<byte>)
    requires AllWellFormed(bs)
    ensures WalkBody(EncodeBody(bs), filter) == Walked(Render(bs, filter), None)
  {
    WalkAfterBlocks(bs, [], filter);
    assert EncodeBody(bs) + [] == EncodeBody(bs);
    assert Render(bs, filter) + [] == Render(bs, filter);
  }

  // ----- Truncation -----

  /**
   * A body cut inside a block's hash or count field fails at "SPKI hash"
   * (first 32 bytes) or "serial count" (next 4), for every cut point, after
   * printing the blocks before it.
   */
  lemma TruncatedBlockHeader(bs: seq<Block>, b: Block, k: nat, filter: seq<byte>)
    requires AllWellFormed(bs) && WellFormed(b)
    requires 0 < k < SpkiHashLen + 4
    ensures WalkBody(EncodeBody(bs) + EncodeBlock(b)[..k], filter)
            == Walked(Render(bs, filter), Some(if k < SpkiHashLen then SpkiHash else SerialCount))
  {
    WalkAfterBlocks(bs, EncodeBlock(b)[..k], filter);
    assert Render(bs, filter) + [] == Render(bs, filter);
  }

  /**
   * A block whose count promises more entries than follow fails at "serial
   * length"; the serials that were complete have been printed already.
   */
  lemma TruncatedAtSerialLength(bs: seq<Block>, spki: seq<byte>, n: nat, serials: seq<seq<byte>>, filter: seq<byte>)
    requires AllWellFormed(bs) && |spki| == SpkiHashLen && SerialsFit(serials)
    requires |serials| < n < 0x1_0000_0000
    ensures WalkBody(EncodeBody(bs) + (spki + LE32(n) + EncodeSerials(serials)), filter)
            == Walked(Render(bs, filter) + RenderSerials(spki, filter, serials), Some(SerialLength))
  {
    var tail := spki + LE32(n) + EncodeSerials(serials);
    WalkAfterBlocks(bs, tail, filter);
    WalkSerialsNoLength(spki, filter, [], n - |serials|);
    WalkPartialBlock(tail, spki, n, serials, [], filter);
    assert RenderSerials(spki, filter, serials) + [] == RenderSerials(spki, filter, serials);
  }

  /**
   * An entry whose length byte promises more bytes than remain fails at
   * "serial", again after printing the complete serials before it.
   */
  lemma TruncatedAtSerial(bs: seq<Block>, spki: seq<byte>, n: nat, serials: seq<seq<byte>>,
                          serialLen: byte, partial: seq<byte>, filter: seq<byte>)
    requires AllWellFormed(bs) && |spki| == SpkiHashLen && SerialsFit(serials)
    requires |serials| < n < 0x1_0000_0000
    requires |partial| < serialLen as int
    ensures WalkBody(EncodeBody(bs) + (spki + LE32(n) + EncodeSerials(serials) + [serialLen] + partial), filter)
            == Walked(Render(bs, filter) + RenderSerials(spki, filter, serials), Some(Serial))
  {
    var cut := [serialLen] + partial;
    var tail := spki + LE32(n) + EncodeSerials(serials) + [serialLen] + partial;
    assert tail == spki + LE32(n) + (EncodeSerials(serials) + cut);
    WalkAfterBlocks(bs, tail, filter);
    assert cut[1..] == partial;
    WalkSerialsShort(spki, filter, cut, n - |serials|);
    WalkPartialBlock(tail, spki, n, serials, cut, filter);
    assert RenderSerials(spki, filter, serials) + [] == RenderSerials(spki, filter, serials);
  }
}
