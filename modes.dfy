/**
 * The two output modes of `dump`, stated over the block view of a body.
 * Without a filter every (hash, serial) pair is printed, block by block and
 * in file order. With a filter only the serials of blocks whose hash equals
 * the filter are printed, again in file order; a filter that is not a
 * 32-byte hash can match nothing.
 */
module OutputModes {
  import opened Bytes
  import opened Walk
  import opened Blocks

  // ----- Reference definitions, written without `Emit` -----

  /** One `Revoked` line per serial of `b`, in order. */
  function RevokedLines(b: Block): (lines: seq<Line>)
    ensures |lines| == |b.serials|
  {
    seq(|b.serials|, i requires 0 <= i < |b.serials| => Revoked(b.spki, b.serials[i]))
  }

  /** Every (hash, serial) pair of the blocks, block after block. */
  function Revocations(bs: seq<Block>): seq<Line>
  {
    if bs == [] then [] else RevokedLines(bs[0]) + Revocations(bs[1..])
  }

  /** The blocks whose hash is exactly `filter`, in their original order. */
  function Matching(bs: seq<Block>, filter: seq<byte>): (ms: seq<Block>)
    ensures forall b <- ms :: b in bs && b.spki == filter
    ensures forall i :: 0 <= i < |bs| && bs[i].spki == filter ==> bs[i] in ms
  {
    if bs == [] then []
    else if bs[0].spki == filter then [bs[0]] + Matching(bs[1..], filter)
    else Matching(bs[1..], filter)
  }

  /** The serials of the blocks, concatenated in order. */
  function AllSerials(bs: seq<Block>): seq<seq<byte>>
  {
    if bs == [] then [] else bs[0].serials + AllSerials(bs[1..])
  }

  /** One `Matched` line per serial, in order. */
  function MatchedLines(serials: seq<seq<byte>>): (lines: seq<Line>)
    ensures |lines| == |serials|
  {
    seq(|serials|, i requires 0 <= i < |serials| => Matched(serials[i]))
  }

  // ----- One block -----

  /** Without a filter, a block's serials are printed with its hash. */
  lemma {:induction false} UnfilteredBlock(spki: seq<byte>, serials: seq<seq<byte>>)
    ensures RenderSerials(spki, [], serials) == RevokedLines(Block(spki, serials))
    decreases |serials|
  {
    if serials != [] {
      UnfilteredBlock(spki, serials[1..]);
      assert RevokedLines(Block(spki, serials))
             == [Revoked(spki, serials[0])] + RevokedLines(Block(spki, serials[1..]));
    }
  }

  /** With a filter equal to the block's hash, the serials are printed alone. */
  lemma {:induction false} MatchingBlock(spki: seq<byte>, filter: seq<byte>, serials: seq<seq<byte>>)
    requires |filter| > 0 && filter == spki
    ensures RenderSerials(spki, filter, serials) == MatchedLines(serials)
    decreases |serials|
  {
    if serials != [] {
      MatchingBlock(spki, filter, serials[1..]);
      assert MatchedLines(serials) == [Matched(serials[0])] + MatchedLines(serials[1..]);
    }
  }

  /** With a filter different from the block's hash, the block prints nothing. */
  lemma {:induction false} OtherBlock(spki: seq<byte>, filter: seq<byte>, serials: seq<seq<byte>>)
    requires |filter| > 0 && filter != spki
    ensures RenderSerials(spki, filter, serials) == []
    decreases |serials|
  {
    if serials != [] {
      OtherBlock(spki, filter, serials[1..]);
    }
  }

  lemma MatchedLinesAppend(a: seq<seq<byte>>, b: seq<seq<byte>>)
    ensures MatchedLines(a + b) == MatchedLines(a) + MatchedLines(b)
  {
  }

  // ----- Whole bodies -----

  /** Without a filter, every (hash, serial) pair is printed, in file order. */
  lemma {:induction false} UnfilteredRender(bs: seq<Block>)
    ensures Render(bs, []) == Revocations(bs)
  {
    if bs != [] {
      UnfilteredBlock(bs[0].spki, bs[0].serials);
      UnfilteredRender(bs[1..]);
    }
  }

  /**
   * With a filter, exactly the serials of the blocks whose hash equals the
   * filter are printed, in file order, each without its hash.
   */
  lemma {:induction false} FilteredRender(bs: seq<Block>, filter: seq<byte>)
    requires |filter| > 0
    ensures Render(bs, filter) == MatchedLines(AllSerials(Matching(bs, filter)))
  {
    if bs != [] {
      FilteredRender(bs[1..], filter);
      var later := AllSerials(Matching(bs[1..], filter));
      if bs[0].spki == filter {
        MatchingBlock(bs[0].spki, filter, bs[0].serials);
        assert ([bs[0]] + Matching(bs[1..], filter))[1..] == Matching(bs[1..], filter);
        MatchedLinesAppend(bs[0].serials, later);
      } else {
        OtherBlock(bs[0].spki, filter, bs[0].serials);
      }
    }
  }

  /** A filter that no block's hash equals prints nothing at all. */
  lemma NoMatchPrintsNothing(bs: seq<Block>, filter: seq<byte>)
    requires |filter| > 0 && forall b <- bs :: b.spki != filter
    ensures Render(bs, filter) == []
  {
    FilteredRender(bs, filter);
  }

  /**
   * A non-empty filter that is not 32 bytes long never equals a hash of a
   * decoded body, so it prints nothing.
   */
  lemma WrongLengthFilter(bs: seq<Block>, filter: seq<byte>)
    requires AllWellFormed(bs) && |filter| > 0 && |filter| != SpkiHashLen
    ensures Render(bs, filter) == []
  {
    forall b <- bs
      ensures b.spki != filter
    {
      assert WellFormed(b);
    }
    NoMatchPrintsNothing(bs, filter);
  }

  /** When a single block has the filter's hash, exactly its serials are printed. */
  lemma SingleMatch(bs: seq<Block>, filter: seq<byte>, j: nat)
    requires |filter| > 0 && j < |bs| && bs[j].spki == filter
    requires forall k :: 0 <= k < |bs| && k != j ==> bs[k].spki != filter
    ensures Render(bs, filter) == MatchedLines(bs[j].serials)
  {
    assert bs == bs[..j] + [bs[j]] + bs[j + 1..];
    NoneMatching(bs[..j], filter);
    NoneMatching(bs[j + 1..], filter);
    MatchingAppend(bs[..j] + [bs[j]], bs[j + 1..], filter);
    MatchingAppend(bs[..j], [bs[j]], filter);
    assert Matching(bs, filter) == [bs[j]];
    assert AllSerials([bs[j]]) == bs[j].serials + [];
    FilteredRender(bs, filter);
  }

  lemma {:induction false} NoneMatching(bs: seq<Block>, filter: seq<byte>)
    requires forall k :: 0 <= k < |bs| ==> bs[k].spki != filter
    ensures Matching(bs, filter) == []
  {
    if bs != [] {
      NoneMatching(bs[1..], filter);
    }
  }

  lemma {:induction false} MatchingAppend(a: seq<Block>, b: seq<Block>, filter: seq<byte>)
    ensures Matching(a + b, filter) == Matching(a, filter) + Matching(b, filter)
  {
    if a == [] {
      assert a + b == b;
    } else {
      assert (a + b)[1..] == a[1..] + b;
      MatchingAppend(a[1..], b, filter);
    }
  }
}
