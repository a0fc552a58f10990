/**
 * The body walk of `dump` (crlset.go:229-270): blocks of a 32-byte SPKI hash,
 * a little-endian `uint32` serial count and that many `{len:u8, serial[len]}`
 * entries, repeated until the body is used up.
 *
 * `WalkBody` is the specification: what `dump` prints, in order, and the
 * stage at which it gave up, if it did. Lines printed before a truncation
 * stay printed, so a failed walk still carries its output. `DumpBody` is the
 * cursor loop itself, proved to print exactly that.
 */
module Walk {
  import opened Wrappers
  import opened Bytes
  import opened Errors

  const SpkiHashLen: nat := 32

  /** One line printed on standard output. */
  datatype Line =
    | Revoked(spki: seq<byte>, serial: seq<byte>)  // unfiltered: the block's hash and one serial
    | Matched(serial: seq<byte>)                   // filtered: a serial of a block whose hash matched

  /** What a walk printed and the stage it failed at, `None` on success. */
  datatype Walked = Walked(out: seq<Line>, err: Option<Stage>)

  /** The same for the entries of one block, with the bytes left after them. */
  datatype SerialsWalked = SerialsWalked(out: seq<Line>, err: Option<Stage>, rest: seq<byte>)

  /**
   * The line printed for one serial. An empty `filter` means no certificate
   * was given: every serial is printed with its hash. Otherwise the serial
   * is printed alone when the block's hash equals the filter byte for byte.
   */
  function Emit(spki: seq<byte>, filter: seq<byte>, serial: seq<byte>): (lines: seq<Line>)
    ensures |lines| <= 1
    ensures lines != [] <==> |filter| == 0 || filter == spki
    ensures |filter| == 0 ==> lines == [Revoked(spki, serial)]
    ensures |filter| > 0 && filter == spki ==> lines == [Matched(serial)]
  {
    if |filter| == 0 then [Revoked(spki, serial)]
    else if filter == spki then [Matched(serial)]
    else []
  }

  /** Output of the earlier entries of a block followed by a walk of the later ones. */
  function Prepend(lines: seq<Line>, w: SerialsWalked): SerialsWalked
  {
    SerialsWalked(lines + w.out, w.err, w.rest)
  }

  /** The inner loop: `n` more entries of the block whose hash is `spki`. */
  function WalkSerials(spki: seq<byte>, filter: seq<byte>, c: seq<byte>, n: nat): (w: SerialsWalked)
    ensures |w.rest| <= |c|
    ensures |w.out| <= |c| - |w.rest|
    ensures w.err.Some? ==> w.err.value in {SerialLength, Serial}
    decreases n
  {
    if n == 0 then SerialsWalked([], None, c)
    else if |c| < 1 then SerialsWalked([], Some(SerialLength), c)
    else
      var serialLen := c[0] as int;
      var tail := c[1..];
      if |tail| < serialLen then SerialsWalked([], Some(Serial), tail)
      else Prepend(Emit(spki, filter, tail[..serialLen]),
                   WalkSerials(spki, filter, tail[serialLen..], n - 1))
  }

  /** The outer loop, from a block boundary to the end of the body. */
  function WalkBody(c: seq<byte>, filter: seq<byte>): (w: Walked)
    ensures |w.out| <= |c|
    ensures w.err.Some? ==> w.err.value in {SpkiHash, SerialCount, SerialLength, Serial}
    ensures 0 < |c| < SpkiHashLen ==> w == Walked([], Some(SpkiHash))
    ensures c == [] ==> w == Walked([], None)
    decreases |c|
  {
    if |c| == 0 then Walked([], None)
    else if |c| < SpkiHashLen then Walked([], Some(SpkiHash))
    else
      var spki := c[..SpkiHashLen];
      var tail := c[SpkiHashLen..];
      if |tail| < 4 then Walked([], Some(SerialCount))
      else
        var numSerials := U32LE(tail[0], tail[1], tail[2], tail[3]);
        var s := WalkSerials(spki, filter, tail[4..], numSerials);
        if s.err.Some? then Walked(s.out, s.err)
        else
          var w := WalkBody(s.rest, filter);
          Walked(s.out + w.out, w.err)
  }

  /** Output already printed followed by the rest of a walk. */
  function Then(lines: seq<Line>, w: Walked): Walked
  {
    Walked(lines + w.out, w.err)
  }

  /** Printing `a` then `b` then the walk `w` is printing `a + b` then `w`. */
  lemma ThenTwice(a: seq<Line>, b: seq<Line>, w: Walked)
    ensures Then(a, Then(b, w)) == Then(a + b, w)
  {
    assert a + (b + w.out) == (a + b) + w.out;
  }

  /** One step of the outer loop: a block that has its hash and count. */
  lemma WalkBodyBlock(block: seq<byte>, filter: seq<byte>)
    requires |block| >= SpkiHashLen + 4
    ensures var tail := block[SpkiHashLen..];
            var s := WalkSerials(block[..SpkiHashLen], filter, tail[4..], U32LE(tail[0], tail[1], tail[2], tail[3]));
            WalkBody(block, filter)
            == if s.err.Some? then Walked(s.out, s.err) else Then(s.out, WalkBody(s.rest, filter))
  {
  }

  /** The inner loop stops at a missing length byte. */
  lemma WalkSerialsNoLength(spki: seq<byte>, filter: seq<byte>, c: seq<byte>, n: nat)
    requires n > 0 && |c| < 1
    ensures WalkSerials(spki, filter, c, n) == SerialsWalked([], Some(SerialLength), c)
  {
  }

  /** The inner loop stops at a serial shorter than its length byte says. */
  lemma WalkSerialsShort(spki: seq<byte>, filter: seq<byte>, c: seq<byte>, n: nat)
    requires n > 0 && 1 <= |c| && |c[1..]| < c[0] as int
    ensures WalkSerials(spki, filter, c, n) == SerialsWalked([], Some(Serial), c[1..])
  {
  }

  /** A complete entry is printed, then the loop goes on with the next one. */
  lemma WalkSerialsEntry(spki: seq<byte>, filter: seq<byte>, c: seq<byte>, n: nat)
    requires n > 0 && 1 <= |c| && c[0] as int <= |c[1..]|
    ensures var serialLen := c[0] as int;
            WalkSerials(spki, filter, c, n)
            == Prepend(Emit(spki, filter, c[1..][..serialLen]), WalkSerials(spki, filter, c[1..][serialLen..], n - 1))
  {
  }

  /** Prepending twice is prepending the concatenation. */
  lemma PrependTwice(a: seq<Line>, b: seq<Line>, w: SerialsWalked)
    ensures Prepend(a, Prepend(b, w)) == Prepend(a + b, w)
  {
    assert a + (b + w.out) == (a + b) + w.out;
  }

  /** One iteration of the inner loop: the entry's line joins what was printed before it. */
  lemma EntryStep(spki: seq<byte>, filter: seq<byte>, entry: seq<byte>, k: nat, printed: seq<Line>)
    requires k > 0 && 1 <= |entry| && entry[0] as int <= |entry[1..]|
    ensures var serialLen := entry[0] as int;
            Prepend(printed, WalkSerials(spki, filter, entry, k))
            == Prepend(printed + Emit(spki, filter, entry[1..][..serialLen]),
                       WalkSerials(spki, filter, entry[1..][serialLen..], k - 1))
  {
    var serialLen := entry[0] as int;
    WalkSerialsEntry(spki, filter, entry, k);
    PrependTwice(printed, Emit(spki, filter, entry[1..][..serialLen]),
                 WalkSerials(spki, filter, entry[1..][serialLen..], k - 1));
  }

  /**
   * The inner loop of `dump` (crlset.go:250-269): reads `numSerials`
   * entries from `c`, printing each as it goes. `currentSpki` holds the
   * hash only when no filter is set, as in the source; `spkiMatches` is the
   * comparison made once per block.
   */
  method DumpEntries(ghost spki: seq<byte>, currentSpki: seq<byte>, spkiMatches: bool,
                     filter: seq<byte>, c0: seq<byte>, numSerials: nat)
    returns (out: seq<Line>, err: Option<Stage>, c: seq<byte>)
    requires |filter| == 0 ==> currentSpki == spki
    requires spkiMatches == (filter == spki)
    ensures SerialsWalked(out, err, c) == WalkSerials(spki, filter, c0, numSerials)
  {
    c := c0;
    out := [];
    ghost var whole := WalkSerials(spki, filter, c0, numSerials);
    var i := 0;
    while i < numSerials
      invariant 0 <= i <= numSerials
      invariant whole == Prepend(out, WalkSerials(spki, filter, c, numSerials - i))
    {
      if |c| < 1 {
        WalkSerialsNoLength(spki, filter, c, numSerials - i);
        return out, Some(SerialLength), c;
      }
      ghost var entry := c;
      var serialLen := c[0] as int;
      c := c[1..];

      if |c| < serialLen {
        WalkSerialsShort(spki, filter, entry, numSerials - i);
        return out, Some(Serial), c;
      }
      EntryStep(spki, filter, entry, numSerials - i, out);

      ghost var printed := out;
      if |filter| == 0 {
        out := out + [Revoked(currentSpki, c[..serialLen])];
      } else if spkiMatches {
        out := out + [Matched(c[..serialLen])];
      }
      assert out == printed + Emit(spki, filter, c[..serialLen]);
      c := c[serialLen..];
      i := i + 1;
    }
    err := None;
  }

  /**
   * The loop of `dump` over the body `c` returned by `getHeader`
   * (crlset.go:229-272), with `filter` the SHA-256 of the certificate's SPKI
   * or empty. Each `Printf` appends to `out`; each "CRLSet truncated at ..."
   * return sets `err`.
   */
  method DumpBody(body: seq<byte>, filter: seq<byte>) returns (out: seq<Line>, err: Option<Stage>)
    ensures Walked(out, err) == WalkBody(body, filter)
  {
    var c := body;
    out := [];
    while |c| > 0
      invariant WalkBody(body, filter) == Then(out, WalkBody(c, filter))
      decreases |c|
    {
      ghost var block := c;
      var currentSpki: seq<byte> := [];
      if |c| < SpkiHashLen {
        return out, Some(SpkiHash);
      }
      var spkiMatches := filter == c[..SpkiHashLen];
      if |filter| == 0 {
        currentSpki := c[..SpkiHashLen];
      }
      ghost var spki := c[..SpkiHashLen];
      c := c[SpkiHashLen..];

      if |c| < 4 {
        return out, Some(SerialCount);
      }
      var numSerials := U32LE(c[0], c[1], c[2], c[3]);
      c := c[4..];

      WalkBodyBlock(block, filter);
      var printed, blockErr;
      printed, blockErr, c := DumpEntries(spki, currentSpki, spkiMatches, filter, c, numSerials);
      ThenTwice(out, printed, WalkBody(c, filter));
      out := out + printed;
      if blockErr.Some? {
        return out, blockErr;
      }
    }
    err := None;
  }
}
