/**
 * Bytes and the little-endian integers of the CRLSet and CRX formats.
 */
module Bytes {

  /** Go's `byte` (`uint8`). */
  newtype byte = b: int | 0 <= b < 0x100

  function Min(a: int, b: int): int
  {
    if a <= b then a else b
  }

  /**
   * The CRLSet header length, which the source assembles as
   * `int(c[0]) | int(c[1])<<8`. The two bytes occupy disjoint bits, so the
   * OR is the sum written here.
   */
  function U16LE(b0: byte, b1: byte): (n: nat)
    ensures n < 0x1_0000
  {
    b0 as int + 0x100 * b1 as int
  }

  /**
   * A little-endian `uint32`: `c[0] | c[1]<<8 | c[2]<<16 | c[3]<<24`, the
   * layout `binary.LittleEndian` also reads; again the OR is a sum.
   */
  function U32LE(b0: byte, b1: byte, b2: byte, b3: byte): (n: nat)
    ensures n < 0x1_0000_0000
  {
    b0 as int + 0x100 * b1 as int + 0x1_0000 * b2 as int + 0x100_0000 * b3 as int
  }

  /** The four little-endian bytes of a `uint32`; used to build well-formed inputs. */
  function LE32(n: nat): (e: seq<byte>)
    requires n < 0x1_0000_0000
    ensures |e| == 4
  {
    [(n % 0x100) as byte, (n / 0x100 % 0x100) as byte,
     (n / 0x100 / 0x100 % 0x100) as byte, (n / 0x100 / 0x100 / 0x100) as byte]
  }

  /** Division by 256 undoes a byte-and-carry split. */
  lemma DivMod256(x: nat, q: nat, r: nat)
    requires x == r + 0x100 * q && r < 0x100
    ensures x / 0x100 == q && x % 0x100 == r
  {
  }

  /** Reading back the encoding of a `uint32` gives the same number. */
  lemma LE32RoundTrip(n: nat)
    requires n < 0x1_0000_0000
    ensures var e := LE32(n); U32LE(e[0], e[1], e[2], e[3]) == n
  {
    var q1, q2 := n / 0x100, n / 0x100 / 0x100;
    assert n == n % 0x100 + 0x100 * q1;
    assert q1 == q1 % 0x100 + 0x100 * q2;
    assert q2 == q2 % 0x100 + 0x100 * (q2 / 0x100);
  }

  /** The four bytes of a count are the little-endian encoding of the count read from them. */
  lemma LE32OfU32LE(b0: byte, b1: byte, b2: byte, b3: byte)
    ensures LE32(U32LE(b0, b1, b2, b3)) == [b0, b1, b2, b3]
  {
    var n := U32LE(b0, b1, b2, b3);
    var q1 := b1 as int + 0x100 * b2 as int + 0x1_0000 * b3 as int;
    var q2 := b2 as int + 0x100 * b3 as int;
    DivMod256(n, q1, b0 as int);
    DivMod256(q1, q2, b1 as int);
    DivMod256(q2, b3 as int, b2 as int);
  }

  /** The two little-endian bytes of a `uint16`. */
  function LE16(n: nat): (e: seq<byte>)
    requires n < 0x1_0000
    ensures |e| == 2
  {
    [(n % 0x100) as byte, (n / 0x100) as byte]
  }

  /** Reading back the encoding of a `uint16` gives the same number. */
  lemma LE16RoundTrip(n: nat)
    requires n < 0x1_0000
    ensures var e := LE16(n); U16LE(e[0], e[1]) == n
  {
    assert n == n % 0x100 + 0x100 * (n / 0x100);
  }
}
