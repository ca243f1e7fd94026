/**
 The use counter of a cached page: four bytes, least significant first, as
 `binary.LittleEndian` reads and writes them.
 */
module UseCounter {

  newtype Byte = b: int | 0 <= b < 256

  const TWO_32: int := 0x1_0000_0000

  predicate IsCounter(bs: seq<Byte>) {
    |bs| == 4
  }

  function PutUint32(x: nat): (bs: seq<Byte>)
    requires x < TWO_32
    ensures IsCounter(bs)
  {
    [(x % 256) as Byte, (x / 256 % 256) as Byte, (x / 65536 % 256) as Byte, (x / 16777216) as Byte]
  }

  function Uint32(bs: seq<Byte>): (x: nat)
    requires IsCounter(bs)
    ensures x < TWO_32
  {
    bs[0] as int + 256 * bs[1] as int + 65536 * bs[2] as int + 16777216 * bs[3] as int
  }

  /** The four digits of a number to the base 256 make up the number. */
  lemma DigitsOf(x: nat)
    requires x < TWO_32
    ensures x == x % 256 + 256 * (x / 256 % 256) + 65536 * (x / 65536 % 256) + 16777216 * (x / 16777216)
  {
    var a := x / 256;
    var b := a / 256;
    assert x / 65536 == b && x / 16777216 == b / 256;
  }

  /** Four digits are those of the number they make up. */
  lemma DigitsBack(a: nat, b: nat, c: nat, d: nat)
    requires a < 256 && b < 256 && c < 256 && d < 256
    ensures var y := a + 256 * b + 65536 * c + 16777216 * d;
            y % 256 == a && y / 256 % 256 == b && y / 65536 % 256 == c && y / 16777216 == d
  {
    var y := a + 256 * b + 65536 * c + 16777216 * d;
    var y1 := b + 256 * c + 65536 * d;
    var y2 := c + 256 * d;
    assert y / 256 == y1 && y1 / 256 == y2;
    assert y / 65536 == y2;
  }

  /** Encoding and decoding are inverse both ways. */
  lemma RoundTrip(x: nat, bs: seq<Byte>)
    requires x < TWO_32 && IsCounter(bs)
    ensures Uint32(PutUint32(x)) == x
    ensures PutUint32(Uint32(bs)) == bs
  {
    DigitsOf(x);
    DigitsBack(bs[0] as int, bs[1] as int, bs[2] as int, bs[3] as int);
  }

  /** The order of the bytes: the least significant one first. */
  lemma LeastFirst(x: nat, i: nat)
    requires x < TWO_32 && i < 4
    ensures PutUint32(x)[i] as int == x / [1, 256, 65536, 16777216][i] % 256
    ensures x < 256 ==> PutUint32(x) == [x as Byte, 0, 0, 0]
  {
  }

  /** The zero counter a new bucket starts with. */
  const ZERO: seq<Byte> := [0, 0, 0, 0]

  /** One more use, wrapping at 2^32. */
  function Incremented(bs: seq<Byte>): (r: seq<Byte>)
    requires IsCounter(bs)
    ensures IsCounter(r)
    ensures Uint32(r) == (Uint32(bs) + 1) % TWO_32
  {
    var x := (Uint32(bs) + 1) % TWO_32;
    RoundTrip(x, bs);
    PutUint32(x)
  }
}
