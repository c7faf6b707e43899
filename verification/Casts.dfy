/** The cast of an int to unsigned char: counting up from zero, wrapping round after 255. */
module Casts {

  function ByteOf(n: nat): (b: bv8)
    ensures b as int == n % 256
  {
    if n == 0 then 0 else
    var b := ByteOf(n - 1);
    Successor(b);
    NextRemainder(n - 1);
    b + 1
  }

  lemma NextRemainder(m: nat)
    ensures (m % 256 + 1) % 256 == (m + 1) % 256
  {
    var q, r := m / 256, m % 256;
    assert m == 256 * q + r;
    assert m + 1 == 256 * q + (r + 1);
  }

  lemma RemainderOfRemainder(m: int)
    ensures (m % 256) % 128 == m % 128
  {
    assert m == 128 * (2 * (m / 256)) + m % 256;
  }

  lemma Successor(b: bv8)
    ensures (b + 1) as int == (b as int + 1) % 256
  {
  }

  lemma SevenBits(b: bv8)
    ensures (b % 128) as int == (b as int) % 128
  {
  }

  /** Addresses below 128 survive the cast and the reduction to seven bits. */
  lemma SmallAddress(b: bv8, n: nat)
    requires n < 128 && b as int == n % 256
    ensures (b % 128) as int == n
  {
    SevenBits(b);
  }

  /** The cast of an int of either sign. */
  function CharOf(i: int): (b: bv8)
    ensures b as int == i % 256
  {
    ByteOf(i % 256)
  }

  /** Only the residue modulo 128 of a number reaches a seven-bit address field. */
  lemma AddressOfCast(i: int)
    ensures (CharOf(i) % 128) as int == i % 128
  {
    hide CharOf;
    SevenBits(CharOf(i));
    RemainderOfRemainder(i);
  }
}
